/**
 * The ACF blocks plugin's `Metadata` class: the same upload pipeline as the
 * photo gallery's, with its own coordinate conversion (through a fraction
 * library), its own caption builder, and one hook that fills both the alt
 * text and the caption from the image's embedded title.
 */
module BlocksMetadata {
  import opened PhpCore
  import opened PhpStrings
  import opened WordPress
  import opened ExifCommon
  import GalleryFormatting

  /** Component `i` of a split coordinate read by the fraction library; a missing one counts as 0. */
  function Component(parts: seq<string>, i: nat, fraction: string -> Result<real>): Result<real> {
    if |parts| > i then fraction(parts[i]) else Ok(0.0)
  }

  /**
   * `dms_to_decimal`, without the gallery's guard for an empty coordinate or
   * hemisphere: `fraction` stands for `Fraction::fromString( $s )->toFloat()`,
   * whose exception on a malformed component propagates.
   */
  function DmsToDecimal(dms: string, hemisphere: string, fraction: string -> Result<real>): (r: Result<real>)
    ensures r.Err? ==> exists s :: fraction(s).Err? && fraction(s).error == r.error
  {
    var parts := Explode(", ", dms);
    var magnitude := GalleryFormatting.Sexagesimal(
      Component(parts, 0, fraction), Component(parts, 1, fraction), Component(parts, 2, fraction));
    if magnitude.Err? then
      ComponentsError(parts, fraction);
      Err(magnitude.error)
    else Ok(GalleryFormatting.Flip(magnitude.value, hemisphere))
  }

  /** The error of the first three components is one the fraction library raised. */
  lemma ComponentsError(parts: seq<string>, fraction: string -> Result<real>)
    requires GalleryFormatting.Sexagesimal(
      Component(parts, 0, fraction), Component(parts, 1, fraction), Component(parts, 2, fraction)).Err?
    ensures var e := GalleryFormatting.Sexagesimal(
        Component(parts, 0, fraction), Component(parts, 1, fraction), Component(parts, 2, fraction)).error;
      exists s :: fraction(s).Err? && fraction(s).error == e
  {
    if Component(parts, 0, fraction).Err? {
      assert fraction(parts[0]).Err?;
    } else if Component(parts, 1, fraction).Err? {
      assert fraction(parts[1]).Err?;
    } else {
      assert fraction(parts[2]).Err?;
    }
  }

  /**
   * The conversion of a coordinate whose components read as the given numbers:
   * degrees + minutes/60 + seconds/3600, missing components counting as 0,
   * components after the third ignored, negated exactly for "W" and "S".
   */
  lemma DmsValue(dms: string, hemisphere: string, fraction: string -> Result<real>, values: seq<real>)
    requires var parts := Explode(", ", dms);
      && |values| == |parts|
      && forall i | 0 <= i < |parts| && i < 3 :: fraction(parts[i]) == Ok(values[i])
    ensures var v := (if |values| > 0 then values[0] else 0.0)
                   + (if |values| > 1 then values[1] else 0.0) / 60.0
                   + (if |values| > 2 then values[2] else 0.0) / 3600.0;
      DmsToDecimal(dms, hemisphere, fraction)
        == Ok(if GalleryFormatting.Negative(hemisphere) then -v else v)
  {
    var parts := Explode(", ", dms);
    var d := if |values| > 0 then values[0] else 0.0;
    var m := if |values| > 1 then values[1] else 0.0;
    var s := if |values| > 2 then values[2] else 0.0;
    assert Component(parts, 0, fraction) == Ok(d);
    assert Component(parts, 1, fraction) == Ok(m);
    assert Component(parts, 2, fraction) == Ok(s);
  }

  /** The first component that the fraction library refuses is the error of the whole conversion. */
  lemma DmsFails(dms: string, hemisphere: string, fraction: string -> Result<real>, parts: seq<string>)
    requires parts == Explode(", ", dms)
    ensures DmsToDecimal(dms, hemisphere, fraction).Err? <==>
      exists i | 0 <= i < 3 && i < |parts| :: fraction(parts[i]).Err?
  {
    var c0, c1, c2 := Component(parts, 0, fraction), Component(parts, 1, fraction), Component(parts, 2, fraction);
    assert DmsToDecimal(dms, hemisphere, fraction).Err? <==> GalleryFormatting.Sexagesimal(c0, c1, c2).Err?;
    if GalleryFormatting.Sexagesimal(c0, c1, c2).Err? {
      if c0.Err? {
        assert fraction(parts[0]).Err?;
      } else if c1.Err? {
        assert 1 < |parts| && fraction(parts[1]).Err?;
      } else {
        assert 2 < |parts| && fraction(parts[2]).Err?;
      }
    }
    if exists i | 0 <= i < 3 && i < |parts| :: fraction(parts[i]).Err? {
      var i :| 0 <= i < 3 && i < |parts| && fraction(parts[i]).Err?;
      assert i == 0 ==> c0.Err?;
      assert i == 1 ==> c1.Err?;
      assert i == 2 ==> c2.Err?;
    }
  }

  /**
   * Where both plugins have a value for a coordinate, they agree when the
   * fraction library reads each component as `convert_to_float` does: the
   * two differ only in the gallery's guard, which answers 0 for an empty
   * coordinate or hemisphere.
   */
  lemma DmsAgreesWithGallery(dms: string, hemisphere: string, fraction: string -> Result<real>, parts: seq<string>)
    requires parts == Explode(", ", dms)
    requires forall i | 0 <= i < 3 && i < |parts| :: fraction(parts[i]) == GalleryFormatting.ConvertToFloat(parts[i])
    ensures Truthy(dms) && Truthy(hemisphere) ==>
      DmsToDecimal(dms, hemisphere, fraction) == GalleryFormatting.DmsToDecimal(dms, hemisphere)
    ensures Falsy(dms) || Falsy(hemisphere) ==> GalleryFormatting.DmsToDecimal(dms, hemisphere) == Ok(0.0)
  {
    forall i | 0 <= i < 3
      ensures Component(parts, i, fraction) == GalleryFormatting.Component(parts, i)
    {
    }
    if Truthy(dms) {
      GalleryFormatting.DmsOfSplit(dms, hemisphere, parts);
    }
  }

  /** The aperture prefix "ƒ/". */
  const AperturePrefix := "\U{0192}/"

  /**
   * The shutter segment. `fractionText` stands for `Fraction::fromFloat`
   * printed as a string; the object it returns is always truthy, so a
   * truthy raw value always yields a segment, and the library's exception
   * propagates out of the caption builder.
   */
  function ShutterSegment(imageMeta: map<string, string>, fractionText: string -> Result<string>): (r: Result<string>)
    ensures Falsy(Lookup(imageMeta, "shutter_speed")) ==> r == Ok("")
    ensures Truthy(Lookup(imageMeta, "shutter_speed")) && fractionText(Lookup(imageMeta, "shutter_speed")).Ok? ==>
      r == Ok(fractionText(Lookup(imageMeta, "shutter_speed")).value + "s")
  {
    var raw := Lookup(imageMeta, "shutter_speed");
    if Truthy(raw) then
      var shutter :- fractionText(raw);
      Ok(shutter + "s")
    else Ok("")
  }

  /** `generate_single_exif_string`. */
  function ExifString(ext: map<string, string>, imageMeta: map<string, string>, fractionText: string -> Result<string>)
    : (r: Result<string>)
    ensures r.Err? <==> ShutterSegment(imageMeta, fractionText).Err?
    ensures r.Ok? ==> r.value != ""
    ensures r.Ok? ==> var camera := Lookup(ext, "make") + " " + Lookup(imageMeta, "camera");
      |camera| <= |r.value| && r.value[..|camera|] == camera
  {
    var shutter :- ShutterSegment(imageMeta, fractionText);
    Ok(Caption(CaptionSegments(ext, imageMeta, AperturePrefix, shutter)))
  }

  /**
   * Apart from the aperture prefix and the shutter segment, the two
   * plugins build the same caption from the same fields.
   */
  lemma ExifStringMatchesGallery(ext: map<string, string>, imageMeta: map<string, string>,
                                 fractionText: string -> Result<string>)
    requires Falsy(Lookup(imageMeta, "aperture")) && Falsy(Lookup(imageMeta, "shutter_speed"))
    ensures ExifString(ext, imageMeta, fractionText) == GalleryFormatting.FormatExifString(ext, imageMeta)
  {
    assert GalleryFormatting.GalleryShutterSegment(imageMeta) == Ok("");
    assert CaptionSegments(ext, imageMeta, AperturePrefix, "")
        == CaptionSegments(ext, imageMeta, GalleryFormatting.GalleryAperturePrefix, "");
  }

  /**
   * `get_extended_exif_data`. As in the gallery, Imagick is preferred; here
   * its `catch ( Exception )` also swallows the fraction library's
   * exception. The untyped `process_exif_data` turns `exif_read_data`'s
   * `false` into the empty record, while an exception in the native branch escapes.
   */
  function ExtendedExif(readers: Readers, sanitize: string -> string, fraction: string -> Result<real>)
    : (r: Result<map<string, ExifValue>>)
    ensures r.Err? && IsException(r.error) ==>
      !(readers.imagickLoaded && readers.fileExists) && readers.exifReadDataExists && readers.native.Some?
  {
    var dms := (d, h) => DmsToDecimal(d, h, fraction);
    if readers.imagickLoaded && readers.fileExists then
      match readers.imagick
      case ImagickThrew => Ok(map[])
      case Properties(tags) =>
        var r := Processed(tags, sanitize, dms);
        if r.Err? && IsException(r.error) then Ok(map[]) else r
    else if readers.exifReadDataExists then
      match readers.native
      case None => Ok(map[])
      case Some(tags) => Processed(tags, sanitize, dms)
    else Ok(map[])
  }

  /** With Imagick usable, a refused fraction yields the empty record rather than an error. */
  lemma ImagickSwallowsFractionErrors(readers: Readers, sanitize: string -> string, fraction: string -> Result<real>)
    requires forall s :: fraction(s).Err? ==> IsException(fraction(s).error)
    requires readers.imagickLoaded && readers.fileExists
    ensures ExtendedExif(readers, sanitize, fraction).Ok?
  {
    if readers.imagick.Properties? {
      var tags := readers.imagick.tags;
      var dms := (d, h) => DmsToDecimal(d, h, fraction);
      var r := Processed(tags, sanitize, dms);
      if r.Err? {
        ProcessedFails(tags, sanitize, dms);
        if "exif:GPSLatitude" in tags && "exif:GPSLatitudeRef" in tags
           && dms(tags["exif:GPSLatitude"], tags["exif:GPSLatitudeRef"]).Err? {
          assert r.error == dms(tags["exif:GPSLatitude"], tags["exif:GPSLatitudeRef"]).error;
        } else {
          assert r.error == dms(tags["exif:GPSLongitude"], tags["exif:GPSLongitudeRef"]).error;
        }
        assert r == WithGps(TextFields(tags, sanitize, 3), tags, dms, "latitude", "exif:GPSLatitude", "exif:GPSLatitudeRef")
                 || r.error == dms(tags["exif:GPSLongitude"], tags["exif:GPSLongitudeRef"]).error;
      }
    }
  }

  /**
   * What `add_extended_image_meta` stores for a processed record: nothing
   * when no saved field is present; otherwise the kept fields and their
   * caption, or the caption builder's error.
   */
  function ExtendedRecord(exif: map<string, ExifValue>, imageMeta: map<string, string>, sanitize: string -> string,
                          floatText: real -> string, fractionText: string -> Result<string>)
    : (rec: Result<Option<map<string, string>>>)
    ensures var kept := KeptFields(exif, sanitize, floatText, |SavedFields|);
      && (rec == Ok(None) <==> forall k | k in SavedFields :: k !in exif)
      && (rec.Err? <==> kept != map[] && ShutterSegment(imageMeta, fractionText).Err?)
      && (rec.Ok? && rec.value.Some? ==>
            && rec.value.value.Keys == kept.Keys + {"exif_string"}
            && (forall k | k in kept :: rec.value.value[k] == kept[k])
            && Ok(rec.value.value["exif_string"]) == ExifString(kept, imageMeta, fractionText))
  {
    var kept := KeptFields(exif, sanitize, floatText, |SavedFields|);
    assert SavedFields[..|SavedFields|] == SavedFields;
    assert "exif_string" !in SavedFields;
    if kept == map[] then Ok(None)
    else
      assert exists k :: k in kept;
      var exifString :- ExifString(kept, imageMeta, fractionText);
      Ok(Some(kept["exif_string" := exifString]))
  }

  /**
   * The per-upload hooks of the ACF blocks plugin over one store.
   * `sanitize` stands for `sanitize_text_field`, `floatText` for PHP's
   * printing of a float, and `fraction`/`fractionText` for the fraction
   * library's reading of a coordinate component and printing of a shutter speed.
   */
  class Uploads {
    const site: Site
    const sanitize: string -> string
    const floatText: real -> string
    const fraction: string -> Result<real>
    const fractionText: string -> Result<string>

    constructor (site: Site, sanitize: string -> string, floatText: real -> string,
                 fraction: string -> Result<real>, fractionText: string -> Result<string>)
      ensures this.site == site && this.sanitize == sanitize && this.floatText == floatText
      ensures this.fraction == fraction && this.fractionText == fractionText
    {
      this.site := site;
      this.sanitize := sanitize;
      this.floatText := floatText;
      this.fraction := fraction;
      this.fractionText := fractionText;
    }

    /**
     * `title_to_alt_and_caption`: for an image with a truthy embedded
     * title, an empty alt text and an empty caption each become the
     * sanitized title; a non-empty one is kept. The metadata comes back unchanged.
     */
    method TitleToAltAndCaption(imageMeta: map<string, string>, id: int) returns (r: map<string, string>)
      modifies site
      ensures r == imageMeta
      ensures var title := Lookup(imageMeta, "title");
        var fill := IsImage(old(site.MimeType(id))) && Truthy(title);
        var fillAlt := fill && old(site.MetaIsEmpty(id, AltTextKey));
        var fillCaption := fill && Falsy(old(site.Excerpt(id))) && id in old(site.posts);
        var stored := Unslash(sanitize(title));
        && site.meta == (if fillAlt then old(site.meta)[(id, AltTextKey) := MetaValue.Text(stored)]
                         else old(site.meta))
        && site.posts == (if fillCaption then old(site.posts)[id := old(site.posts)[id].(excerpt := stored)]
                          else old(site.posts))
        && site.writes == old(site.writes)
             + (if fillAlt then [MetaWrite(id, AltTextKey, MetaValue.Text(stored))] else [])
             + (if fillCaption then [PostWrite(id, Excerpt, stored, SavePostFired(old(site.posts)[id], old(site.saveHooks)))] else [])
      ensures site.saveHooks == old(site.saveHooks)
    {
      var title := Lookup(imageMeta, "title");
      if !IsImage(site.MimeType(id)) || Falsy(title) {
        return imageMeta;
      }
      if site.MetaIsEmpty(id, AltTextKey) {
        site.UpdatePostMeta(id, AltTextKey, MetaValue.Text(sanitize(title)));
      }
      var existing := site.Excerpt(id);
      if Falsy(existing) {
        site.UpdatePost(id, Excerpt, sanitize(title));
      }
      return imageMeta;
    }

    /**
     * `add_extended_image_meta`: for an image whose EXIF holds at least one
     * saved field, exactly one write of those fields and their caption;
     * otherwise no write. An error from reading the EXIF or from the
     * caption builder escapes the hook before anything is written.
     */
    method AddExtendedImageMeta(imageMeta: map<string, string>, id: int, readers: Readers)
      returns (r: Result<map<string, string>>)
      modifies site
      ensures var exif := ExtendedExif(readers, sanitize, fraction);
        if !IsImage(old(site.MimeType(id))) then
          r == Ok(imageMeta) && site.meta == old(site.meta) && site.writes == old(site.writes)
        else if exif.Err? then
          r == Err(exif.error) && site.meta == old(site.meta) && site.writes == old(site.writes)
        else
          var rec := ExtendedRecord(exif.value, imageMeta, sanitize, floatText, fractionText);
          if rec.Err? then
            r == Err(rec.error) && site.meta == old(site.meta) && site.writes == old(site.writes)
          else
            && r == Ok(imageMeta)
            && site.meta == (if rec.value.Some? then old(site.meta)[(id, ExtendedMetaKey) := UnslashMeta(Fields(rec.value.value))]
                             else old(site.meta))
            && site.writes == old(site.writes)
                 + (if rec.value.Some? then [MetaWrite(id, ExtendedMetaKey, UnslashMeta(Fields(rec.value.value)))] else [])
      ensures site.posts == old(site.posts) && site.saveHooks == old(site.saveHooks)
    {
      if !IsImage(site.MimeType(id)) {
        return Ok(imageMeta);
      }
      var exif := ExtendedExif(readers, sanitize, fraction);
      if exif.Err? {
        return Err(exif.error);
      }
      var extended := KeepSavedFields(exif.value, sanitize, floatText);
      if extended == map[] {
        return Ok(imageMeta);
      }
      var exifString := ExifString(extended, imageMeta, fractionText);
      if exifString.Err? {
        return Err(exifString.error);
      }
      extended := extended["exif_string" := exifString.value];
      site.UpdatePostMeta(id, ExtendedMetaKey, Fields(extended));
      return Ok(imageMeta);
    }
  }
}
