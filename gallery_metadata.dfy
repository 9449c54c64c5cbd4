/**
 * The photo gallery's `Metadata` class: on upload it fills an empty alt
 * text and caption, reads the extended EXIF tags of the file, and stores
 * the saved fields with their one-line caption under `extended_image_meta`.
 */
module GalleryMetadata {
  import opened PhpCore
  import opened PhpStrings
  import opened WordPress
  import opened ExifCommon
  import opened GalleryFormatting

  /**
   * `get_extended_exif_data`. Imagick is tried when it is loaded and the
   * file exists; the native reader only otherwise. Its `catch ( Exception )`
   * turns an Imagick failure into the empty record, but lets the engine's
   * errors (a zero denominator in a coordinate) through. `exif_read_data`
   * returning `false` reaches the `array`-typed `process_exif_data` as a TypeError.
   */
  function ExtendedExif(readers: Readers, sanitize: string -> string): (r: Result<map<string, ExifValue>>)
    ensures r == Err(TypeError) <==>
      !(readers.imagickLoaded && readers.fileExists) && readers.exifReadDataExists && readers.native.None?
  {
    if readers.imagickLoaded && readers.fileExists then
      match readers.imagick
      case ImagickThrew => Ok(map[])
      case Properties(tags) =>
        var r := Processed(tags, sanitize, DmsToDecimal);
        ProcessedErrorsAreDivisions(tags, sanitize);
        if r.Err? && IsException(r.error) then Ok(map[]) else r
    else if readers.exifReadDataExists then
      match readers.native
      case None => Err(TypeError)
      case Some(tags) =>
        ProcessedErrorsAreDivisions(tags, sanitize);
        Processed(tags, sanitize, DmsToDecimal)
    else Ok(map[])
  }

  /**
   * The backend choice: with Imagick usable the native reader is never
   * consulted, an Imagick failure gives the empty record, and without
   * Imagick the Imagick outcome is irrelevant.
   */
  lemma BackendChoice(readers: Readers, sanitize: string -> string, native: Option<Tags>, nativeExists: bool,
                      imagick: ImagickOutcome)
    ensures readers.imagickLoaded && readers.fileExists ==>
      ExtendedExif(readers, sanitize) == ExtendedExif(readers.(native := native, exifReadDataExists := nativeExists), sanitize)
    ensures readers.imagickLoaded && readers.fileExists && readers.imagick.ImagickThrew? ==>
      ExtendedExif(readers, sanitize) == Ok(map[])
    ensures !(readers.imagickLoaded && readers.fileExists) ==>
      ExtendedExif(readers, sanitize) == ExtendedExif(readers.(imagick := imagick), sanitize)
    ensures !(readers.imagickLoaded && readers.fileExists) && !readers.exifReadDataExists ==>
      ExtendedExif(readers, sanitize) == Ok(map[])
  {
  }

  /** A zero denominator in a coordinate escapes even the Imagick branch's `catch`. */
  lemma ExtendedExifErrors(readers: Readers, sanitize: string -> string)
    ensures var r := ExtendedExif(readers, sanitize);
      r.Err? ==> r.error == DivisionByZeroError || r.error == TypeError
    ensures readers.imagickLoaded && readers.fileExists && readers.imagick.Properties? ==>
      ExtendedExif(readers, sanitize) == Processed(readers.imagick.tags, sanitize, DmsToDecimal)
  {
    var tags := if readers.imagick.Properties? then readers.imagick.tags
                else if readers.native.Some? then readers.native.value else map[];
    ProcessedErrorsAreDivisions(tags, sanitize);
  }

  lemma ProcessedErrorsAreDivisions(tags: Tags, sanitize: string -> string)
    ensures var r := Processed(tags, sanitize, DmsToDecimal);
      r.Err? ==> r.error == DivisionByZeroError
  {
    ProcessedFails(tags, sanitize, DmsToDecimal);
  }

  /**
   * What `add_extended_image_meta` stores for a processed record: nothing
   * when no saved field is present; otherwise the kept fields and their
   * caption, or the error that formatting the shutter speed raised.
   */
  function ExtendedRecord(exif: map<string, ExifValue>, imageMeta: map<string, string>, sanitize: string -> string,
                          floatText: real -> string): (rec: Result<Option<map<string, string>>>)
    ensures var kept := KeptFields(exif, sanitize, floatText, |SavedFields|);
      && (rec == Ok(None) <==> forall k | k in SavedFields :: k !in exif)
      && (rec.Err? <==> kept != map[] && GalleryShutterSegment(imageMeta).Err?)
      && (rec.Ok? && rec.value.Some? ==>
            && rec.value.value.Keys == kept.Keys + {"exif_string"}
            && (forall k | k in kept :: rec.value.value[k] == kept[k])
            && Ok(rec.value.value["exif_string"]) == FormatExifString(kept, imageMeta)
            && rec.value.value["exif_string"] != "")
  {
    var kept := KeptFields(exif, sanitize, floatText, |SavedFields|);
    assert SavedFields[..|SavedFields|] == SavedFields;
    assert "exif_string" !in SavedFields;
    if kept == map[] then Ok(None)
    else
      assert exists k :: k in kept;
      var exifString :- FormatExifString(kept, imageMeta);
      Ok(Some(kept["exif_string" := exifString]))
  }

  /**
   * The per-upload hooks of the gallery plugin over one store. `sanitize`
   * stands for `sanitize_text_field` and `floatText` for PHP's printing of
   * a float.
   */
  class Uploads {
    const site: Site
    const sanitize: string -> string
    const floatText: real -> string

    constructor (site: Site, sanitize: string -> string, floatText: real -> string)
      ensures this.site == site && this.sanitize == sanitize && this.floatText == floatText
    {
      this.site := site;
      this.sanitize := sanitize;
      this.floatText := floatText;
    }

    /**
     * `set_alt_text`: an existing alt text is kept; otherwise a truthy
     * image description (from Cloudinary) becomes the alt text and the
     * attachment's content.
     */
    method SetAltText(id: int, description: string)
      modifies site
      ensures var fill := old(site.MetaIsEmpty(id, AltTextKey)) && Truthy(description);
        var alt := Unslash(sanitize(description));
        && site.meta == (if fill then old(site.meta)[(id, AltTextKey) := MetaValue.Text(alt)] else old(site.meta))
        && site.posts == (if fill && id in old(site.posts)
                          then old(site.posts)[id := old(site.posts)[id].(content := alt)]
                          else old(site.posts))
        && site.writes == old(site.writes)
             + (if fill then [MetaWrite(id, AltTextKey, MetaValue.Text(alt))] else [])
             + (if fill && id in old(site.posts) then [PostWrite(id, Content, alt, SavePostFired(old(site.posts)[id], old(site.saveHooks)))] else [])
      ensures site.saveHooks == old(site.saveHooks)
    {
      if !site.MetaIsEmpty(id, AltTextKey) {
        return;
      }
      if Falsy(description) {
        return;
      }
      site.UpdatePostMeta(id, AltTextKey, MetaValue.Text(sanitize(description)));
      site.UpdatePost(id, Content, sanitize(description));
    }

    /** `set_caption`: an existing caption is kept; otherwise a truthy title becomes the caption. */
    method SetCaption(id: int)
      modifies site
      ensures var fill := Falsy(old(site.Excerpt(id))) && Truthy(old(site.Title(id)));
        var caption := Unslash(sanitize(old(site.Title(id))));
        && site.posts == (if fill then old(site.posts)[id := old(site.posts)[id].(excerpt := caption)]
                          else old(site.posts))
        && site.writes == old(site.writes) + (if fill then [PostWrite(id, Excerpt, caption, SavePostFired(old(site.posts)[id], old(site.saveHooks)))] else [])
      ensures site.meta == old(site.meta) && site.saveHooks == old(site.saveHooks)
    {
      var existing := site.Excerpt(id);
      if !Falsy(existing) {
        return;
      }
      var title := site.Title(id);
      if Falsy(title) {
        return;
      }
      site.UpdatePost(id, Excerpt, sanitize(title));
    }

    /**
     * `set_alt_caption_description`: for an image, the alt-text fill and then
     * the caption fill, with their writes in that order; nothing otherwise.
     * The attachment metadata comes back unchanged.
     */
    method SetAltCaptionDescription(imageMeta: map<string, string>, id: int, description: string)
      returns (r: map<string, string>)
      modifies site
      ensures r == imageMeta
      ensures !IsImage(old(site.MimeType(id))) ==>
        site.meta == old(site.meta) && site.posts == old(site.posts) && site.writes == old(site.writes)
      ensures IsImage(old(site.MimeType(id))) ==>
        var fillAlt := old(site.MetaIsEmpty(id, AltTextKey)) && Truthy(description);
        var fillContent := fillAlt && id in old(site.posts);
        var fillCaption := Falsy(old(site.Excerpt(id))) && Truthy(old(site.Title(id)));
        var alt := Unslash(sanitize(description));
        var caption := Unslash(sanitize(old(site.Title(id))));
        var withContent := if fillContent then old(site.posts)[id := old(site.posts)[id].(content := alt)] else old(site.posts);
        && (fillCaption ==> id in withContent)
        && site.meta == (if fillAlt then old(site.meta)[(id, AltTextKey) := MetaValue.Text(alt)] else old(site.meta))
        && site.posts == (if fillCaption then withContent[id := withContent[id].(excerpt := caption)] else withContent)
        && site.writes == old(site.writes)
             + (if fillAlt then [MetaWrite(id, AltTextKey, MetaValue.Text(alt))] else [])
             + (if fillContent then [PostWrite(id, Content, alt, SavePostFired(old(site.posts)[id], old(site.saveHooks)))] else [])
             + (if fillCaption then [PostWrite(id, Excerpt, caption, SavePostFired(old(site.posts)[id], old(site.saveHooks)))] else [])
      ensures site.saveHooks == old(site.saveHooks)
    {
      if !IsImage(site.MimeType(id)) {
        return imageMeta;
      }
      SetAltText(id, description);
      SetCaption(id);
      return imageMeta;
    }

    /**
     * `add_extended_image_meta`: for an image whose EXIF holds at least one
     * saved field, exactly one write of those fields and their caption;
     * otherwise no write. An error from reading the EXIF or from formatting
     * the shutter speed escapes the hook before anything is written.
     */
    method AddExtendedImageMeta(imageMeta: map<string, string>, id: int, readers: Readers)
      returns (r: Result<map<string, string>>)
      modifies site
      ensures var exif := ExtendedExif(readers, sanitize);
        if !IsImage(old(site.MimeType(id))) then
          r == Ok(imageMeta) && site.meta == old(site.meta) && site.writes == old(site.writes)
        else if exif.Err? then
          r == Err(exif.error) && site.meta == old(site.meta) && site.writes == old(site.writes)
        else
          var rec := ExtendedRecord(exif.value, imageMeta, sanitize, floatText);
          if rec.Err? then
            r == Err(rec.error) && site.meta == old(site.meta) && site.writes == old(site.writes)
          else
            && r == Ok(imageMeta)
            && site.meta == (if rec.value.Some? then old(site.meta)[(id, ExtendedMetaKey) := UnslashMeta(Fields(rec.value.value))]
                             else old(site.meta))
            && site.writes == old(site.writes)
                 + (if rec.value.Some? then [MetaWrite(id, ExtendedMetaKey, UnslashMeta(Fields(rec.value.value)))] else [])
      ensures site.posts == old(site.posts) && site.saveHooks == old(site.saveHooks)
    {
      if !IsImage(site.MimeType(id)) {
        return Ok(imageMeta);
      }
      var exif := ExtendedExif(readers, sanitize);
      if exif.Err? {
        return Err(exif.error);
      }
      var extended := KeepSavedFields(exif.value, sanitize, floatText);
      if extended == map[] {
        return Ok(imageMeta);
      }
      var exifString := FormatExifString(extended, imageMeta);
      if exifString.Err? {
        return Err(exifString.error);
      }
      extended := extended["exif_string" := exifString.value];
      site.UpdatePostMeta(id, ExtendedMetaKey, Fields(extended));
      return Ok(imageMeta);
    }
  }
}
