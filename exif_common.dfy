/**
 * What the two photo plugins share: the raw tags an image reader yields,
 * the record `process_exif_data` builds from them, the fields
 * `add_extended_image_meta` keeps, and the " | "-joined caption.
 */
module ExifCommon {
  import opened PhpCore
  import opened PhpStrings

  /** Raw EXIF tags as an image reader returns them; an absent key is a null tag. */
  type Tags = map<string, string>

  /** A processed EXIF field: sanitized text, or decimal degrees computed from a GPS tag. */
  datatype ExifValue = Text(s: string) | Degrees(deg: real)

  /** What the image readers do with one file. */
  datatype ImagickOutcome = Properties(tags: Tags) | ImagickThrew

  datatype Readers = Readers(
    imagickLoaded: bool,          // class_exists( 'Imagick' )
    fileExists: bool,             // file_exists( $file_path )
    imagick: ImagickOutcome,      // new Imagick( $file_path )->getImageProperties( 'exif:*' )
    exifReadDataExists: bool,     // function_exists( 'exif_read_data' )
    native: Option<Tags>)         // exif_read_data( $file_path ); None is `false`

  /** `$array[$key] ?? ''`. */
  function Lookup(m: map<string, string>, key: string): string {
    if key in m then m[key] else ""
  }

  /** A mime type naming an image: `strpos( $mime, 'image/' ) !== false`. */
  function IsImage(mimeType: string): (b: bool)
    ensures b <==> exists j :: OccursAt(mimeType, "image/", j)
    ensures |mimeType| >= 6 && mimeType[..6] == "image/" ==> b
  {
    assert |mimeType| >= 6 && mimeType[..6] == "image/" ==> OccursAt(mimeType, "image/", 0);
    Contains(mimeType, "image/")
  }

  /** The text fields of the processed record and the tags they are copied from. */
  const TextTags: seq<(string, string)> :=
    [("make", "exif:Make"), ("lens", "exif:LensModel"), ("software", "exif:Software")]

  /** The fields `add_extended_image_meta` saves, in order. */
  const SavedFields: seq<string> := ["make", "lens", "software", "latitude", "longitude"]

  /** The first `n` text fields, each present when its tag is. */
  function TextFields(tags: Tags, sanitize: string -> string, n: nat): (r: map<string, ExifValue>)
    requires n <= |TextTags|
    ensures forall k :: k in r <==> exists i | 0 <= i < n :: TextTags[i].0 == k && TextTags[i].1 in tags
    ensures forall i | 0 <= i < n :: TextTags[i].0 in r ==> r[TextTags[i].0] == Text(sanitize(tags[TextTags[i].1]))
  {
    if n == 0 then map[]
    else
      var m := TextFields(tags, sanitize, n - 1);
      var (key, tag) := TextTags[n - 1];
      if tag in tags then m[key := Text(sanitize(tags[tag]))] else m
  }

  /** One GPS field: present when both the value tag and its reference tag are. */
  function WithGps(acc: map<string, ExifValue>, tags: Tags, dms: (string, string) -> Result<real>,
                   key: string, tag: string, refTag: string): Result<map<string, ExifValue>>
  {
    if tag in tags && refTag in tags then
      var x :- dms(tags[tag], tags[refTag]);
      Ok(acc[key := Degrees(x)])
    else Ok(acc)
  }

  /** The record `process_exif_data` returns, converting coordinates with `dms`. */
  function Processed(tags: Tags, sanitize: string -> string, dms: (string, string) -> Result<real>)
    : (r: Result<map<string, ExifValue>>)
    ensures r.Err? ==>
      || ("exif:GPSLatitude" in tags && "exif:GPSLatitudeRef" in tags
          && dms(tags["exif:GPSLatitude"], tags["exif:GPSLatitudeRef"]) == Err(r.error))
      || ("exif:GPSLongitude" in tags && "exif:GPSLongitudeRef" in tags
          && dms(tags["exif:GPSLongitude"], tags["exif:GPSLongitudeRef"]) == Err(r.error))
  {
    var withLatitude :- WithGps(TextFields(tags, sanitize, 3), tags, dms, "latitude", "exif:GPSLatitude", "exif:GPSLatitudeRef");
    WithGps(withLatitude, tags, dms, "longitude", "exif:GPSLongitude", "exif:GPSLongitudeRef")
  }

  /** `process_exif_data`: the `foreach` over the text tags, then the two GPS fields. */
  method ProcessExifData(tags: Tags, sanitize: string -> string, dms: (string, string) -> Result<real>)
    returns (r: Result<map<string, ExifValue>>)
    ensures r == Processed(tags, sanitize, dms)
  {
    var processed: map<string, ExifValue> := map[];
    for i := 0 to |TextTags|
      invariant processed == TextFields(tags, sanitize, i)
    {
      var (key, tag) := TextTags[i];
      if tag in tags {
        processed := processed[key := Text(sanitize(tags[tag]))];
      }
    }
    if "exif:GPSLatitude" in tags && "exif:GPSLatitudeRef" in tags {
      var latitude := dms(tags["exif:GPSLatitude"], tags["exif:GPSLatitudeRef"]);
      if latitude.Err? {
        return Err(latitude.error);
      }
      processed := processed["latitude" := Degrees(latitude.value)];
    }
    if "exif:GPSLongitude" in tags && "exif:GPSLongitudeRef" in tags {
      var longitude := dms(tags["exif:GPSLongitude"], tags["exif:GPSLongitudeRef"]);
      if longitude.Err? {
        return Err(longitude.error);
      }
      processed := processed["longitude" := Degrees(longitude.value)];
    }
    return Ok(processed);
  }

  /** A field is present when its tag is, and then holds the sanitized tag. */
  predicate CopiedWhenPresent(r: map<string, ExifValue>, tags: Tags, sanitize: string -> string, key: string, tag: string) {
    (key in r <==> tag in tags) && (key in r ==> r[key] == Text(sanitize(tags[tag])))
  }

  /** A GPS field is present when both its tags are, and then holds their conversion. */
  predicate ConvertedWhenPresent(r: map<string, ExifValue>, tags: Tags, dms: (string, string) -> Result<real>,
                                 key: string, tag: string, refTag: string) {
    (key in r <==> tag in tags && refTag in tags) &&
    (key in r ==> dms(tags[tag], tags[refTag]).Ok? && r[key] == Degrees(dms(tags[tag], tags[refTag]).value))
  }

  /** The key contract of `process_exif_data`. */
  lemma ProcessedKeys(tags: Tags, sanitize: string -> string, dms: (string, string) -> Result<real>)
    requires Processed(tags, sanitize, dms).Ok?
    ensures var r := Processed(tags, sanitize, dms).value;
      && r.Keys <= {"make", "lens", "software", "latitude", "longitude"}
      && CopiedWhenPresent(r, tags, sanitize, "make", "exif:Make")
      && CopiedWhenPresent(r, tags, sanitize, "lens", "exif:LensModel")
      && CopiedWhenPresent(r, tags, sanitize, "software", "exif:Software")
      && ConvertedWhenPresent(r, tags, dms, "latitude", "exif:GPSLatitude", "exif:GPSLatitudeRef")
      && ConvertedWhenPresent(r, tags, dms, "longitude", "exif:GPSLongitude", "exif:GPSLongitudeRef")
  {
    var t := TextFields(tags, sanitize, 3);
    TextFieldsThree(tags, sanitize);
    var lat := WithGps(t, tags, dms, "latitude", "exif:GPSLatitude", "exif:GPSLatitudeRef");
    assert lat.Ok?;
    WithGpsAdds(t, tags, dms, "latitude", "exif:GPSLatitude", "exif:GPSLatitudeRef");
    var r := Processed(tags, sanitize, dms).value;
    assert r == WithGps(lat.value, tags, dms, "longitude", "exif:GPSLongitude", "exif:GPSLongitudeRef").value;
    WithGpsAdds(lat.value, tags, dms, "longitude", "exif:GPSLongitude", "exif:GPSLongitudeRef");
  }

  /** The three text fields, each copied when its tag is present. */
  lemma TextFieldsThree(tags: Tags, sanitize: string -> string)
    ensures var t := TextFields(tags, sanitize, 3);
      && t.Keys <= {"make", "lens", "software"}
      && CopiedWhenPresent(t, tags, sanitize, "make", "exif:Make")
      && CopiedWhenPresent(t, tags, sanitize, "lens", "exif:LensModel")
      && CopiedWhenPresent(t, tags, sanitize, "software", "exif:Software")
  {
    var t1 := TextFields(tags, sanitize, 1);
    assert t1 == if "exif:Make" in tags then map["make" := Text(sanitize(tags["exif:Make"]))] else map[];
    var t2 := TextFields(tags, sanitize, 2);
    assert t2 == if "exif:LensModel" in tags then t1["lens" := Text(sanitize(tags["exif:LensModel"]))] else t1;
    var t3 := TextFields(tags, sanitize, 3);
    assert t3 == if "exif:Software" in tags then t2["software" := Text(sanitize(tags["exif:Software"]))] else t2;
  }

  /** A GPS step adds its own field, as `ConvertedWhenPresent` says, and leaves the others alone. */
  lemma WithGpsAdds(acc: map<string, ExifValue>, tags: Tags, dms: (string, string) -> Result<real>,
                    key: string, tag: string, refTag: string)
    requires key !in acc
    requires WithGps(acc, tags, dms, key, tag, refTag).Ok?
    ensures var r := WithGps(acc, tags, dms, key, tag, refTag).value;
      && r.Keys <= acc.Keys + {key}
      && (forall k | k != key :: (k in r <==> k in acc) && (k in r ==> r[k] == acc[k]))
      && ConvertedWhenPresent(r, tags, dms, key, tag, refTag)
  {
  }

  /** `process_exif_data` fails exactly when converting a present coordinate fails. */
  lemma ProcessedFails(tags: Tags, sanitize: string -> string, dms: (string, string) -> Result<real>)
    ensures Processed(tags, sanitize, dms).Err? <==>
      || ("exif:GPSLatitude" in tags && "exif:GPSLatitudeRef" in tags
          && dms(tags["exif:GPSLatitude"], tags["exif:GPSLatitudeRef"]).Err?)
      || ("exif:GPSLongitude" in tags && "exif:GPSLongitudeRef" in tags
          && dms(tags["exif:GPSLongitude"], tags["exif:GPSLongitudeRef"]).Err?)
  {
  }

  /** `sanitize_text_field` of a processed field; a coordinate is first printed as PHP prints a float. */
  function FieldText(v: ExifValue, sanitize: string -> string, floatText: real -> string): string {
    match v
    case Text(s) => sanitize(s)
    case Degrees(x) => sanitize(floatText(x))
  }

  /** The first `n` saved fields that the record holds, sanitized. */
  function KeptFields(exif: map<string, ExifValue>, sanitize: string -> string, floatText: real -> string, n: nat)
    : (kept: map<string, string>)
    requires n <= |SavedFields|
    ensures forall k :: k in kept <==> k in exif && k in SavedFields[..n]
    ensures forall k | k in kept :: kept[k] == FieldText(exif[k], sanitize, floatText)
  {
    if n == 0 then map[]
    else
      var m := KeptFields(exif, sanitize, floatText, n - 1);
      var field := SavedFields[n - 1];
      assert SavedFields[..n] == SavedFields[..n - 1] + [field];
      if field in exif then m[field := FieldText(exif[field], sanitize, floatText)] else m
  }

  /** The `foreach` of `add_extended_image_meta` over the saved fields. */
  method KeepSavedFields(exif: map<string, ExifValue>, sanitize: string -> string, floatText: real -> string)
    returns (kept: map<string, string>)
    ensures kept == KeptFields(exif, sanitize, floatText, |SavedFields|)
  {
    kept := map[];
    for i := 0 to |SavedFields|
      invariant kept == KeptFields(exif, sanitize, floatText, i)
    {
      var field := SavedFields[i];
      if field in exif {
        kept := kept[field := FieldText(exif[field], sanitize, floatText)];
      }
    }
  }

  /**
   * The seven caption segments in their fixed order: camera (make, a space,
   * model), lens, focal length, aperture, shutter speed, ISO, software.
   * A falsy focal length, aperture or ISO gives an empty segment.
   */
  function CaptionSegments(ext: map<string, string>, imageMeta: map<string, string>,
                           aperturePrefix: string, shutterSegment: string): (segments: seq<string>)
    ensures |segments| == 7 && Truthy(segments[0])
  {
    var camera := Lookup(ext, "make") + " " + Lookup(imageMeta, "camera");
    assert camera[|Lookup(ext, "make")|] == ' ';
    var focal := Lookup(imageMeta, "focal_length");
    var aperture := Lookup(imageMeta, "aperture");
    var iso := Lookup(imageMeta, "iso");
    [ camera,
      Lookup(ext, "lens"),
      if Truthy(focal) then focal + "mm" else "",
      if Truthy(aperture) then aperturePrefix + aperture else "",
      shutterSegment,
      if Truthy(iso) then "ISO" + iso else "",
      Lookup(ext, "software") ]
  }

  /** The truthy segments joined by " | ": never empty, and led by the first segment. */
  function Caption(segments: seq<string>): (c: string)
    requires |segments| >= 1 && Truthy(segments[0])
    ensures c != ""
    ensures |segments[0]| <= |c| && c[..|segments[0]|] == segments[0]
  {
    var kept := KeepTruthy(segments);
    KeepTruthySpec(segments);
    if |kept| == 1 then kept[0]
    else
      assert Implode(" | ", kept) == kept[0] + (" | " + Implode(" | ", kept[1..]));
      Implode(" | ", kept)
  }

  /** When no segment holds '|', the caption splits back into exactly the truthy segments. */
  lemma CaptionSplits(segments: seq<string>)
    requires |segments| >= 1 && Truthy(segments[0])
    requires forall i | 0 <= i < |segments| :: '|' !in segments[i]
    ensures Explode(" | ", Caption(segments)) == KeepTruthy(segments)
  {
    var kept := KeepTruthy(segments);
    KeepTruthySpec(segments);
    assert Caption(segments) == Implode(" | ", kept);
    assert forall i | 0 <= i < |kept| :: '|' !in kept[i] by {
      forall i | 0 <= i < |kept| ensures '|' !in kept[i] {
        assert kept[i] in segments;
      }
    }
    BarFreeSepFree(kept);
    ExplodeImplode(" | ", kept);
  }

  /** Pieces without '|' cannot hide the separator " | ". */
  lemma BarFreeSepFree(pieces: seq<string>)
    requires forall i | 0 <= i < |pieces| :: '|' !in pieces[i]
    ensures forall i | 0 <= i < |pieces| :: SepFree(" | ", pieces[i])
  {
    forall i | 0 <= i < |pieces| ensures SepFree(" | ", pieces[i]) {
      CharFreeSepFree(" | ", pieces[i], 1);
    }
  }
}
