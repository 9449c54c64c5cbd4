# EXIF metadata and headless links, modelled in Dafny

This project models three WordPress plugins from one site.

- **The photo gallery (grd-photo-gallery).** On upload it does three things. It fills an empty alt text from an image description and an empty caption from the title. It reads extended EXIF tags: camera make, lens, software and GPS coordinates. It stores the kept tags together with a one-line " | "-joined caption. This is the `Formatting` and `Metadata` classes.
- **The ACF blocks plugin (grd-acf-blocks).** It runs the same pipeline with its own differences: its coordinate conversion goes through a fraction library, its caption builder is its own, and one hook fills the alt text and the caption from the image's embedded title.
- **The Next.js plugin (nextjs-wordpress-plugin).** Its `Links` class points WordPress's links at a headless frontend. This covers the preview link, the home URL, the REST permalink and the site URL inside post content. The `save_post` hook is taken off and put back around the content rewrite.

## Module layout

- `PhpCore`: what the PHP language gives the plugins.
  - `Result` and `Option`.
  - The errors PHP raises: `DivisionByZeroError`, `TypeError`, and the fraction library's `InvalidArgumentException`.
  - `empty()` truthiness: `""` and `"0"` are falsy.
- `PhpStrings`: the PHP string functions the plugins call.
  - `explode`/`implode` with their round trips.
  - `array_filter` on falsy strings.
  - `ltrim`/`rtrim` of one character.
  - Case-insensitive `stripos`/`str_ireplace`.
  - `addslashes`/`stripslashes`, as `wp_slash`/`wp_unslash` apply them.
- `PhpNumbers`: numbers as the plugins see them.
  - PHP's `(float)` cast, read as the longest decimal prefix, with exact rationals.
  - Printing a float.
  - `round` half away from zero, to whole numbers and to two decimals.
  - PHP 8's comparison of a non-numeric string with a number, which compares it with the number's text in `strcmp` order, and its reading of such a string as an operand: the leading number, or a `TypeError` when there is none.
- `WordPress`: the store. The class `Site` holds:
  - post meta;
  - the post rows;
  - the set of `save_post` callbacks;
  - a ghost log of every write.

  Each post write records which `save_post` callbacks it fires. An attachment fires none: `wp_insert_post` updates it through its own branch, which fires `edit_attachment` and `attachment_updated` and returns before `save_post`.
- `ExifCommon`: the parts both photo plugins share.
  - `process_exif_data`: a method with its loop, proved against the function `Processed`.
  - The saved-field filter of `add_extended_image_meta`.
  - The seven caption segments and the " | " caption.
- `GalleryFormatting`: `format_shutter_speed`, `dms_to_decimal`, `convert_to_float` and `format_exif_string`.
- `GalleryMetadata`: the gallery's `Metadata` class. The class `Uploads` changes the store in place.
- `BlocksMetadata`: the ACF plugin's `Metadata` class.
- `HeadlessLinks`: the `Links` class.

## Behaviour as the code has it

- **The caption's leading space.** The caption's camera segment is `make . ' ' . camera`. For a record without a make it starts with a space: `" Canon 5D | ISO400"`, not `"Canon 5D | ISO400"` (lemma `GalleryFormatting.CaptionExample`).
- **A zero denominator.** A coordinate component `"n/0"` is a division by zero. PHP 8 raises `DivisionByZeroError` for it, which is an `Error`, not an `Exception`. So it is not "0 or INF": it escapes even the gallery's `catch ( Exception )` around Imagick.
- **Aperture literal.** The gallery's aperture prefix is the byte sequence of "ƒ/" read as Windows-1252, "Æ’/". It is modelled exactly as written. The ACF plugin uses "ƒ/".
- **Backslashes in stored text.** `update_post_meta` and `wp_update_post` unslash what they are given before storing it. The photo plugins pass sanitized text without slashing it first, so a backslash in a description or title is dropped (or, before '0', turns into NUL) in the stored alt text, content and caption. The Next.js plugin slashes its rewritten content first, and that content is stored unchanged (lemma `PhpStrings.UnslashSlash`).
- **A shutter speed that already holds '/'.** `format_shutter_speed` does not return such a value as it is, whatever its last comment says. The value is a non-numeric string, so PHP 8 compares it with 1 and 0 as strings, and then divides or rounds its leading number. "1/250" gives "1", "0/1" raises `DivisionByZeroError` and "abc/1" raises `TypeError` (lemma `GalleryFormatting.ShutterFractionExamples`). Nothing catches the error, so the gallery's `add_extended_image_meta` stops before its write.
- **Attachments and `save_post`.** Every post write of the photo plugins updates an attachment. It fires `edit_attachment` and `attachment_updated`, not `save_post`, so the Next.js plugin's `override_post_links` does not run on it.
- **`false` from the native reader.** When the native reader returns `false`, the two plugins react differently:
  - the gallery's `process_exif_data` takes an `array` parameter, so it fails with a `TypeError`;
  - the ACF plugin's is untyped, so it yields the empty record.

## Model

| member | source | states |
|---|---|---|
| GalleryFormatting.FormatShutterSpeed | plugins/grd-photo-gallery/src/classes/Formatting.php:72-99 | an empty input (`""` or `"0"`) gives `""`; only a value holding '/' can fail, and only with `DivisionByZeroError` or `TypeError` |
| GalleryFormatting.ShutterFraction | plugins/grd-photo-gallery/src/classes/Formatting.php:79-98 | a value holding '/' goes by its first character: after '0' it is inverted, a `DivisionByZeroError` when it reads as 0; after another digit it is rounded to hundredths as its leading number; after a character above '9' it is a `TypeError`; below '0' it comes back unchanged |
| GalleryFormatting.ShutterFractionExamples | plugins/grd-photo-gallery/src/classes/Formatting.php:72-99 | "0/1" raises `DivisionByZeroError`, "abc/1" raises `TypeError`, "1/250" gives "1" |
| GalleryFormatting.ShutterBelowOneSecond | plugins/grd-photo-gallery/src/classes/Formatting.php:80-92 | for 0 < v < 1, the result is "1/N", where N is a whole number of at least 1 within half of 1/v |
| GalleryFormatting.InverseText | plugins/grd-photo-gallery/src/classes/Formatting.php:87-92 | "1/" followed by round(1/v) reads back as a whole number within half of 1/v, for 0 < v < 1 |
| GalleryFormatting.InverseAboveOne | plugins/grd-photo-gallery/src/classes/Formatting.php:87-90 | for 0 < v < 1, 1/v exceeds 1 and rounds to at least 1 |
| GalleryFormatting.ShutterFromOneSecond | plugins/grd-photo-gallery/src/classes/Formatting.php:93-94 | for v ≥ 1, the printed result is `round(v, 2)`: truthy, a whole number of hundredths of at least 1, and the nearest such number to v, a half going up (v - 0.005 < result ≤ v + 0.005) |
| GalleryFormatting.ShutterNotPositive | plugins/grd-photo-gallery/src/classes/Formatting.php:85-98 | for v ≤ 0 neither branch fires, and the result reads back as v itself |
| GalleryFormatting.ShutterExamples | plugins/grd-photo-gallery/src/classes/Formatting.php:72-99 | "0.004" gives "1/250", "2" gives "2", "0" gives "" |
| GalleryFormatting.ShutterQuarterMillisecond | plugins/grd-photo-gallery/src/classes/Formatting.php:85-92 | "0.004" gives "1/250" |
| GalleryFormatting.ShutterTwoSeconds | plugins/grd-photo-gallery/src/classes/Formatting.php:93-94 | "2" gives "2" |
| GalleryFormatting.ConvertToFloat | plugins/grd-photo-gallery/src/classes/Formatting.php:138-155 | the only error is a division by zero |
| GalleryFormatting.ConvertPlain | plugins/grd-photo-gallery/src/classes/Formatting.php:141-154 | without a '/', the empty guard and the fallback both agree with `(float)` |
| GalleryFormatting.ConvertFraction | plugins/grd-photo-gallery/src/classes/Formatting.php:146-150 | "n/d" gives n ÷ d, and a division-by-zero error exactly when d reads as 0 |
| GalleryFormatting.WholeFraction | plugins/grd-photo-gallery/src/classes/Formatting.php:146-150 | "n/1" reads as the whole number n |
| GalleryFormatting.DmsToDecimal | plugins/grd-photo-gallery/src/classes/Formatting.php:109-114 | an empty DMS string or an empty hemisphere gives exactly 0 |
| GalleryFormatting.DmsHemisphere | plugins/grd-photo-gallery/src/classes/Formatting.php:125-128 | "S" and "W" negate the "N" value; any other truthy hemisphere, lower case included, equals "N" |
| GalleryFormatting.DmsOfThree | plugins/grd-photo-gallery/src/classes/Formatting.php:117-128 | three comma-free components reading as d, m, s give (d + m/60 + s/3600), flipped for "W"/"S" |
| GalleryFormatting.DmsMissingPartsAreZero | plugins/grd-photo-gallery/src/classes/Formatting.php:119-122 | missing minutes or seconds count as "0" |
| GalleryFormatting.DmsExtraPartsIgnored | plugins/grd-photo-gallery/src/classes/Formatting.php:117-122 | components after the third do not change the result |
| GalleryFormatting.SplitsIntoComponents | plugins/grd-photo-gallery/src/classes/Formatting.php:117 | comma-free components joined by ", " split back into the same components |
| GalleryFormatting.DmsOfSplit | plugins/grd-photo-gallery/src/classes/Formatting.php:112-128 | a truthy DMS string's value is the flipped magnitude of its ", " parts, or 0 for an empty hemisphere |
| GalleryFormatting.FormatExifString | plugins/grd-photo-gallery/src/classes/Formatting.php:35-61 | it fails exactly when formatting the shutter speed fails; otherwise the caption is never empty and always starts with the camera segment `make + " " + camera` |
| GalleryFormatting.GalleryShutterSegment | plugins/grd-photo-gallery/src/classes/Formatting.php:44-54 | a falsy raw shutter speed gives no segment; an error is the one formatting the speed raised; a segment is always the formatted speed followed by "s" |
| GalleryFormatting.ShutterSegmentPresent | plugins/grd-photo-gallery/src/classes/Formatting.php:44-54 | a positive shutter speed without '/' always gives its segment |
| GalleryFormatting.CaptionExample | plugins/grd-photo-gallery/src/classes/Formatting.php:38-60 | a camera model and an ISO value alone give " Canon 5D \| ISO400" |
| ExifCommon.CaptionSegments | plugins/grd-photo-gallery/src/classes/Formatting.php:48-58 | seven segments in the fixed order, and the camera segment is always truthy |
| ExifCommon.Caption | plugins/grd-photo-gallery/src/classes/Formatting.php:48-60 | joining the truthy segments with " \| " gives a non-empty string that starts with the first segment |
| ExifCommon.CaptionSplits | plugins/grd-photo-gallery/src/classes/Formatting.php:48-60 | when no segment holds '\|', splitting the caption on " \| " gives back exactly the truthy segments, in order |
| ExifCommon.TextFields | plugins/grd-photo-gallery/src/classes/Metadata.php:236-247 | a text field is present exactly when its tag is, and then holds the sanitized tag |
| ExifCommon.ProcessExifData | plugins/grd-photo-gallery/src/classes/Metadata.php:234-258 | the loop and the two GPS checks compute the record `Processed` |
| ExifCommon.Processed | plugins/grd-photo-gallery/src/classes/Metadata.php:234-258 | a failure is the failure of converting a present coordinate, latitude or longitude |
| ExifCommon.ProcessedKeys | plugins/grd-photo-gallery/src/classes/Metadata.php:234-258 | the keys lie within the five fields; make, lens and software are present exactly when their tags are; each coordinate is present exactly when both its tag and its reference are, and then holds their conversion |
| ExifCommon.ProcessedFails | plugins/grd-photo-gallery/src/classes/Metadata.php:249-255 | processing fails exactly when converting a present coordinate fails |
| ExifCommon.KeptFields | plugins/grd-photo-gallery/src/classes/Metadata.php:164-175 | a field is kept exactly when it is one of the five saved fields and present, and holds the sanitized value |
| ExifCommon.KeepSavedFields | plugins/grd-photo-gallery/src/classes/Metadata.php:164-175 | the loop computes `KeptFields` over all five saved fields |
| ExifCommon.IsImage | plugins/grd-photo-gallery/src/classes/Metadata.php:267-269 | an image exactly when "image/" occurs somewhere in the mime type, in particular when it starts with it |
| GalleryMetadata.BackendChoice | plugins/grd-photo-gallery/src/classes/Metadata.php:203-225 | when Imagick is usable, the native reader is never consulted, and an Imagick failure gives the empty record; without Imagick, Imagick's outcome is irrelevant, and without either reader the record is empty |
| GalleryMetadata.ExtendedExif | plugins/grd-photo-gallery/src/classes/Metadata.php:203-225 | a TypeError exactly when Imagick is unusable, `exif_read_data` exists and returns false |
| GalleryMetadata.ExtendedExifErrors | plugins/grd-photo-gallery/src/classes/Metadata.php:203-225 | the only errors escaping the reader are a division by zero (a coordinate) and a TypeError (`exif_read_data` returning false) |
| GalleryMetadata.ProcessedErrorsAreDivisions | plugins/grd-photo-gallery/src/classes/Metadata.php:250-255 | processing with the gallery's conversion can fail only with a division by zero |
| GalleryMetadata.ExtendedRecord | plugins/grd-photo-gallery/src/classes/Metadata.php:164-189 | nothing is stored exactly when no saved field is present; it fails exactly when there are fields and formatting the shutter speed fails; otherwise the kept fields are stored plus an `exif_string` that equals `format_exif_string` of them and is non-empty |
| WordPress.Site.UpdatePostMeta | plugins/grd-photo-gallery/src/classes/Metadata.php:102 | the meta entry becomes the unslashed value, one write is logged, posts and hooks are untouched |
| WordPress.Site.UpdatePost | plugins/grd-photo-gallery/src/classes/Metadata.php:104-109 | a known post gets the unslashed value in the one column, logged with the `save_post` callbacks it fires, none for an attachment; an unknown ID changes nothing |
| GalleryMetadata.Uploads.SetAltText | plugins/grd-photo-gallery/src/classes/Metadata.php:78-110 | an existing alt text is never overwritten; an empty description writes nothing; otherwise exactly the alt-text write and the content write, of the unslashed sanitized description |
| GalleryMetadata.Uploads.SetCaption | plugins/grd-photo-gallery/src/classes/Metadata.php:119-144 | an existing caption is never overwritten; an empty title writes nothing; otherwise one excerpt write of the sanitized title |
| GalleryMetadata.Uploads.SetAltCaptionDescription | plugins/grd-photo-gallery/src/classes/Metadata.php:55-69 | the metadata comes back unchanged; a non-image is never written; for an image, the whole new store: the alt-text fill (meta and content) and then the caption fill, each only when empty, with exactly their writes in that order |
| GalleryMetadata.Uploads.AddExtendedImageMeta | plugins/grd-photo-gallery/src/classes/Metadata.php:154-192 | the metadata comes back unchanged, or the EXIF reader's or the shutter formatting's error escapes with nothing written; a non-image gets no write; a record without saved fields gets no write; otherwise exactly one write of `ExtendedRecord` under `extended_image_meta`; posts and hooks are untouched |
| BlocksMetadata.DmsValue | plugins/grd-acf-blocks/src/classes/Metadata.php:325-334 | with no empty guard, components reading as the given numbers give d + m/60 + s/3600, where missing parts count as 0 and extra parts are ignored, negated exactly for "W"/"S" |
| BlocksMetadata.DmsFails | plugins/grd-acf-blocks/src/classes/Metadata.php:325-334 | the conversion fails exactly when the fraction library refuses one of the first three components |
| BlocksMetadata.DmsToDecimal | plugins/grd-acf-blocks/src/classes/Metadata.php:325-334 | a failed conversion's error is one the fraction library raised |
| BlocksMetadata.DmsAgreesWithGallery | plugins/grd-acf-blocks/src/classes/Metadata.php:325-334 | with the same component reading, both plugins agree on every truthy coordinate and hemisphere; only the gallery has the 0 guard |
| BlocksMetadata.ShutterSegment | plugins/grd-acf-blocks/src/classes/Metadata.php:239 | a falsy raw shutter speed gives no segment; a truthy one gives the fraction's text plus "s" |
| BlocksMetadata.ExifString | plugins/grd-acf-blocks/src/classes/Metadata.php:230-256 | it fails exactly when the shutter fraction fails; otherwise it is non-empty and starts with the camera segment |
| BlocksMetadata.ExifStringMatchesGallery | plugins/grd-acf-blocks/src/classes/Metadata.php:242-255 | without an aperture or a shutter speed, the two plugins build the same caption |
| BlocksMetadata.ImagickSwallowsFractionErrors | plugins/grd-acf-blocks/src/classes/Metadata.php:264-283 | with Imagick usable, a refused fraction gives the empty record rather than an error |
| BlocksMetadata.ExtendedExif | plugins/grd-acf-blocks/src/classes/Metadata.php:264-283 | an exception escapes only from the native reader's branch; under Imagick the catch takes it |
| BlocksMetadata.ExtendedRecord | plugins/grd-acf-blocks/src/classes/Metadata.php:190-212 | nothing is stored exactly when no saved field is present; it fails exactly when there are fields and the shutter fraction fails; otherwise the kept fields plus their caption |
| BlocksMetadata.Uploads.TitleToAltAndCaption | plugins/grd-acf-blocks/src/classes/Metadata.php:139-171 | the metadata comes back unchanged; a non-image or an empty title writes nothing; otherwise the alt text and the caption each become the sanitized title only when empty |
| BlocksMetadata.Uploads.AddExtendedImageMeta | plugins/grd-acf-blocks/src/classes/Metadata.php:180-218 | the metadata comes back unchanged, or the reader's or the caption's error escapes with nothing written; without saved fields there is no write; otherwise exactly one write of the kept fields plus `exif_string` |
| HeadlessLinks.FrontendUrl | plugins/nextjs-wordpress-plugin/src/classes/Links.php:44 | null exactly when the constant is undefined; otherwise the constant with only trailing '/' removed and none left at the end |
| HeadlessLinks.Links.constructor | plugins/nextjs-wordpress-plugin/src/classes/Links.php:41-62 | stores the trimmed frontend URL and the secret, and hooks `override_post_links` to `save_post` |
| HeadlessLinks.Links.GetFrontendUrl | plugins/nextjs-wordpress-plugin/src/classes/Links.php:189-194 | the same URL as the one stored by the constructor, with no trailing '/'; null exactly when undefined |
| HeadlessLinks.Links.PreviewLink | plugins/nextjs-wordpress-plugin/src/classes/Links.php:73-84 | the original link when the frontend URL or the secret is missing or falsy; otherwise the frontend's preview route for the post, with the secret as a query argument |
| HeadlessLinks.PreviewRoute | plugins/nextjs-wordpress-plugin/src/classes/Links.php:82 | the route is the frontend followed by "/preview/" and digits that read back as the post ID |
| HeadlessLinks.JoinPath | plugins/nextjs-wordpress-plugin/src/classes/Links.php:121 | a falsy path gives the base alone; otherwise the base, one '/', and the path without its leading slashes |
| HeadlessLinks.OneSlashAtJoin | plugins/nextjs-wordpress-plugin/src/classes/Links.php:121 | joined to a trimmed frontend URL, there is exactly one '/' at the join |
| HeadlessLinks.Links.HomeUrlAsWritten | plugins/nextjs-wordpress-plugin/src/classes/Links.php:94-122 | the URL is unchanged for the "rest" scheme, for any screen offering `is_block_editor`, outside the admin, and without a frontend URL; otherwise it is the frontend URL alone for a falsy path, or the frontend URL, "/" and the path without its leading slashes |
| HeadlessLinks.Links.HomeUrl | plugins/nextjs-wordpress-plugin/src/classes/Links.php:94-122 | as intended: the URL is unchanged for "rest", in the block editor, outside the admin, or without a frontend URL; otherwise it is the frontend URL alone for a falsy path, or the frontend URL, "/" and the path without its leading slashes, with exactly one '/' at the join |
| HeadlessLinks.Links.HomeUrlScreenCheck | plugins/nextjs-wordpress-plugin/src/classes/Links.php:103 | on an admin screen that is not the block editor, the written check keeps the WordPress URL, while the intended one gives the frontend URL |
| HeadlessLinks.Links.SetHeadlessRestPreviewLink | plugins/nextjs-wordpress-plugin/src/classes/Links.php:131-148 | a draft's link becomes its preview link; a published permalink mentioning the site URL gets it replaced by the frontend URL, or by "" when that is undefined; otherwise the response is unchanged |
| HeadlessLinks.Links.FrontendOrEmpty | plugins/nextjs-wordpress-plugin/src/classes/Links.php:141 | the trimmed frontend URL, or "" when the constant is undefined (PHP's null as a replacement string) |
| HeadlessLinks.SiteLinkMovesToFrontend | plugins/nextjs-wordpress-plugin/src/classes/Links.php:138-143 | a link made of the site URL and a rest that does not mention it is found, and moves to the frontend URL with the same rest |
| HeadlessLinks.Links.OverridePostLinks | plugins/nextjs-wordpress-plugin/src/classes/Links.php:155-182 | the hook is removed first; a missing post returns with the hook still removed; content mentioning the site URL is rewritten by one post write, which fires the `save_post` callbacks without this one (none for an attachment); the hook is then re-added; nothing else changes |
| PhpNumbers.RoundHalfAway | plugins/grd-photo-gallery/src/classes/Formatting.php:90 | `round`: the nearest whole number, with halves going away from zero |
| PhpNumbers.RoundCents | plugins/grd-photo-gallery/src/classes/Formatting.php:94 | `round( $x, 2 )`: a whole number of hundredths within half a hundredth of x, with the half going away from zero, so exactly one candidate qualifies; at least 1 when x is |
| PhpNumbers.DecimalTextRoundTrip | plugins/grd-photo-gallery/src/classes/Formatting.php:94 | a printed number reads back by `(float)` as the same number |
| PhpStrings.ExplodeImplode | plugins/grd-photo-gallery/src/classes/Formatting.php:117 | parts free of the separator, joined and split again, come back unchanged |
| PhpStrings.ImplodeExplode | plugins/grd-photo-gallery/src/classes/Formatting.php:117 | splitting and joining again gives the original string |
| PhpStrings.KeepTruthySpec | plugins/grd-photo-gallery/src/classes/Formatting.php:48-58 | every kept segment is truthy and came from the input, every truthy one is kept, all are kept when all are truthy, a leading truthy segment stays first, and a single segment is kept exactly when truthy |
| PhpStrings.KeepTruthyAppend | plugins/grd-photo-gallery/src/classes/Formatting.php:48-58 | filtering a concatenation filters each part in turn, so with the single-segment case the kept segments keep their order and their repetitions |
| PhpStrings.RTrim | plugins/nextjs-wordpress-plugin/src/classes/Links.php:44 | removes only trailing copies of the character, and leaves none at the end |
| PhpStrings.LTrim | plugins/nextjs-wordpress-plugin/src/classes/Links.php:121 | removes only leading copies of the character, and leaves none at the start |
| PhpStrings.IReplace | plugins/nextjs-wordpress-plugin/src/classes/Links.php:139-143 | a string that does not mention the search string comes back unchanged |
| PhpStrings.IReplaceAll | plugins/nextjs-wordpress-plugin/src/classes/Links.php:166-170 | every case-insensitive occurrence is replaced: pieces joined by a case variant of the search string come out joined by the replacement, when no piece holds the search string's first character in either case |
| PhpStrings.UnslashSlash | plugins/nextjs-wordpress-plugin/src/classes/Links.php:176 | `wp_unslash` undoes `wp_slash`, so the slashed content reaches the post unchanged |

## Left out

- IEEE-754 doubles. Arithmetic is exact over `real`, and floats are printed as plain decimals. Rounding error, `-0`, `INF`/`NAN` and E-notation output are not modelled.
- The `(float)` cast reads the longest decimal prefix. It does not skip leading whitespace, and it does not read hexadecimal or exponent-only forms.
- phospr/fraction is not part of this model. `Fraction::fromString(...)->toFloat()` and `Fraction::fromFloat` printed as text are the oracle parameters `fraction` and `fractionText`, whose errors count as exceptions.
- Cloudinary is an HTTP client and is not part of this model. The image description it returns is the parameter `description` of `SetAltText`.
- Other foreign calls are parameters:
  - `sanitize_text_field` is `sanitize`;
  - PHP's printing of a float stored in post meta is `floatText`;
  - `esc_url_raw` and `add_query_arg` are `escUrlRaw` and `addQueryArg`;
  - Imagick and `exif_read_data` are the `Readers` value, which says whether each reader exists and what it returns.
- EXIF tags whose value is an array are not modelled: tags are strings. PHP array key order is not modelled: records are maps, and the caption's fixed order is modelled separately as a sequence.
- `save_post` callbacks are recorded on each post write, not run. The `edit_attachment` and `attachment_updated` actions an attachment update fires instead are not recorded. Re-entrant hooks, other plugins' filters and the filter priority arguments are left out.
- The registration of the four filters in `hooks()` is not state in this model. Each filter is modelled as the method or function it calls.
- `get_preview_post_link` is given as the link it would return before this plugin's filter. Other `preview_post_link` filters are left out.
- WordPress.Site.UpdatePostMeta: the meta key is not unslashed as `update_metadata` does; the plugins' keys hold no backslash.
- WordPress.Site.UpdatePost: the `db` filters of `sanitize_post` (such as `kses` for users without `unfiltered_html`) are not applied; the stored column is the unslashed value.
- The ACF plugin's meta box (`custom_metabox`, `render_custom_metabox`) renders HTML and is not part of this model.
- GalleryFormatting.DmsOfThree: it states the coordinate's value for components that convert without error. It does not evaluate a literal coordinate string such as "40/1, 26/1, 46/1" end to end.

## Findings

| source | as written | input that shows it | evidently intended | confidence | as-written member | corrected member |
|---|---|---|---|---|---|---|
| plugins/nextjs-wordpress-plugin/src/classes/Links.php:103 | `method_exists( $current_screen, 'is_block_editor' )` is true for every `WP_Screen`, because the class defines that method. So once the admin screen is set, the home URL is never rewritten. | In the admin, the scheme is null, `$current_screen` is the screen of a non-editor page such as the posts list, the frontend URL is defined, and the path is "about". | `$current_screen->is_block_editor()`: only the block editor keeps the WordPress URL (the comment at line 102 says so). | medium, not executed | HeadlessLinks.Links.HomeUrlAsWritten, HeadlessLinks.Links.HomeUrlScreenCheck | HeadlessLinks.Links.HomeUrl |
