/** The expression-only parts of `Image_Object`: the MIME whitelist, the
    upload-error classification, the extension rewrite, the thumbnail file
    name, the base name `actionDelete` globs with, and the corner arithmetic
    of `actionOverlay`. */
module ImageNaming {
  import opened PhpStrings

  /** The PHP `UPLOAD_ERR_*` codes that `upload` branches on. */
  const UPLOAD_ERR_INI_SIZE := 1
  const UPLOAD_ERR_FORM_SIZE := 2
  const UPLOAD_ERR_PARTIAL := 3
  const UPLOAD_ERR_NO_FILE := 4

  /** The fields of a `$_FILES` element the image object reads. */
  datatype UploadInfo = UploadInfo(tmpName: string, mimeType: string, error: int)

  /** Supported MIME types and the file extension each one is stored under. */
  const SupportedMimeTypes: map<string, string> := map[
    "image/jpeg" := "jpg",
    "image/jpg" := "jpg",
    "image/pjpeg" := "jpg",
    "image/png" := "png",
    "image/gif" := "gif"
  ]

  /** The three `DomainException`s `upload` can throw. */
  datatype UploadFault = TooLarge | Interrupted | UnsupportedType(mimeType: string)

  /** What `upload` decides before it touches any state: no file was sent,
      the upload is refused, or it is accepted under extension `ext`. */
  datatype Verdict = NoFile | Rejected(fault: UploadFault) | Accepted(ext: string)

  function CheckUpload(info: UploadInfo): (v: Verdict)
    ensures v == NoFile <==> info.error == UPLOAD_ERR_NO_FILE
    ensures v == Rejected(TooLarge) <==> info.error in {UPLOAD_ERR_INI_SIZE, UPLOAD_ERR_FORM_SIZE}
    ensures v == Rejected(Interrupted) <==> info.error == UPLOAD_ERR_PARTIAL
    ensures v.Accepted? <==>
              info.error !in {UPLOAD_ERR_NO_FILE, UPLOAD_ERR_INI_SIZE, UPLOAD_ERR_FORM_SIZE, UPLOAD_ERR_PARTIAL}
              && info.mimeType in SupportedMimeTypes
    ensures v.Accepted? ==> v.ext in {"jpg", "png", "gif"}
    ensures v.Accepted? ==> v.ext == SupportedMimeTypes[info.mimeType]
    ensures v.Rejected? && v.fault.UnsupportedType? ==>
              v.fault.mimeType == info.mimeType && info.mimeType !in SupportedMimeTypes
  {
    if info.error == UPLOAD_ERR_NO_FILE then NoFile
    else if info.error == UPLOAD_ERR_INI_SIZE || info.error == UPLOAD_ERR_FORM_SIZE then Rejected(TooLarge)
    else if info.error == UPLOAD_ERR_PARTIAL then Rejected(Interrupted)
    else if info.mimeType !in SupportedMimeTypes then Rejected(UnsupportedType(info.mimeType))
    else Accepted(SupportedMimeTypes[info.mimeType])
  }

  /** The whitelist is exactly five types, stored as jpg, png or gif. */
  lemma MimeExtensions(mime: string)
    ensures mime in SupportedMimeTypes <==>
              mime in {"image/jpeg", "image/jpg", "image/pjpeg", "image/png", "image/gif"}
    ensures mime in SupportedMimeTypes ==>
              (SupportedMimeTypes[mime] == "jpg" <==> mime in {"image/jpeg", "image/jpg", "image/pjpeg"})
              && (SupportedMimeTypes[mime] == "png" <==> mime == "image/png")
              && (SupportedMimeTypes[mime] == "gif" <==> mime == "image/gif")
  {
  }

  /** Everything before the last dot of a path: the base `actionDelete` globs with. */
  function BaseName(path: string): (r: string)
    requires '.' in path
    ensures |r| < |path| && path[|r|] == '.' && StartsWith(path, r)
    ensures '.' !in path[|r| + 1..]
  {
    path[..LastIndexOf(path, '.').value]
  }

  /** Everything after the last dot of a path. */
  function Extension(path: string): (r: string)
    requires '.' in path
    ensures path == BaseName(path) + "." + r
    ensures '.' !in r
  {
    path[LastIndexOf(path, '.').value + 1..]
  }

  /** The extension rewrite of `upload`: the text after the last dot is
      replaced by `ext`. */
  function RewriteExtension(path: string, ext: string): (r: string)
    requires '.' in path
  {
    var dot := LastIndexOf(path, '.').value;
    path[..dot + 1] + ext
  }

  /** The rewrite keeps everything up to and including the last dot and puts
      `ext` after it; with a dot-free `ext` the result's extension is `ext`,
      and rewriting again changes nothing. */
  lemma RewriteExtensionSetsExtension(path: string, ext: string)
    requires '.' in path && '.' !in ext
    ensures RewriteExtension(path, ext) == BaseName(path) + "." + ext
    ensures var r := RewriteExtension(path, ext);
            '.' in r && BaseName(r) == BaseName(path) && Extension(r) == ext
    ensures RewriteExtension(RewriteExtension(path, ext), ext) == RewriteExtension(path, ext)
  {
    var dot := LastIndexOf(path, '.').value;
    var stem := path[..dot + 1];
    assert stem == BaseName(path) + ".";
    assert '.' in stem by { assert stem[dot] == '.'; }
    assert LastIndexOf(stem, '.') == Some(dot) by { LastIndexOfIs(stem, '.', dot); }
    var r := stem + ext;
    assert r == RewriteExtension(path, ext);
    LastIndexOfAppend(stem, ext, '.');
    assert LastIndexOf(r, '.') == Some(dot);
    assert r[..dot] == path[..dot] && r[..dot + 1] == stem && r[dot + 1..] == ext;
  }

  /** An accepted upload ends up under the whitelist's extension for its
      MIME type: jpg for the three JPEG spellings, png and gif otherwise. */
  lemma AcceptedUploadExtension(path: string, info: UploadInfo)
    requires '.' in path && CheckUpload(info).Accepted?
    ensures var r := RewriteExtension(path, CheckUpload(info).ext);
            '.' in r && BaseName(r) == BaseName(path)
            && Extension(r) == SupportedMimeTypes[info.mimeType]
            && (Extension(r) == "jpg" <==> info.mimeType in {"image/jpeg", "image/jpg", "image/pjpeg"})
            && (Extension(r) == "png" <==> info.mimeType == "image/png")
            && (Extension(r) == "gif" <==> info.mimeType == "image/gif")
  {
    var ext := CheckUpload(info).ext;
    assert '.' !in ext;
    RewriteExtensionSetsExtension(path, ext);
    MimeExtensions(info.mimeType);
  }

  /** `getThumbName`: the path up to its last dot, then `-thumb`, then
      `-name` for a named thumbnail, then `.png`. */
  function ThumbName(path: string, name: Option<string>): (r: string)
    requires '.' in path
    ensures EndsWith(r, ".png")
  {
    var suffix := if name.None? then "" else "-" + name.value;
    path[..LastIndexOf(path, '.').value] + "-thumb" + suffix + ".png"
  }

  /** A thumbnail's name shares the image's base name, is named `.png`
      whatever the image's own extension, and is never the image's own path. */
  lemma ThumbNameShape(path: string, name: Option<string>)
    requires '.' in path
    ensures var t := ThumbName(path, name);
            StartsWith(t, BaseName(path) + "-thumb") && '.' in t
            && BaseName(t) == BaseName(path) + "-thumb" + (if name.None? then "" else "-" + name.value)
            && Extension(t) == "png"
    ensures ThumbName(path, name) != path
  {
    var t := ThumbName(path, name);
    var b := BaseName(path);
    var stem := b + "-thumb" + (if name.None? then "" else "-" + name.value);
    assert t == stem + ".png";
    assert t[|stem|] == '.' && t[|stem| + 1..] == "png";
    LastIndexOfIs(t, '.', |stem|);
    assert t[|b|] == '-' && path[|b|] == '.';
  }

  /** Different thumbnail names never share a file: `getThumbName` is
      injective in its name argument (`null` included). */
  lemma ThumbNameInjective(path: string, a: Option<string>, b: Option<string>)
    requires '.' in path
    requires ThumbName(path, a) == ThumbName(path, b)
    ensures a == b
  {
    var base := BaseName(path) + "-thumb";
    var sa := if a.None? then "" else "-" + a.value;
    var sb := if b.None? then "" else "-" + b.value;
    assert ThumbName(path, a) == base + sa + ".png";
    assert ThumbName(path, b) == base + sb + ".png";
    assert |sa| == |sb|;
    assert sa == (base + sa + ".png")[|base|..|base| + |sa|];
    assert sb == (base + sb + ".png")[|base|..|base| + |sb|];
    if a.Some? && b.Some? {
      assert a.value == sa[1..] && b.value == sb[1..];
    }
  }

  /** One `*` of `glob`: `prefix` followed by any text without a slash. */
  predicate GlobMatch(prefix: string, file: string) {
    StartsWith(file, prefix) && '/' !in file[|prefix|..]
  }

  /** The files `actionDelete` unlinks: those matching `<base>.*` or `<base>-*`. */
  predicate DeletedBy(path: string, file: string)
    requires '.' in path
  {
    GlobMatch(BaseName(path) + ".", file) || GlobMatch(BaseName(path) + "-", file)
  }

  /** `actionDelete` removes the image itself (when no slash follows its last
      dot) and every thumbnail `getThumbName` can name (when the name has no
      slash). */
  lemma DeleteCoversImageAndThumbnails(path: string, name: Option<string>)
    requires '.' in path
    requires '/' !in Extension(path)
    requires name.Some? ==> '/' !in name.value
    ensures DeletedBy(path, path)
    ensures DeletedBy(path, ThumbName(path, name))
  {
    var b := BaseName(path);
    var ext := Extension(path);
    assert path == (b + ".") + ext;
    assert path[|b + "."|..] == ext;
    assert GlobMatch(b + ".", path);
    var t := ThumbName(path, name);
    var rest := "thumb" + (if name.None? then "" else "-" + name.value) + ".png";
    assert t == (b + "-") + rest;
    assert t[|b + "-"|..] == rest;
    assert '/' !in rest;
    assert GlobMatch(b + "-", t);
  }

  /** `upload` rewrites the extension before the queued `delete` runs, yet
      the delete still removes the old image and its thumbnails: the base
      name it globs with is the same before and after the rewrite. */
  lemma RewriteKeepsDeleteTarget(path: string, ext: string, name: Option<string>)
    requires '.' in path && '.' !in ext && '/' !in Extension(path)
    requires name.Some? ==> '/' !in name.value
    ensures '.' in RewriteExtension(path, ext)
    ensures DeletedBy(RewriteExtension(path, ext), path)
    ensures DeletedBy(RewriteExtension(path, ext), ThumbName(path, name))
  {
    RewriteExtensionSetsExtension(path, ext);
    DeleteCoversImageAndThumbnails(path, name);
  }

  /** The four corner anchors of `actionOverlay`. */
  const CORNER_TOP_LEFT := "TL"
  const CORNER_TOP_RIGHT := "TR"
  const CORNER_BOTTOM_RIGHT := "BR"
  const CORNER_BOTTOM_LEFT := "BL"

  /** The origin at which an overlay of `sw` x `sh` pixels is copied onto a
      `dw` x `dh` image. The source `switch` has no default branch, so for
      any other corner the origin is undefined (`None`). Each padding is the
      distance from the edge the corner names. */
  function OverlayOrigin(corner: string, dw: int, dh: int, sw: int, sh: int, padX: int, padY: int)
    : (r: Option<(int, int)>)
    ensures r.Some? <==> corner in {CORNER_TOP_LEFT, CORNER_TOP_RIGHT, CORNER_BOTTOM_LEFT, CORNER_BOTTOM_RIGHT}
    ensures r.Some? && corner[1] == 'L' ==> r.value.0 == padX
    ensures r.Some? && corner[1] == 'R' ==> dw - (r.value.0 + sw) == padX
    ensures r.Some? && corner[0] == 'T' ==> r.value.1 == padY
    ensures r.Some? && corner[0] == 'B' ==> dh - (r.value.1 + sh) == padY
  {
    if corner == CORNER_TOP_LEFT then Some((padX, padY))
    else if corner == CORNER_TOP_RIGHT then Some((dw - sw - padX, padY))
    else if corner == CORNER_BOTTOM_LEFT then Some((padX, dh - sh - padY))
    else if corner == CORNER_BOTTOM_RIGHT then Some((dw - sw - padX, dh - sh - padY))
    else None
  }

  /** With non-negative paddings that leave room for the overlay, the overlay
      lands wholly inside the image, whichever corner is chosen. */
  lemma OverlayInside(corner: string, dw: int, dh: int, sw: int, sh: int, padX: int, padY: int)
    requires corner in {CORNER_TOP_LEFT, CORNER_TOP_RIGHT, CORNER_BOTTOM_LEFT, CORNER_BOTTOM_RIGHT}
    requires 0 <= padX && 0 <= padY && sw + padX <= dw && sh + padY <= dh
    ensures var o := OverlayOrigin(corner, dw, dh, sw, sh, padX, padY).value;
            0 <= o.0 && o.0 + sw <= dw && 0 <= o.1 && o.1 + sh <= dh
  {
  }

  /** A 20 x 10 overlay on a 200 x 100 image with 5-pixel paddings. */
  lemma OverlayExample()
    ensures OverlayOrigin(CORNER_TOP_LEFT, 200, 100, 20, 10, 5, 5) == Some((5, 5))
    ensures OverlayOrigin(CORNER_BOTTOM_RIGHT, 200, 100, 20, 10, 5, 5) == Some((175, 85))
    ensures OverlayOrigin("center", 200, 100, 20, 10, 5, 5) == None
  {
  }
}
