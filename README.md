# Image_Object: the deferred action queue of the Eresus image module

This project models `Image_Object`, the object behind one image file of the
Eresus CMS image module, and the `Image_Thumbnail` descriptor it hands out.
Callers record intents on the object (upload, resize, thumbnail, overlay,
delete). Each intent becomes an `{action, args}` entry at the tail of
`actionQueue`. Nothing reaches the disk until `save()` replays the entries in
insertion order. It then writes the lazily created PhpThumb raster handle to
the current path once.

Files and modules:

- `php_strings.dfy`, module `PhpStrings`: the PHP primitives the object uses.
  These are `strrpos` (`LastIndexOf`), `substr` with a start past the end
  (`Substr`), and PHP truthiness of a string-or-null (`Falsy`: `null`, `""`
  and `"0"`).
- `image_naming.dfy`, module `ImageNaming`: the expression-only parts of
  `Image_Object`. These are the MIME whitelist, the upload-error
  classification, the extension rewrite, `getThumbName`, the base name and
  globs of `actionDelete`, and the corner arithmetic of `actionOverlay`.
- `image_thumbnail.dfy`, module `ImageThumbnail`: `Image_Thumbnail` as an
  immutable datatype. It includes the URL formula (filesystem root cut off by
  length, URL root put in front).
- `image_actions.dfy`, module `ImageActions`: the queue entries (`Action`)
  and what replaying them does.
  - `Step` is one handler. `Drain` is the `foreach`. `SaveSpec` is `save()`.
  - The filesystem the handlers see is a `Disk` value: existing files with
    their image size, plus genuine uploaded temp files.
  - The backend's resize policy is the parameter `fit`.
  - The file operations (`unlink`, `move_uploaded_file`), every opening of
    a file by the backend, the resize, the thumbnail write, the overlay copy
    and the final write-back are recorded, in order, as an `Effect`. That is
    how order and the single final flush are stated.
- `image_object.dfy`, module `ImageObject`: the class `ImageObject`. Its
  fields are `path`, `fileExists` (the source's `exists`, which is a Dafny
  keyword), `actionQueue`, `handle` (the PhpThumb object, represented by its
  current size) and `thumbs`. Its methods are the source's public methods
  and private handlers. Each state-changing method states the whole new
  state. `Save`, `Dispatch` and the `Action*` handlers are proved against the
  `ImageActions` functions.

Behaviour worth knowing, proved as lemmas:

- `actionDelete` reads `path` when it runs, which is after `upload` has
  rewritten the extension. It still removes the old file and its thumbnails,
  because the base name is unchanged (`RewriteKeepsDeleteTarget`).
- `save()` never clears the queue. A handle kept from an earlier `save()` is
  written back after `delete()` has unlinked the file, so the image file
  reappears (`DeleteSave`).
- PHP turns a `null` array key into `""`. So `thumb(null)` and `thumb("")`
  share one cache slot, and whichever is asked first decides the descriptor
  (`NullAndEmptyNameShareSlot`).
- `Image_Thumbnail`'s constructor assigns `$this->$path`: a property whose
  name is the path. So the declared `path` property stays `null` for every
  real file name (`DescriptorPathIsNull`).

Other points of the source the model keeps:

- `save()` iterates over the queue with `foreach` and leaves the queue
  intact, so a second `save()` replays the same entries.
- The overlay corner `switch` has no default branch, so an unknown corner
  raises nothing there. The model stops the replay with the fault
  `UndefinedOrigin` (see "Left out").
- `save()` does nothing for the path `"0"`, because PHP reads `"0"` as
  false.
- `Image_Object` has no move action, no metadata cache and no width or
  height accessors.
- `isChanged()` is called by the unit test but does not appear in
  `Image_Object`. It is modelled from the test as "the queue is non-empty".

## Model

| member | source | states |
|---|---|---|
| `PhpStrings.LastIndexOf` | src/image/classes/Object.php:210 | `strrpos`: `None` exactly when the character is absent; otherwise an index holding it with no later occurrence |
| `ImageNaming.CheckUpload` | src/image/classes/Object.php:177-201 | no file exactly for `UPLOAD_ERR_NO_FILE`; "too large" exactly for INI/FORM size; "interrupted" exactly for PARTIAL; accepted exactly when the code is none of those four and the type is whitelisted, with the whitelist's extension for that MIME type; otherwise the unsupported type is reported |
| `ImageNaming.MimeExtensions` | src/image/classes/Object.php:61-67 | the whitelist holds exactly five types; jpeg, jpg and pjpeg map to jpg, png to png, gif to gif |
| `ImageNaming.BaseName` | src/image/classes/Object.php:402 | the base is a proper prefix of the path ending just before its last dot |
| `ImageNaming.Extension` | src/image/classes/Object.php:210 | the path is base, dot, extension, and the extension has no dot |
| `ImageNaming.RewriteExtensionSetsExtension` | src/image/classes/Object.php:208-210 | the rewrite keeps everything up to and including the last dot and makes any dot-free `ext` the new extension; rewriting twice equals rewriting once |
| `ImageNaming.AcceptedUploadExtension` | src/image/classes/Object.php:196-210 | after an accepted upload the path keeps its base name and its extension is the whitelist's for the MIME type: jpg exactly for the three JPEG types, png for PNG, gif for GIF |
| `ImageNaming.ThumbName` | src/image/classes/Object.php:384-390 | a thumbnail file name always ends in `.png` |
| `ImageNaming.ThumbNameShape` | src/image/classes/Object.php:384-390 | the thumbnail name is the base, `-thumb`, `-name` if a name is given, and extension `png`; it never equals the image's path |
| `ImageNaming.ThumbNameInjective` | src/image/classes/Object.php:384-390 | different names (`null` included) give different thumbnail files |
| `ImageNaming.DeleteCoversImageAndThumbnails` | src/image/classes/Object.php:400-404 | the globs `<base>.*` and `<base>-*` match the image and every thumbnail name (when no slash intervenes) |
| `ImageNaming.RewriteKeepsDeleteTarget` | src/image/classes/Object.php:203-212 | after the upload's extension rewrite, the queued delete still matches the old image and its thumbnails |
| `ImageNaming.OverlayOrigin` | src/image/classes/Object.php:530-548 | defined exactly for TL, TR, BL, BR; each padding is the distance from the edge the corner names |
| `ImageNaming.OverlayInside` | src/image/classes/Object.php:530-549 | with non-negative paddings that leave room, the copied overlay lies inside the image for every corner |
| `ImageNaming.OverlayExample` | src/image/classes/Object.php:530-548 | on 200x100 with a 20x10 overlay and padding 5: TL gives (5,5), BR gives (175,85), an unknown corner gives no origin |
| `ImageThumbnail.UrlOfShortPath` | src/image/classes/Thumbnail.php:63 | a path no longer than the filesystem root gives just the URL root |
| `ImageThumbnail.UrlOfUnderRoot` | src/image/classes/Thumbnail.php:63 | for a path under the filesystem root, the URL is the URL root plus the rest of the path, and it keeps the path's file-name suffix |
| `ImageThumbnail.NewThumbnail` | src/image/classes/Thumbnail.php:60-64 | `url` is the URL formula; the declared `path` is set only for the path "path"; otherwise the path lands in a dynamic property of the same name |
| `ImageThumbnail.DescriptorPathIsNull` | src/image/classes/Thumbnail.php:62 | for any file name with a dot, the declared `path` stays null and the dynamic property exists |
| `ImageActions.EveryActionHasHandler` | src/image/classes/Object.php:299-306 | every queued action names an existing handler, so the LogicException branch is unreachable |
| `ImageActions.GetRaster` | src/image/classes/Object.php:361-372 | an existing handle is reused with no effect; otherwise it is loaded once from the path, or the load fails when the file is missing |
| `ImageActions.DeletedFiles` | src/image/classes/Object.php:402-404 | the removed files are exactly the existing files matching the two globs |
| `ImageActions.ThenStep` | src/image/classes/Object.php:299-307 | continuing a replay runs the next entry, then the rest, and stops at a fault |
| `ImageActions.DrainNeverFlushes` | src/image/classes/Object.php:299-307 | no handler writes the main raster to the image path |
| `ImageActions.DrainKeepsHandle` | src/image/classes/Object.php:367-370 | a raster handle, once created, survives the rest of the replay |
| `ImageActions.SaveWithoutPathIsNoop` | src/image/classes/Object.php:295-298 | with a null, empty or "0" path, save has no effect and changes nothing |
| `ImageActions.SaveFlushesOnce` | src/image/classes/Object.php:299-311 | after a replay that ran through, the raster is written to the current path exactly once, as the last effect, iff a handle exists; a faulted replay writes nothing |
| `ImageActions.SaveFlushesExistingHandle` | src/image/classes/Object.php:308-311 | a handle left from an earlier save is written back whatever the queue holds |
| `ImageActions.DrainAppend` | src/image/classes/Object.php:299-307 | replaying q1+q2 is replaying q1 and then q2: strict queue order, each entry seeing its predecessors' state |
| `ImageActions.DrainSingle` | src/image/classes/Object.php:306 | a one-entry queue is that entry's handler |
| `ImageActions.MissingOverlayIsSkipped` | src/image/classes/Object.php:515-518 | an overlay of a missing file changes nothing and raises nothing |
| `ImageActions.OverlayPlacement` | src/image/classes/Object.php:520-550 | an existing overlay file is opened, then composited at the corner's origin, computed from the handle's current size |
| `ImageActions.DeleteThenUpload` | src/image/classes/Object.php:203-212 | delete-then-upload unlinks first, then moves the upload to the path, where it survives |
| `ImageActions.UploadThenDeleteLosesUpload` | src/image/classes/Object.php:203-212 | in the opposite order the uploaded file is deleted, so the queue order matters |
| `ImageActions.DeleteSave` | src/image/classes/Object.php:278-283 | saving `[delete]` only unlinks; the image is gone unless a handle from an earlier save is written back after the unlink |
| `ImageObject.CachedThumb` | src/image/classes/Object.php:324-331 | the returned descriptor is the one cached under the name's key; other entries are untouched; a new descriptor is built from `getThumbName` |
| `ImageObject.CachedThumbIsStable` | src/image/classes/Object.php:324-331 | asking again for the same name returns the same descriptor and leaves the cache unchanged |
| `ImageObject.NullAndEmptyNameShareSlot` | src/image/classes/Object.php:326 | after `thumb(null)`, `thumb("")` returns the same descriptor, although `getThumbName("")` names a different file |
| `ImageObject.ImageObject.constructor` | src/image/classes/Object.php:113-117 | the path is stored; `exists` is whether the file exists; queue, handle and cache start empty |
| `ImageObject.ImageObject.IsChanged` | tests/phpunit/classes/ObjectTest.php:44-50 | changed exactly when the queue is non-empty |
| `ImageObject.ImageObject.Get` | src/image/classes/Object.php:129-145 | `path` gives the path; `url` starts with the URL root and is root plus the path below the filesystem root, or just the root for a null or short path; other keys give null |
| `ImageObject.ImageObject.SetPath` | src/image/classes/Object.php:157-160 | the path becomes the argument |
| `ImageObject.ImageObject.AddAction` | src/image/classes/Object.php:344-349 | exactly one entry is appended at the tail |
| `ImageObject.ImageObject.Upload` | src/image/classes/Object.php:175-214 | no file: false, queue unchanged, path kept only if the file existed; rejected: the exception, nothing changed; accepted: true, the extension rewritten, and `[delete, upload]` or `[upload]` appended |
| `ImageObject.ImageObject.Resize` | src/image/classes/Object.php:227-231 | appends exactly `resize(w,h)` |
| `ImageObject.ImageObject.CreateThumbnail` | src/image/classes/Object.php:245-249 | appends exactly `thumbnail(name,w,h)` |
| `ImageObject.ImageObject.Overlay` | src/image/classes/Object.php:264-268 | appends exactly `overlay(file,corner,padX,padY)` |
| `ImageObject.ImageObject.Delete` | src/image/classes/Object.php:278-283 | the queue becomes exactly `[delete]` and is saved at once |
| `ImageObject.ImageObject.Save` | src/image/classes/Object.php:293-312 | the loop's result equals `SaveSpec`; queue and path are unchanged |
| `ImageObject.ImageObject.Thumb` | src/image/classes/Object.php:324-331 | returns and caches as `CachedThumb` says |
| `ImageObject.ImageObject.GetPhpThumb` | src/image/classes/Object.php:361-372 | the handle is created lazily, as `GetRaster` says |
| `ImageObject.ImageObject.Dispatch` | src/image/classes/Object.php:299-306 | each entry goes to its own handler |
| `ImageObject.ImageObject.ActionDelete` | src/image/classes/Object.php:400-409 | removes exactly the files matching the globs of the current path's base and keeps the rest |
| `ImageObject.ImageObject.ActionUpload` | src/image/classes/Object.php:424-460 | a non-upload aborts with nothing changed; a genuine upload lands at the current path, leaves the temp area, and other files stay |
| `ImageObject.ImageObject.ActionResize` | src/image/classes/Object.php:473-477 | loads the handle if needed, then resizes it |
| `ImageObject.ImageObject.ActionThumbnail` | src/image/classes/Object.php:491-498 | writes a resized copy to the thumbnail file; the handle keeps its size |
| `ImageObject.ImageObject.ActionOverlay` | src/image/classes/Object.php:513-551 | skipped for a missing file; otherwise the overlay file is opened and composited at the corner's origin |
| `ImageObject.FreshImageChangesOnResize` | tests/phpunit/classes/ObjectTest.php:44-50 | a new object is unchanged and becomes changed after `resize(1,1)` |
| `ImageObject.ObjectUrlMatchesThumbnailUrl` | src/image/classes/Object.php:138 | `__get('url')` for path p equals the URL of a thumbnail descriptor for p |

## Left out

- Filesystem calls are not modelled as I/O. `file_exists`, `is_uploaded_file`, `move_uploaded_file`, `glob` and `unlink` act on the `Disk` value. The `mkdir`/`umask` directory loop and `chmod` are not modelled; directories are assumed to exist and a move of a genuine upload is assumed to succeed.
- `glob` is modelled as "prefix, then text without a slash". Glob metacharacters inside the base name are not modelled. The order in which `glob` lists the files is not modelled either; the unlinked files form one set.
- The PhpThumb/GD backend is represented only by raster sizes. Pixel contents are not computed: `imagecopy` is the effect `Composite`, and the `clone` that `actionThumbnail` resizes and saves is folded into the effect `WriteThumbnail`; `getOldImage`/`setOldImage` have no effect of their own. The backend's resize policy is the parameter `fit`.
- Strings are sequences of characters, while PHP's `strlen`, `substr`, `strrpos` and `substr_replace` count bytes. `UrlOf` cuts `|froot|` characters where the source cuts `strlen($froot)` bytes, so for a path not under `froot` that holds multibyte characters the model's URL differs from the source's. For paths under `froot`, and for the ASCII dot and separators, the two agree.
- An overlay file that exists but that the backend cannot open is not modelled; only the main image can fail with `LoadFailed`.
- A backend that cannot open the image file is modelled as the fault `LoadFailed`. The backend's own code is not part of this model.
- `ImageObject.ImageObject.ActionOverlay`: for an unknown corner the source goes on with undefined `$x`/`$y`. The model stops the replay with the fault `UndefinedOrigin` instead.
- `ImageObject.ImageObject.Upload`: requires a dot in the path when the upload is accepted. Without one, `strrpos` returns false and the source's rewrite produces a malformed path; that is not modelled.
- `ImageObject.ImageObject.Save`: requires a dot in a non-false path when the queue holds a delete or a thumbnail entry, for the same `strrpos` reason.
- `ImageObject.ImageObject.Delete`: requires a dot in a non-false path, for the same reason.
- `ImageObject.ImageObject.Thumb`: requires a dot in the path, for the same reason.
- `ImageThumbnail.NewThumbnail`: requires a non-empty path, because PHP refuses an empty property name. `getThumbName` never produces one.
- The exception messages and their `iconv` conversion to cp1251 are not modelled. Errors are the tags of `UploadFault` and `Fault`.
- `$GLOBALS['Eresus']->root` and `froot` are parameters (`root`, `froot`).
- PHP integer overflow in the corner arithmetic is not modelled; sizes are unbounded integers.
- The fluent `return $this` of `resize`, `createThumbnail` and `overlay` is not modelled.
- `Image_Thumbnail`'s properties are written only by its constructor. The model is an immutable datatype, so there is nothing further to state.
- The PHPUnit harness and bootstrap are not modelled. The test serves only as the source of `isChanged`.
