/** `Image_Object`: an image file and the queue of changes waiting for
    `save`. Callers record intents; nothing reaches the disk until `save`
    replays the queue in order and then writes the raster handle once. */
module ImageObject {
  import opened PhpStrings
  import opened ImageNaming
  import opened ImageActions
  import ImageThumbnail

  /** A return value or a thrown exception. */
  datatype Result<T, E> = Ok(value: T) | Err(error: E)

  /** `thumb`'s cache lookup. PHP turns a `null` array key into `""`, so
      the default thumbnail and a thumbnail named `""` share one slot. */
  function CacheKey(name: Option<string>): string {
    name.GetOr("")
  }

  /** The descriptor `thumb(name)` returns and the cache it leaves: a cached
      descriptor when there is one, otherwise a new one for `getThumbName`,
      remembered under the name's key. */
  function CachedThumb(cache: map<string, ImageThumbnail.Thumbnail>, name: Option<string>,
                       path: string, root: string, froot: string)
    : (r: (ImageThumbnail.Thumbnail, map<string, ImageThumbnail.Thumbnail>))
    requires '.' in path
    ensures CacheKey(name) in r.1 && r.1[CacheKey(name)] == r.0
    ensures r.1.Keys == cache.Keys + {CacheKey(name)}
    ensures forall k :: k in cache ==> r.1[k] == cache[k]
    ensures CacheKey(name) !in cache ==>
              r.0 == ImageThumbnail.NewThumbnail(ThumbName(path, name), root, froot)
  {
    var key := CacheKey(name);
    if key in cache then (cache[key], cache)
    else
      var t := ImageThumbnail.NewThumbnail(ThumbName(path, name), root, froot);
      (t, cache[key := t])
  }

  /** Asking twice for the same thumbnail gives the same descriptor and does
      not grow the cache again. */
  lemma CachedThumbIsStable(cache: map<string, ImageThumbnail.Thumbnail>, name: Option<string>,
                            path: string, root: string, froot: string)
    requires '.' in path
    ensures var first := CachedThumb(cache, name, path, root, froot);
            CachedThumb(first.1, name, path, root, froot) == first
  {
  }

  /** Once the default thumbnail is cached, `thumb("")` returns it: its URL is
      that of `<base>-thumb.png`, not of the `<base>-thumb-.png` that
      `getThumbName("")` names. */
  lemma NullAndEmptyNameShareSlot(cache: map<string, ImageThumbnail.Thumbnail>,
                                  path: string, root: string, froot: string)
    requires '.' in path && "" !in cache
    ensures var first := CachedThumb(cache, None, path, root, froot);
            var second := CachedThumb(first.1, Some(""), path, root, froot);
            second.0 == first.0
            && second.0.url == ImageThumbnail.UrlOf(ThumbName(path, None), root, froot)
            && ThumbName(path, Some("")) != ThumbName(path, None)
  {
    if ThumbName(path, Some("")) == ThumbName(path, None) {
      ThumbNameInjective(path, Some(""), None);
    }
  }

  class ImageObject {
    /** The full file path; `null` for an object made without one. */
    var path: Option<string>
    /** Whether a file was at `path` when the object was made. */
    var fileExists: bool
    /** The pending actions, oldest first. */
    var actionQueue: seq<Action>
    /** The PhpThumb object, created on first use; here its current size. */
    var handle: Option<Size>
    /** Thumbnail descriptors handed out so far, by cache key. */
    var thumbs: map<string, ImageThumbnail.Thumbnail>

    /** `new Image_Object($path)`; `file_exists` is answered by `disk`. */
    constructor (path: Option<string>, disk: Disk)
      ensures this.path == path
      ensures fileExists <==> path.Some? && path.value in disk.files
      ensures actionQueue == [] && handle == None && thumbs == map[]
    {
      this.path := path;
      this.fileExists := path.Some? && path.value in disk.files;
      this.actionQueue := [];
      this.handle := None;
      this.thumbs := map[];
    }

    /** `isChanged()`: whether any action is waiting for `save`. */
    function IsChanged(): (r: bool)
      reads this
      ensures r <==> |actionQueue| > 0
    {
      actionQueue != []
    }

    /** `__get`: the pseudo-properties `path` and `url`; any other name reads
        as `null`. The URL is the path with the filesystem root's length cut
        off and the URL root in front. */
    function Get(key: string, root: string, froot: string): (r: Option<string>)
      reads this
      ensures key == "path" ==> r == path
      ensures key == "url" ==> r.Some? && StartsWith(r.value, root)
      ensures key == "url" && path.Some? && StartsWith(path.value, froot) ==>
                r == Some(root + path.value[|froot|..])
      ensures key == "url" && (path.None? || |path.value| <= |froot|) ==> r == Some(root)
      ensures key !in {"path", "url"} ==> r.None?
    {
      if key == "path" then path
      else if key == "url" then
        assert root + "" == root;
        Some(root + Substr(path.GetOr(""), |froot|))
      else None
    }

    /** `setPath`. */
    method SetPath(p: Option<string>)
      modifies this`path
      ensures path == p
    {
      path := p;
    }

    /** `addAction`: one entry at the tail of the queue. */
    method AddAction(a: Action)
      modifies this`actionQueue
      ensures actionQueue == old(actionQueue) + [a]
    {
      actionQueue := actionQueue + [a];
    }

    /** `upload($info)`. No file: `false`, and the path is forgotten unless a
        file existed. An error code or a type the whitelist does not know:
        the exception, nothing changed. Otherwise `true`: the path's
        extension becomes the type's, and the queue gains `upload`, preceded
        by `delete` when a file existed. */
    method Upload(info: UploadInfo) returns (r: Result<bool, UploadFault>)
      requires CheckUpload(info).Accepted? ==> path.Some? && '.' in path.value
      modifies this`path, this`actionQueue
      ensures CheckUpload(info) == NoFile ==>
                r == Ok(false) && actionQueue == old(actionQueue)
                && path == (if fileExists then old(path) else None)
      ensures CheckUpload(info).Rejected? ==>
                r == Err(CheckUpload(info).fault) && actionQueue == old(actionQueue) && path == old(path)
      ensures CheckUpload(info).Accepted? ==>
                r == Ok(true)
                && path == Some(RewriteExtension(old(path).value, CheckUpload(info).ext))
                && actionQueue == old(actionQueue) + (if fileExists then [Action.Delete] else []) + [Action.Upload(info)]
    {
      if info.error == UPLOAD_ERR_NO_FILE {
        if !fileExists {
          path := None;
        }
        return Ok(false);
      } else if info.error == UPLOAD_ERR_INI_SIZE || info.error == UPLOAD_ERR_FORM_SIZE {
        return Err(TooLarge);
      } else if info.error == UPLOAD_ERR_PARTIAL {
        return Err(Interrupted);
      }
      if info.mimeType !in SupportedMimeTypes {
        return Err(UnsupportedType(info.mimeType));
      }
      if fileExists {
        AddAction(Action.Delete);
      }
      var newExt := SupportedMimeTypes[info.mimeType];
      path := Some(RewriteExtension(path.value, newExt));
      AddAction(Action.Upload(info));
      r := Ok(true);
    }

    /** `resize`. */
    method Resize(width: int, height: int)
      modifies this`actionQueue
      ensures actionQueue == old(actionQueue) + [Action.Resize(width, height)]
    {
      AddAction(Action.Resize(width, height));
    }

    /** `createThumbnail`. */
    method CreateThumbnail(name: Option<string>, width: int, height: int)
      modifies this`actionQueue
      ensures actionQueue == old(actionQueue) + [Action.Thumbnail(name, width, height)]
    {
      AddAction(Action.Thumbnail(name, width, height));
    }

    /** `overlay`. */
    method Overlay(file: string, corner: string, padX: int, padY: int)
      modifies this`actionQueue
      ensures actionQueue == old(actionQueue) + [Action.Overlay(file, corner, padX, padY)]
    {
      AddAction(Action.Overlay(file, corner, padX, padY));
    }

    /** `delete()`: the queue is replaced by a single `delete`, which is
        saved at once. */
    method Delete(disk: Disk, fit: Fit) returns (o: Outcome)
      requires !Falsy(path) ==> '.' in path.value
      modifies this`actionQueue, this`handle
      ensures actionQueue == [Action.Delete]
      ensures o == SaveSpec(path, [Action.Delete], fit, disk, old(handle)) && handle == o.handle
    {
      actionQueue := [];
      AddAction(Action.Delete);
      o := Save(disk, fit);
    }

    /** `save()`: nothing without a path; otherwise every queued action in
        order, then the handle, if any, written to the path. The queue is
        left as it was. */
    method Save(disk: Disk, fit: Fit) returns (o: Outcome)
      requires !Falsy(path) ==> Replayable(path.value, actionQueue)
      modifies this`handle
      ensures o == SaveSpec(path, actionQueue, fit, disk, old(handle)) && handle == o.handle
      ensures actionQueue == old(actionQueue) && path == old(path)
    {
      if Falsy(path) {
        return Outcome(disk, handle, [], None);
      }
      var p := path.value;
      var d, effects := disk, [];
      var i := 0;
      while i < |actionQueue|
        invariant 0 <= i <= |actionQueue|
        invariant Replayable(p, actionQueue[i..])
        invariant Then(Outcome(d, handle, effects, None), actionQueue[i..], p, fit)
                  == Drain(actionQueue, p, fit, disk, old(handle))
      {
        ghost var before := Outcome(d, handle, effects, None);
        ThenStep(before, actionQueue[i..], p, fit);
        assert actionQueue[i..][0] == actionQueue[i] && actionQueue[i..][1..] == actionQueue[i + 1..];
        var s := Dispatch(actionQueue[i], d, fit);
        if s.fault.Some? {
          return Outcome(s.disk, handle, effects + s.effects, s.fault);
        }
        d, effects := s.disk, effects + s.effects;
        i := i + 1;
      }
      assert actionQueue[i..] == [];
      if handle.Some? {
        d := d.(files := d.files[p := handle.value]);
        effects := effects + [Flush(p)];
      }
      o := Outcome(d, handle, effects, None);
    }

    /** `thumb($name)`: the cached descriptor for `name`, made on first use. */
    method Thumb(name: Option<string>, root: string, froot: string) returns (t: ImageThumbnail.Thumbnail)
      requires path.Some? && '.' in path.value
      modifies this`thumbs
      ensures (t, thumbs) == CachedThumb(old(thumbs), name, path.value, root, froot)
    {
      var key := CacheKey(name);
      if key !in thumbs {
        thumbs := thumbs[key := ImageThumbnail.NewThumbnail(ThumbName(path.value, name), root, froot)];
      }
      t := thumbs[key];
    }

    /** `getPhpThumb`: the handle, created from the current path on first use. */
    method GetPhpThumb(disk: Disk) returns (g: Outcome)
      requires path.Some?
      modifies this`handle
      ensures g == GetRaster(path.value, disk, old(handle)) && handle == g.handle
    {
      if handle.None? {
        if path.value !in disk.files {
          return Outcome(disk, None, [], Some(LoadFailed(path.value)));
        }
        handle := Some(disk.files[path.value]);
        return Outcome(disk, handle, [Load(path.value)], None);
      }
      g := Outcome(disk, handle, [], None);
    }

    /** The `call_user_func_array` of `save`: the handler named by the entry. */
    method Dispatch(a: Action, disk: Disk, fit: Fit) returns (o: Outcome)
      requires path.Some? && (NeedsDot(a) ==> '.' in path.value)
      modifies this`handle
      ensures o == Step(a, path.value, fit, disk, old(handle)) && handle == o.handle
    {
      if a.Delete? {
        o := ActionDelete(disk);
      } else if a.Upload? {
        o := ActionUpload(a.info, disk);
      } else if a.Resize? {
        o := ActionResize(a.width, a.height, disk, fit);
      } else if a.Thumbnail? {
        o := ActionThumbnail(a.name, a.width, a.height, disk, fit);
      } else {
        o := ActionOverlay(a.file, a.corner, a.padX, a.padY, disk);
      }
    }

    /** `actionDelete`: unlinks `<base>.*` and `<base>-*`, where the base is
        the path as it is when the action runs, up to its last dot. */
    method ActionDelete(disk: Disk) returns (o: Outcome)
      requires path.Some? && '.' in path.value
      ensures o.handle == handle
      ensures forall f :: f in o.disk.files <==> f in disk.files && !DeletedBy(path.value, f)
      ensures o.effects == [Unlink(disk.files.Keys - o.disk.files.Keys)] && o.fault.None?
      ensures o == DeleteStep(path.value, disk, handle)
    {
      var gone := DeletedFiles(path.value, disk);
      assert gone == disk.files.Keys - (disk.files - gone).Keys;
      o := Outcome(disk.(files := disk.files - gone), handle, [Unlink(gone)], None);
    }

    /** `actionUpload`: a genuine upload is moved to the current path;
        anything else aborts the replay. */
    method ActionUpload(info: UploadInfo, disk: Disk) returns (o: Outcome)
      requires path.Some?
      ensures o.handle == handle
      ensures info.tmpName !in disk.uploads ==>
                o == Outcome(disk, handle, [], Some(NotUploaded(info.tmpName)))
      ensures info.tmpName in disk.uploads ==>
                && o.fault.None? && o.effects == [MoveUploaded(info.tmpName, path.value)]
                && path.value in o.disk.files && o.disk.files[path.value] == disk.uploads[info.tmpName]
                && info.tmpName !in o.disk.uploads
                && forall f :: f in disk.files && f != path.value ==> f in o.disk.files && o.disk.files[f] == disk.files[f]
      ensures o == UploadStep(info, path.value, disk, handle)
    {
      if info.tmpName !in disk.uploads {
        return Outcome(disk, handle, [], Some(NotUploaded(info.tmpName)));
      }
      var moved := Disk(disk.files[path.value := disk.uploads[info.tmpName]], disk.uploads - {info.tmpName});
      o := Outcome(moved, handle, [MoveUploaded(info.tmpName, path.value)], None);
    }

    /** `actionResize`. */
    method ActionResize(width: int, height: int, disk: Disk, fit: Fit) returns (o: Outcome)
      requires path.Some?
      modifies this`handle
      ensures o == Step(Action.Resize(width, height), path.value, fit, disk, old(handle)) && handle == o.handle
    {
      o := GetPhpThumb(disk);
      if o.fault.None? {
        handle := Some(fit(handle.value, width, height));
        o := Outcome(disk, handle, o.effects + [ResizeRaster(width, height)], None);
      }
    }

    /** `actionThumbnail`: a resized copy of the handle is written to the
        thumbnail's file; the handle itself is not resized. */
    method ActionThumbnail(name: Option<string>, width: int, height: int, disk: Disk, fit: Fit) returns (o: Outcome)
      requires path.Some? && '.' in path.value
      modifies this`handle
      ensures o == Step(Action.Thumbnail(name, width, height), path.value, fit, disk, old(handle)) && handle == o.handle
    {
      var target := ThumbName(path.value, name);
      o := GetPhpThumb(disk);
      if o.fault.None? {
        var copy := fit(handle.value, width, height);
        o := Outcome(disk.(files := disk.files[target := copy]), handle, o.effects + [WriteThumbnail(target, width, height)], None);
      }
    }

    /** `actionOverlay`: skipped when the overlay file does not exist;
        otherwise the overlay file is opened and copied at the corner's
        origin. */
    method ActionOverlay(file: string, corner: string, padX: int, padY: int, disk: Disk) returns (o: Outcome)
      requires path.Some?
      modifies this`handle
      ensures o == OverlayStep(file, corner, padX, padY, path.value, disk, old(handle)) && handle == o.handle
    {
      if file !in disk.files {
        return Outcome(disk, handle, [], None);
      }
      o := GetPhpThumb(disk);
      if o.fault.None? {
        var dst, src := handle.value, disk.files[file];
        var origin := OverlayOrigin(corner, dst.width, dst.height, src.width, src.height, padX, padY);
        o := o.(effects := o.effects + [Load(file)]);
        if origin.None? {
          o := o.(fault := Some(UndefinedOrigin(corner)));
        } else {
          o := o.(effects := o.effects + [Composite(file, origin.value.0, origin.value.1)]);
        }
      }
    }
  }

  /** A new object without a path has nothing to save; after `resize(1, 1)`
      it has. */
  method FreshImageChangesOnResize() returns (before: bool, after: bool)
    ensures !before && after
  {
    var image := new ImageObject(None, Disk(map[], map[]));
    before := image.IsChanged();
    image.Resize(1, 1);
    after := image.IsChanged();
  }

  /** `__get('url')` and the URL of a thumbnail descriptor are the same
      function of the path. */
  lemma ObjectUrlMatchesThumbnailUrl(image: ImageObject, p: string, root: string, froot: string)
    requires image.path == Some(p) && p != ""
    ensures image.Get("url", root, froot) == Some(ImageThumbnail.NewThumbnail(p, root, froot).url)
  {
  }
}
