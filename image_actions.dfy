/** The deferred actions of `Image_Object` and what replaying them does.
    The filesystem and the raster backend are outside: the files the engine
    can see form a `Disk` value, the backend's resize policy is the parameter
    `fit`, and every call that touches a file or the backend is recorded, in
    order, as an `Effect`. */
module ImageActions {
  import opened PhpStrings
  import opened ImageNaming

  /** Pixel dimensions, as `imageSX`/`imageSY` report them. */
  datatype Size = Size(width: int, height: int)

  /** One queue entry `{action, args}`; the variant is the action name and
      its fields are the captured arguments. */
  datatype Action =
    | Delete
    | Upload(info: UploadInfo)
    | Resize(width: int, height: int)
    | Thumbnail(name: Option<string>, width: int, height: int)
    | Overlay(file: string, corner: string, padX: int, padY: int)

  /** The action name `addAction` records. */
  function Kind(a: Action): string {
    match a
    case Delete => "delete"
    case Upload(_) => "upload"
    case Resize(_, _) => "resize"
    case Thumbnail(_, _, _) => "thumbnail"
    case Overlay(_, _, _, _) => "overlay"
  }

  /** The handler methods `method_exists` finds, lower-cased because PHP
      looks method names up without regard to case. */
  const Handlers: set<string> :=
    {"actiondelete", "actionupload", "actionresize", "actionthumbnail", "actionoverlay"}

  /** `save` throws `LogicException` for an entry without a handler; every
      action this model can queue has one, so that branch is unreachable. */
  lemma EveryActionHasHandler(a: Action)
    ensures "action" + Kind(a) in Handlers
  {
    match a
    case Delete => assert "action" + "delete" == "actiondelete";
    case Upload(_) => assert "action" + "upload" == "actionupload";
    case Resize(_, _) => assert "action" + "resize" == "actionresize";
    case Thumbnail(_, _, _) => assert "action" + "thumbnail" == "actionthumbnail";
    case Overlay(_, _, _, _) => assert "action" + "overlay" == "actionoverlay";
  }

  /** The files the engine can observe: existing files with their image
      size, and the temporary files the upload transport received. */
  datatype Disk = Disk(files: map<string, Size>, uploads: map<string, Size>)

  /** The calls that reach the filesystem or the raster backend. */
  datatype Effect =
    | Unlink(removed: set<string>)
    | MoveUploaded(tmpName: string, dest: string)
    | Load(path: string)
    | ResizeRaster(width: int, height: int)
    | WriteThumbnail(target: string, width: int, height: int)
    | Composite(file: string, x: int, y: int)
    | Flush(path: string)

  /** What aborts a replay: `actionUpload`'s RuntimeException for a file that
      is not a genuine upload, the backend failing to open the image, and a
      corner the overlay `switch` does not know (the source reads undefined
      placement variables there). */
  datatype Fault = NotUploaded(tmpName: string) | LoadFailed(path: string) | UndefinedOrigin(corner: string)

  /** The state after some replay: the disk, the raster handle (its current
      size, or `None` when none was created), the effects in the order they
      happened, and the fault that stopped it, if any. */
  datatype Outcome = Outcome(disk: Disk, handle: Option<Size>, effects: seq<Effect>, fault: Option<Fault>)

  /** The backend's resize: the size a raster of the given size has after
      resizing to the requested width and height. */
  type Fit = (Size, int, int) -> Size

  /** The actions whose handler computes a name from the path's last dot. */
  predicate NeedsDot(a: Action) {
    a.Delete? || a.Thumbnail?
  }

  /** Every action of `q` can be replayed against `path`. */
  predicate Replayable(path: string, q: seq<Action>) {
    forall i :: 0 <= i < |q| && NeedsDot(q[i]) ==> '.' in path
  }

  /** `getPhpThumb`: the handle is created from `path` the first time it is
      needed and reused afterwards. */
  function GetRaster(path: string, disk: Disk, handle: Option<Size>): (g: Outcome)
    ensures g.disk == disk
    ensures handle.Some? ==> g == Outcome(disk, handle, [], None)
    ensures handle.None? && path in disk.files ==>
              g == Outcome(disk, Some(disk.files[path]), [Load(path)], None)
    ensures g.fault.None? <==> handle.Some? || path in disk.files
    ensures g.fault.None? ==> g.handle.Some?
  {
    if handle.Some? then Outcome(disk, handle, [], None)
    else if path in disk.files then Outcome(disk, Some(disk.files[path]), [Load(path)], None)
    else Outcome(disk, None, [], Some(LoadFailed(path)))
  }

  /** The files `actionDelete` unlinks. */
  function DeletedFiles(path: string, disk: Disk): (gone: set<string>)
    requires '.' in path
    ensures forall f :: f in gone <==> f in disk.files && DeletedBy(path, f)
  {
    set f | f in disk.files.Keys && DeletedBy(path, f)
  }

  /** One handler, run against the image at `path`. */
  function Step(a: Action, path: string, fit: Fit, disk: Disk, handle: Option<Size>): (o: Outcome)
    requires NeedsDot(a) ==> '.' in path
  {
    match a
    case Delete => DeleteStep(path, disk, handle)
    case Upload(info) => UploadStep(info, path, disk, handle)
    case Resize(w, h) =>
      var g := GetRaster(path, disk, handle);
      if g.fault.Some? then g
      else Outcome(disk, Some(fit(g.handle.value, w, h)), g.effects + [ResizeRaster(w, h)], None)
    case Thumbnail(name, w, h) =>
      var target := ThumbName(path, name);
      var g := GetRaster(path, disk, handle);
      if g.fault.Some? then g
      else
        Outcome(disk.(files := disk.files[target := fit(g.handle.value, w, h)]), g.handle,
                g.effects + [WriteThumbnail(target, w, h)], None)
    case Overlay(file, corner, padX, padY) => OverlayStep(file, corner, padX, padY, path, disk, handle)
  }

  /** `actionDelete`: the files matching `<base>.*` and `<base>-*` go. */
  function DeleteStep(path: string, disk: Disk, handle: Option<Size>): (o: Outcome)
    requires '.' in path
  {
    var gone := DeletedFiles(path, disk);
    Outcome(disk.(files := disk.files - gone), handle, [Unlink(gone)], None)
  }

  /** `actionUpload`: a genuine upload is moved to the path; anything else
      aborts the replay. */
  function UploadStep(info: UploadInfo, path: string, disk: Disk, handle: Option<Size>): (o: Outcome)
  {
    if info.tmpName !in disk.uploads then Outcome(disk, handle, [], Some(NotUploaded(info.tmpName)))
    else
      var moved := Disk(disk.files[path := disk.uploads[info.tmpName]], disk.uploads - {info.tmpName});
      Outcome(moved, handle, [MoveUploaded(info.tmpName, path)], None)
  }

  /** `actionOverlay`: nothing when the overlay file is missing; otherwise
      the overlay file is opened by the backend and then composited at the
      corner's origin. */
  function OverlayStep(file: string, corner: string, padX: int, padY: int,
                       path: string, disk: Disk, handle: Option<Size>): (o: Outcome)
  {
    if file !in disk.files then Outcome(disk, handle, [], None)
    else
      var g := GetRaster(path, disk, handle);
      if g.fault.Some? then g
      else
        var dst, src := g.handle.value, disk.files[file];
        var loaded := g.effects + [Load(file)];
        var origin := OverlayOrigin(corner, dst.width, dst.height, src.width, src.height, padX, padY);
        if origin.None? then g.(effects := loaded, fault := Some(UndefinedOrigin(corner)))
        else g.(effects := loaded + [Composite(file, origin.value.0, origin.value.1)])
  }

  /** The `foreach` of `save`: every entry in queue order, stopping at the
      first fault with the effects that already happened. */
  function Drain(q: seq<Action>, path: string, fit: Fit, disk: Disk, handle: Option<Size>): (o: Outcome)
    requires Replayable(path, q)
    decreases |q|, 0
  {
    if |q| == 0 then Outcome(disk, handle, [], None)
    else
      var s := Step(q[0], path, fit, disk, handle);
      if s.fault.Some? then s
      else Then(s, q[1..], path, fit)
  }

  /** Continues the replay `o` with the entries `q`. */
  function Then(o: Outcome, q: seq<Action>, path: string, fit: Fit): (r: Outcome)
    requires Replayable(path, q)
    decreases |q|, 1
  {
    if o.fault.Some? then o
    else
      var r := Drain(q, path, fit, o.disk, o.handle);
      r.(effects := o.effects + r.effects)
  }

  /** Continuing a replay with a non-empty queue runs its first entry and
      then the rest. */
  lemma ThenStep(o: Outcome, q: seq<Action>, path: string, fit: Fit)
    requires o.fault.None? && |q| > 0 && Replayable(path, q)
    ensures Replayable(path, q[1..])
    ensures var s := Step(q[0], path, fit, o.disk, o.handle);
            Then(o, q, path, fit)
              == if s.fault.Some? then s.(effects := o.effects + s.effects)
                 else Then(Outcome(s.disk, s.handle, o.effects + s.effects, None), q[1..], path, fit)
  {
    assert forall i :: 0 <= i < |q[1..]| ==> q[1..][i] == q[i + 1];
    var s := Step(q[0], path, fit, o.disk, o.handle);
    var d := Drain(q, path, fit, o.disk, o.handle);
    assert Then(o, q, path, fit) == d.(effects := o.effects + d.effects);
    if s.fault.None? {
      var r := Drain(q[1..], path, fit, s.disk, s.handle);
      assert d == Then(s, q[1..], path, fit) == r.(effects := s.effects + r.effects);
      var o' := Outcome(s.disk, s.handle, o.effects + s.effects, None);
      assert Then(o', q[1..], path, fit) == r.(effects := (o.effects + s.effects) + r.effects);
      assert o.effects + (s.effects + r.effects) == (o.effects + s.effects) + r.effects;
    } else {
      assert d == s;
    }
  }

  /** `save`: nothing for a path PHP reads as false; otherwise the queue is
      replayed and, when it ran through and a raster handle exists, the
      handle is written to the path once. */
  function SaveSpec(path: Option<string>, q: seq<Action>, fit: Fit, disk: Disk, handle: Option<Size>): (o: Outcome)
    requires !Falsy(path) ==> Replayable(path.value, q)
  {
    if Falsy(path) then Outcome(disk, handle, [], None)
    else
      var r := Drain(q, path.value, fit, disk, handle);
      if r.fault.Some? || r.handle.None? then r
      else r.(disk := r.disk.(files := r.disk.files[path.value := r.handle.value]),
              effects := r.effects + [Flush(path.value)])
  }

  /** A replay never writes the handle to the image path itself; only `save`
      does, after the loop. */
  lemma {:induction false} DrainNeverFlushes(q: seq<Action>, path: string, fit: Fit, disk: Disk, handle: Option<Size>)
    requires Replayable(path, q)
    ensures forall e :: e in Drain(q, path, fit, disk, handle).effects ==> !e.Flush?
    decreases |q|
  {
    if |q| > 0 {
      var s := Step(q[0], path, fit, disk, handle);
      if s.fault.None? {
        DrainNeverFlushes(q[1..], path, fit, s.disk, s.handle);
      }
    }
  }

  /** The raster handle, once created, is never dropped by a replay. */
  lemma {:induction false} DrainKeepsHandle(q: seq<Action>, path: string, fit: Fit, disk: Disk, handle: Option<Size>)
    requires Replayable(path, q)
    requires handle.Some?
    ensures Drain(q, path, fit, disk, handle).handle.Some?
    decreases |q|
  {
    if |q| > 0 {
      var s := Step(q[0], path, fit, disk, handle);
      if s.fault.None? {
        DrainKeepsHandle(q[1..], path, fit, s.disk, s.handle);
      }
    }
  }

  /** `save` with a path PHP reads as false does nothing at all. */
  lemma SaveWithoutPathIsNoop(path: Option<string>, q: seq<Action>, fit: Fit, disk: Disk, handle: Option<Size>)
    requires Falsy(path)
    ensures SaveSpec(path, q, fit, disk, handle) == Outcome(disk, handle, [], None)
  {
  }

  /** After a replay that ran through, the image is written to the current
      path exactly once, as the last effect, if and only if a raster handle
      exists; a replay that faulted writes nothing. */
  lemma SaveFlushesOnce(path: string, q: seq<Action>, fit: Fit, disk: Disk, handle: Option<Size>)
    requires !Falsy(Some(path)) && Replayable(path, q)
    ensures var o := SaveSpec(Some(path), q, fit, disk, handle);
            && (o.fault.None? && o.handle.Some? ==>
                  |o.effects| > 0 && o.effects[|o.effects| - 1] == Flush(path)
                  && forall i :: 0 <= i < |o.effects| - 1 ==> !o.effects[i].Flush?)
            && (o.fault.Some? || o.handle.None? ==> forall e :: e in o.effects ==> !e.Flush?)
  {
    DrainNeverFlushes(q, path, fit, disk, handle);
    var r := Drain(q, path, fit, disk, handle);
    var o := SaveSpec(Some(path), q, fit, disk, handle);
    if r.fault.None? && r.handle.Some? {
      assert o.effects == r.effects + [Flush(path)];
      forall i | 0 <= i < |o.effects| - 1 ensures !o.effects[i].Flush? {
        assert o.effects[i] == r.effects[i];
        assert r.effects[i] in r.effects;
      }
    }
  }

  /** A handle that already existed when `save` started is written back
      whatever the queue holds, as long as the replay runs through. */
  lemma SaveFlushesExistingHandle(path: string, q: seq<Action>, fit: Fit, disk: Disk, handle: Option<Size>)
    requires !Falsy(Some(path)) && Replayable(path, q) && handle.Some?
    requires Drain(q, path, fit, disk, handle).fault.None?
    ensures var o := SaveSpec(Some(path), q, fit, disk, handle);
            |o.effects| > 0 && o.effects[|o.effects| - 1] == Flush(path)
  {
    DrainKeepsHandle(q, path, fit, disk, handle);
  }

  /** Replaying `q1 + q2` is replaying `q1` and then `q2`: entries run
      strictly in queue order and each sees the state its predecessors left. */
  lemma {:induction false} DrainAppend(q1: seq<Action>, q2: seq<Action>, path: string, fit: Fit, disk: Disk, handle: Option<Size>)
    requires Replayable(path, q1) && Replayable(path, q2)
    ensures Replayable(path, q1 + q2)
    ensures Drain(q1 + q2, path, fit, disk, handle) == Then(Drain(q1, path, fit, disk, handle), q2, path, fit)
    decreases |q1|
  {
    assert Replayable(path, q1 + q2) by {
      forall i | 0 <= i < |q1 + q2| && NeedsDot((q1 + q2)[i]) ensures '.' in path {
        if i < |q1| { assert (q1 + q2)[i] == q1[i]; } else { assert (q1 + q2)[i] == q2[i - |q1|]; }
      }
    }
    if |q1| == 0 {
      assert q1 + q2 == q2;
      var r := Drain(q2, path, fit, disk, handle);
      assert r.(effects := [] + r.effects) == r;
    } else {
      var s := Step(q1[0], path, fit, disk, handle);
      assert (q1 + q2)[0] == q1[0];
      assert (q1 + q2)[1..] == q1[1..] + q2;
      if s.fault.None? {
        DrainAppend(q1[1..], q2, path, fit, s.disk, s.handle);
        var a := Drain(q1[1..], path, fit, s.disk, s.handle);
        if a.fault.None? {
          var b := Drain(q2, path, fit, a.disk, a.handle);
          assert s.effects + (a.effects + b.effects) == (s.effects + a.effects) + b.effects;
        }
      }
    }
  }

  /** A one-entry queue is that entry's handler. */
  lemma DrainSingle(a: Action, path: string, fit: Fit, disk: Disk, handle: Option<Size>)
    requires NeedsDot(a) ==> '.' in path
    ensures Replayable(path, [a])
    ensures Drain([a], path, fit, disk, handle) == Step(a, path, fit, disk, handle)
  {
    var s := Step(a, path, fit, disk, handle);
    assert [a][1..] == [];
    if s.fault.None? {
      assert s.effects + [] == s.effects;
      assert Then(s, [], path, fit) == s;
    }
  }

  /** An overlay whose file does not exist is skipped without an error. */
  lemma MissingOverlayIsSkipped(file: string, corner: string, padX: int, padY: int,
                                path: string, fit: Fit, disk: Disk, handle: Option<Size>)
    requires file !in disk.files
    ensures Step(Overlay(file, corner, padX, padY), path, fit, disk, handle) == Outcome(disk, handle, [], None)
  {
  }

  /** An overlay of an existing file is opened and copied at the corner's
      origin onto the image as it stands after the earlier entries. */
  lemma OverlayPlacement(file: string, corner: string, padX: int, padY: int,
                         path: string, fit: Fit, disk: Disk, dst: Size)
    requires file in disk.files
    requires corner in {CORNER_TOP_LEFT, CORNER_TOP_RIGHT, CORNER_BOTTOM_LEFT, CORNER_BOTTOM_RIGHT}
    ensures var src := disk.files[file];
            var origin := OverlayOrigin(corner, dst.width, dst.height, src.width, src.height, padX, padY).value;
            Step(Overlay(file, corner, padX, padY), path, fit, disk, Some(dst))
              == Outcome(disk, Some(dst), [Load(file), Composite(file, origin.0, origin.1)], None)
  {
  }

  /** The replay `upload` queues for an existing image: the old files go
      first, then the upload lands at the path and survives. */
  lemma DeleteThenUpload(info: UploadInfo, path: string, fit: Fit, disk: Disk, handle: Option<Size>)
    requires '.' in path && info.tmpName in disk.uploads
    ensures Replayable(path, [Delete, Upload(info)])
    ensures var o := Drain([Delete, Upload(info)], path, fit, disk, handle);
            && o.fault.None?
            && o.effects == [Unlink(DeletedFiles(path, disk)), MoveUploaded(info.tmpName, path)]
            && path in o.disk.files && o.disk.files[path] == disk.uploads[info.tmpName]
  {
    DrainSingle(Delete, path, fit, disk, handle);
    var d := Step(Delete, path, fit, disk, handle);
    DrainSingle(Upload(info), path, fit, d.disk, d.handle);
    DrainAppend([Delete], [Upload(info)], path, fit, disk, handle);
    assert [Delete] + [Upload(info)] == [Delete, Upload(info)];
  }

  /** The reverse order would delete the file just uploaded: the queue order
      of `upload` is essential. */
  lemma UploadThenDeleteLosesUpload(info: UploadInfo, path: string, fit: Fit, disk: Disk, handle: Option<Size>)
    requires '.' in path && '/' !in Extension(path) && info.tmpName in disk.uploads
    ensures Replayable(path, [Upload(info), Delete])
    ensures var o := Drain([Upload(info), Delete], path, fit, disk, handle);
            o.fault.None? && path !in o.disk.files
  {
    DeleteCoversImageAndThumbnails(path, None);
    DrainSingle(Upload(info), path, fit, disk, handle);
    var u := Step(Upload(info), path, fit, disk, handle);
    DrainSingle(Delete, path, fit, u.disk, u.handle);
    DrainAppend([Upload(info)], [Delete], path, fit, disk, handle);
    assert [Upload(info)] + [Delete] == [Upload(info), Delete];
    assert path in DeletedFiles(path, u.disk);
  }

  /** What `delete()` saves: the files are unlinked and no queued resize,
      thumbnail or overlay runs; a handle left over from an earlier `save`
      is written back to the path after the unlink, so the image file
      reappears with that raster. */
  lemma DeleteSave(path: string, fit: Fit, disk: Disk, handle: Option<Size>)
    requires !Falsy(Some(path)) && '.' in path
    ensures Replayable(path, [Delete])
    ensures var o := SaveSpec(Some(path), [Delete], fit, disk, handle);
            && o.fault.None?
            && o.effects == [Unlink(DeletedFiles(path, disk))] + (if handle.Some? then [Flush(path)] else [])
            && (handle.None? && '/' !in Extension(path) ==> path !in o.disk.files)
            && (handle.Some? ==> path in o.disk.files && o.disk.files[path] == handle.value)
  {
    DrainSingle(Delete, path, fit, disk, handle);
    if '/' !in Extension(path) {
      DeleteCoversImageAndThumbnails(path, None);
    }
  }
}
