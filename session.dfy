/** `processRequest`: the session that turns the events of one GraphQL multipart request
    into an operations document with upload promises in it. Each event handler of the source
    is a method; each is proved to move the session's snapshot by the matching step of
    `SessionModel`, and to do what it does to file streams and capacitors. */
module Middleware {
  import opened Wrappers
  import opened UploadErrors
  import opened Promises
  import opened Uploads
  import opened Operations
  import opened SessionModel

  /** A fresh readable stream over a capacitor's buffered bytes. */
  datatype ReadStream = ReadStream(source: Capacitor)

  /** What each upload of a `map` currently holds. */
  ghost function Views(m: map<string, Upload>): (r: SessionModel.Registry)
    reads m.Values
  {
    map k | k in m :: m[k].View()
  }

  /** The loop of the `map` field handler: a new upload per entry, whose promise is written
      at each of the entry's paths, in order. */
  method PlaceUploads(d0: Json, entries: seq<MapEntry>) returns (m: map<string, Upload>, doc: Json)
    requires DistinctKeys(entries)
    ensures m.Keys == Keys(entries)
    ensures forall k :: k in m ==> fresh(m[k]) && m[k].View() == UploadView(Pending, None)
    ensures forall k, k' :: k in m && k' in m && k != k' ==> m[k] != m[k']
    ensures doc == PlaceSlots(d0, Slots(entries), m)
  {
    m := map[];
    doc := d0;
    var e := 0;
    while e < |entries|
      invariant e <= |entries|
      invariant m.Keys == Keys(entries[..e])
      invariant forall k :: k in m ==> fresh(m[k]) && m[k].View() == UploadView(Pending, None)
      invariant forall k, k' :: k in m && k' in m && k != k' ==> m[k] != m[k']
      invariant doc == PlaceSlots(d0, Slots(entries[..e]), m)
    {
      var key := entries[e].key;
      assert forall i :: 0 <= i < e ==> entries[..e][i].key != key;
      ghost var done := Slots(entries[..e]);
      var u := new Upload();
      var m' := m[key := u];
      PlaceSlotsAgree(d0, done, m, m');
      doc := WritePromise(d0, done, doc, entries[e], m');
      SlotsStep(entries, e);
      m := m';
      e := e + 1;
    }
    assert entries[..e] == entries;
  }

  /** The inner loop: writes the promise of `entry`'s upload at each of its paths. */
  method WritePromise(ghost d0: Json, ghost done: seq<Slot>, doc: Json, entry: MapEntry, m: map<string, Upload>)
    returns (d: Json)
    requires entry.key in m
    requires forall i :: 0 <= i < |done| ==> done[i].key in m
    requires doc == PlaceSlots(d0, done, m)
    ensures d == PlaceSlots(d0, done + EntrySlots(entry), m)
  {
    var paths := entry.paths;
    d := doc;
    var t := 0;
    assert done + EntrySlots(entry)[..t] == done;
    while t < |paths|
      invariant t <= |paths|
      invariant d == PlaceSlots(d0, done + EntrySlots(entry)[..t], m)
    {
      ghost var next := done + EntrySlots(entry)[..t + 1];
      assert next[..|next| - 1] == done + EntrySlots(entry)[..t];
      assert next[|next| - 1] == Slot(entry.key, paths[t]);
      d := SetAt(d, paths[t], JUpload(m[entry.key]));
      t := t + 1;
    }
    assert EntrySlots(entry)[..t] == EntrySlots(entry);
  }

  class Session {
    /** The `maxFiles` option; None when it is not given (no limit). */
    const maxFiles: Option<nat>
    var requestEnded: bool
    var released: bool
    var exitError: Option<UploadError>
    /** The file part being received, if any. */
    var currentStream: FileStream?
    var operations: Option<Json>
    /** `map`: the upload of each field name, unset until the `map` field is accepted. */
    var uploads: Option<map<string, Upload>>
    /** The promise `processRequest` returns. */
    var result: Promise<Json>
    var parserDestroyed: bool
    /** Whether the parser's `finish` (a `once` listener) has run. */
    var parserFinished: bool

    function UploadSet(): (r: set<Upload>)
      reads this
    {
      if uploads.Some? then uploads.value.Values else {}
    }

    /** The uploads of `map` by name, or no uploads while `map` is unset. */
    function UploadMap(): (r: map<string, Upload>)
      reads this
    {
      if uploads.Some? then uploads.value else map[]
    }

    ghost function Registry(): (r: Option<SessionModel.Registry>)
      reads this, UploadSet()
    {
      if uploads.Some? then Some(Views(uploads.value)) else None
    }

    ghost function Snap(): (s: Snapshot)
      reads this, UploadSet()
    {
      Snapshot(requestEnded, released, exitError, operations, Registry(), result, parserDestroyed, parserFinished)
    }

    /** The capacitors of the uploads that have a file. */
    function Capacitors(): (r: set<Capacitor>)
      reads this, UploadSet()
    {
      set u | u in UploadSet() && u.file.Some? :: u.file.value.capacitor
    }

    ghost predicate DistinctCapacitors()
      reads this, UploadSet()
    {
      forall u, w :: u in UploadSet() && w in UploadSet() && u != w && u.file.Some? && w.file.Some? ==>
        u.file.value.capacitor != w.file.value.capacitor
    }

    /** Each field name of `map` has its own upload. */
    predicate DistinctUploads()
      reads this
    {
      uploads.Some? ==>
        forall k, k' :: k in uploads.value && k' in uploads.value && k != k' ==>
          uploads.value[k] != uploads.value[k']
    }

    ghost predicate Valid()
      reads this, UploadSet()
    {
      Inv(Snap()) &&
      (uploads.None? ==> currentStream == null) &&
      DistinctUploads() &&
      DistinctCapacitors()
    }

    /** The current stream is the same object, and is destroyed with the exit error exactly
        when this call made the session exit. */
    twostate predicate StreamFollowsExit()
      reads this, currentStream
    {
      currentStream == old(currentStream) &&
      (currentStream != null ==>
        currentStream.sink == old(currentStream.sink) &&
        currentStream.drained == old(currentStream.drained) &&
        currentStream.destroyedWith ==
          if old(exitError).None? && exitError.Some? && old(currentStream.destroyedWith).None?
          then exitError else old(currentStream.destroyedWith))
    }

    constructor (maxFiles: Option<nat>)
      ensures Valid() && Snap() == Initial
      ensures this.maxFiles == maxFiles && currentStream == null && uploads.None?
    {
      this.maxFiles := maxFiles;
      requestEnded := false;
      released := false;
      exitError := None;
      currentStream := null;
      operations := None;
      uploads := None;
      result := Pending;
      parserDestroyed := false;
      parserFinished := false;
    }

    /** `createReadStream()` of a resolved file: fails with the capacitor's error if it has
        one, otherwise, once released, with the exit error if there is one; otherwise gives
        a new stream over the capacitor. */
    function CreateReadStream(f: FileInfo): (r: Result<ReadStream, UploadError>)
      reads this, f.capacitor
      ensures f.capacitor.error.Some? ==> r == Failure(f.capacitor.error.value)
      ensures f.capacitor.error.None? && released && exitError.Some? ==> r == Failure(exitError.value)
      ensures r.Success? <==> f.capacitor.error.None? && !(released && exitError.Some?)
      ensures r.Success? ==> r.value.source == f.capacitor
    {
      var error := if f.capacitor.error.Some? then f.capacitor.error else if released then exitError else None;
      if error.Some? then Failure(error.value) else Success(ReadStream(f.capacitor))
    }

    /** Rejects with `e` every upload of `map` that has no file. */
    method RejectUploadsWithoutFile(e: UploadError)
      requires uploads.Some?
      modifies UploadSet()
      ensures Views(uploads.value) == RejectMissing(old(Views(uploads.value)), e)
      ensures forall u :: u in UploadSet() ==> u.file == old(u.file)
    {
      var m := uploads.value;
      var todo := m.Values;
      while todo != {}
        invariant todo <= m.Values
        invariant forall k :: k in m ==>
          m[k].View() == if m[k] in todo then old(m[k].View()) else RejectIfNoFile(old(m[k].View()), e)
        decreases todo
      {
        var u :| u in todo;
        if u.file.None? {
          u.Reject(e);
        }
        todo := todo - {u};
      }
      assert Views(m) == RejectMissing(old(Views(m)), e);
    }

    /** `exit(e)`, also the parser's `error` listener. */
    method Exit(e: UploadError)
      requires Valid()
      modifies this, UploadSet(), currentStream
      ensures Valid()
      ensures Snap() == ExitStep(old(Snap()), e)
      ensures uploads == old(uploads)
      ensures StreamFollowsExit()
    {
      if exitError.Some? {
        return;
      }
      ghost var s0 := Snap();
      exitError := Some(e);
      result := result.Reject(e);
      parserDestroyed := true;
      if currentStream != null {
        currentStream.Destroy(e);
      }
      if uploads.Some? {
        assert Views(uploads.value) == s0.registry.value;
        RejectUploadsWithoutFile(e);
      }
      assert Snap() == ExitStep(s0, e);
    }

    /** The `operations` field; `parsed` is what `JSON.parse` made of its value. */
    method OnOperationsField(parsed: Option<Json>)
      requires Valid()
      modifies this, UploadSet(), currentStream
      ensures Valid()
      ensures Snap() == OperationsFieldStep(old(Snap()), parsed)
      ensures uploads == old(uploads)
      ensures StreamFollowsExit()
    {
      if parsed.Some? {
        operations := parsed;
      } else {
        Exit(InvalidOperationsJson);
      }
    }

    /** The `filesLimit` event of the parser. */
    method OnFilesLimit()
      requires Valid()
      modifies this, UploadSet(), currentStream
      ensures Valid()
      ensures Snap() == ExitStep(old(Snap()), MaxFiles)
      ensures uploads == old(uploads)
      ensures StreamFollowsExit()
    {
      Exit(MaxFiles);
    }

    /** The parser's `finish` event, a `once` listener. */
    method OnFinish()
      requires Valid()
      modifies this, UploadSet()
      ensures Valid()
      ensures Snap() == FinishStep(old(Snap()))
      ensures uploads == old(uploads) && currentStream == old(currentStream)
    {
      if parserFinished {
        return;
      }
      ghost var s0 := Snap();
      parserFinished := true;
      if uploads.Some? {
        assert Views(uploads.value) == s0.registry.value;
        RejectUploadsWithoutFile(FileMissing);
      }
      assert Snap() == FinishStep(s0);
    }

    /** The request's `end` event. */
    method OnRequestEnd()
      requires Valid()
      modifies this
      ensures Valid()
      ensures Snap() == old(Snap()).(requestEnded := true)
      ensures uploads == old(uploads) && currentStream == old(currentStream)
    {
      requestEnded := true;
    }

    /** The request's `close` event: a disconnect if the request has not ended. */
    method OnRequestClose()
      requires Valid()
      modifies this, UploadSet(), currentStream
      ensures Valid()
      ensures Snap() == RequestCloseStep(old(Snap()))
      ensures uploads == old(uploads)
      ensures StreamFollowsExit()
    {
      if !requestEnded {
        Exit(Disconnect);
      }
    }

    /** `release`, the listener of both the response's `finish` and its `close`: the first
        call destroys the capacitor of every upload that has a file; later calls do
        nothing. */
    method Release()
      requires Valid()
      modifies this, Capacitors()
      ensures Valid()
      ensures Snap() == old(Snap()).(released := true)
      ensures uploads == old(uploads) && currentStream == old(currentStream)
      ensures forall u :: u in old(UploadSet()) && u.file.Some? ==>
        u.file.value.capacitor.error == old(u.file.value.capacitor.error) &&
        u.file.value.capacitor.destroyCount ==
          old(u.file.value.capacitor.destroyCount) + (if old(released) then 0 else 1)
      ensures exitError.Some? ==> forall f :: CreateReadStream(f).Failure?
    {
      if released {
        return;
      }
      released := true;
      if uploads.Some? {
        var todo := uploads.value.Values;
        while todo != {}
          modifies Capacitors()
          invariant todo <= UploadSet()
          invariant forall u :: u in old(UploadSet()) && u.file.Some? ==>
            u.file.value.capacitor.error == old(u.file.value.capacitor.error) &&
            u.file.value.capacitor.destroyCount ==
              old(u.file.value.capacitor.destroyCount) + (if u in todo then 0 else 1)
          decreases todo
        {
          var u :| u in todo;
          if u.file.Some? {
            u.file.value.capacitor.Destroy(None);
          }
          todo := todo - {u};
        }
      }
    }

    /** The `map` field; `parsed` is what `Object.entries(JSON.parse(value))` made of its
        value (field names are distinct, as an object's keys are). After the three checks,
        a new `Upload` is created per field name and its promise is written at each of that
        name's paths; then the returned promise is resolved with the operations. */
    method OnMapField(parsed: Option<seq<MapEntry>>)
      requires Valid()
      requires parsed.Some? ==> DistinctKeys(parsed.value)
      modifies this, UploadSet(), currentStream
      ensures Valid()
      ensures StreamFollowsExit()
      ensures !MapAccepted(old(Snap()), parsed, maxFiles) ==> uploads == old(uploads)
      ensures MapAccepted(old(Snap()), parsed, maxFiles) ==>
        uploads.Some? && uploads.value.Keys == Keys(parsed.value) &&
        (forall k :: k in uploads.value ==> fresh(uploads.value[k])) &&
        (forall k, k' :: k in uploads.value && k' in uploads.value && k != k' ==>
           uploads.value[k] != uploads.value[k']) &&
        exitError == old(exitError) && currentStream == old(currentStream) &&
        forall u :: u in old(UploadSet()) ==> u.View() == old(u.View())
      ensures Snap() == MapFieldStep(old(Snap()), parsed, maxFiles, UploadMap())
    {
      if !(operations.Some? && Truthy(operations.value)) {
        Exit(MapBeforeOperations);
        return;
      }
      if parsed.None? {
        Exit(InvalidMapJson);
        return;
      }
      var entries := parsed.value;
      if maxFiles.Some? && |entries| > maxFiles.value {
        Exit(MaxFiles);
        return;
      }
      Accept(entries);
    }

    /** The parser's `file` event for a part named `name`. Before `map`, the stream is
        drained and the session exits with FilesBeforeMap. Otherwise the stream becomes the
        current one; a part with no upload of its name is drained and ignored, and a part
        with one is piped into a new capacitor and resolves that upload. */
    method OnFile(name: string, stream: FileStream, filename: string, encoding: string, mimetype: string)
      requires Valid()
      modifies this, UploadSet(), stream
      ensures Valid()
      ensures uploads == old(uploads)
      ensures old(uploads).None? ==>
        Snap() == ExitStep(old(Snap()), FilesBeforeMap) && currentStream == null &&
        stream.drained && stream.sink == old(stream.sink) && stream.destroyedWith == old(stream.destroyedWith)
      ensures old(uploads).Some? && name !in old(uploads.value) ==>
        Snap() == old(Snap()) && currentStream == stream &&
        stream.drained && stream.sink == old(stream.sink) && stream.destroyedWith == old(stream.destroyedWith)
      ensures old(uploads).Some? && name in old(uploads.value) ==>
        currentStream == stream && stream.sink != null && fresh(stream.sink) &&
        stream.sink.error.None? && stream.sink.destroyCount == 0 &&
        stream.drained == old(stream.drained) && stream.destroyedWith == old(stream.destroyedWith) &&
        Snap() == FileStep(old(Snap()), name, FileInfo(filename, mimetype, encoding, stream.sink))
    {
      if uploads.None? {
        stream.drained := true;
        Exit(FilesBeforeMap);
        return;
      }
      currentStream := stream;
      var m := uploads.value;
      if name !in m {
        stream.drained := true;
        return;
      }
      PipeIntoUpload(name, stream, filename, encoding, mimetype);
    }

    /** The part of the `file` listener for a part that has an upload: a new capacitor, the
        stream piped into it, and the upload resolved with the file's details. */
    method PipeIntoUpload(name: string, stream: FileStream, filename: string, encoding: string, mimetype: string)
      requires Valid() && uploads.Some? && name in uploads.value
      modifies UploadSet(), stream
      ensures Valid()
      ensures stream.sink != null && fresh(stream.sink) &&
        stream.sink.error.None? && stream.sink.destroyCount == 0 &&
        stream.drained == old(stream.drained) && stream.destroyedWith == old(stream.destroyedWith)
      ensures Snap() == FileStep(old(Snap()), name, FileInfo(filename, mimetype, encoding, stream.sink))
    {
      var m := uploads.value;
      ghost var s0 := Snap();
      assert forall k :: k in m && k != name ==> m[k] != m[name];
      var capacitor := new Capacitor();
      stream.sink := capacitor;
      var f := FileInfo(filename, mimetype, encoding, capacitor);
      var u := m[name];
      u.Resolve(f);
      assert Views(m) == s0.registry.value[name := UploadView(s0.registry.value[name].state.Resolve(f), Some(f))];
      assert Snap() == FileStep(s0, name, f);
    }

    /** The `end` listener of a file stream: it stops being the current stream. */
    method OnStreamEnd(stream: FileStream)
      requires Valid()
      modifies this
      ensures Valid()
      ensures Snap() == old(Snap()) && uploads == old(uploads)
      ensures currentStream == if old(currentStream) == stream then null else old(currentStream)
    {
      if currentStream == stream {
        currentStream := null;
      }
    }

    /** The `limit` listener of a piped file stream (a drained one has none): the stream
        stops being the current one and its capacitor is destroyed with MaxFileSize, so that
        reading the file fails with that error unless the capacitor already had one. */
    method OnStreamLimit(stream: FileStream)
      requires Valid()
      modifies this, stream.sink
      ensures Valid()
      ensures Snap() == old(Snap()) && uploads == old(uploads)
      ensures stream.sink == null ==> currentStream == old(currentStream)
      ensures stream.sink != null ==>
        currentStream == (if old(currentStream) == stream then null else old(currentStream)) &&
        stream.sink.error == (if old(stream.sink.error).None? then Some(MaxFileSize) else old(stream.sink.error)) &&
        stream.sink.destroyCount == old(stream.sink.destroyCount) + 1
      ensures stream.sink != null ==> forall f: FileInfo :: f.capacitor == stream.sink ==>
        CreateReadStream(f) == Failure(stream.sink.error.value)
    {
      var sink := stream.sink;
      if sink != null {
        if currentStream == stream {
          currentStream := null;
        }
        sink.Destroy(Some(MaxFileSize));
      }
    }

    /** The `error` listener of a piped file stream (a drained one ignores errors): the stream
        stops being the current one and its capacitor is destroyed with the exit error if the
        session has exited, else with the stream's own error. */
    method OnStreamError(stream: FileStream, error: UploadError)
      requires Valid()
      modifies this, stream.sink
      ensures Valid()
      ensures Snap() == old(Snap()) && uploads == old(uploads)
      ensures stream.sink == null ==> currentStream == old(currentStream)
      ensures stream.sink != null ==>
        currentStream == (if old(currentStream) == stream then null else old(currentStream)) &&
        stream.sink.error ==
          (if old(stream.sink.error).Some? then old(stream.sink.error)
           else if exitError.Some? then exitError else Some(error)) &&
        stream.sink.destroyCount == old(stream.sink.destroyCount) + 1
      ensures stream.sink != null ==> forall f: FileInfo :: f.capacitor == stream.sink ==>
        CreateReadStream(f) == Failure(stream.sink.error.value)
    {
      var sink := stream.sink;
      if sink != null {
        if currentStream == stream {
          currentStream := null;
        }
        sink.Destroy(if exitError.Some? then exitError else Some(error));
      }
    }

    /** The accepted `map` field: new uploads replace `map`, their promises are written into
        the operations, and the returned promise is resolved with them. */
    method Accept(entries: seq<MapEntry>)
      requires Valid()
      requires DistinctKeys(entries) && MapAccepted(Snap(), Some(entries), maxFiles)
      modifies this
      ensures Valid()
      ensures uploads.Some? && uploads.value.Keys == Keys(entries)
      ensures forall k :: k in uploads.value ==> fresh(uploads.value[k])
      ensures forall k, k' :: k in uploads.value && k' in uploads.value && k != k' ==>
        uploads.value[k] != uploads.value[k']
      ensures exitError == old(exitError) && currentStream == old(currentStream)
      ensures Snap() == MapFieldStep(old(Snap()), Some(entries), maxFiles, UploadMap())
    {
      ghost var s0 := Snap();
      var m, doc := PlaceUploads(operations.value, entries);
      assert Views(m) == FreshRegistry(entries);
      uploads := Some(m);
      operations := Some(doc);
      result := result.Resolve(doc);
      assert Registry() == Some(FreshRegistry(entries));
      assert Snap() == MapFieldStep(s0, Some(entries), maxFiles, m);
      assert DistinctCapacitors() by {
        assert forall u :: u in UploadSet() ==> u.file.None?;
      }
    }
  }
}
