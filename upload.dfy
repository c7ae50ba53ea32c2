/** The per-file objects of a request session: the spill buffer ("capacitor") a file part is
    piped into, the part's byte stream, and the `Upload` cell whose promise the operations
    document receives. */
module Uploads {
  import opened Wrappers
  import opened UploadErrors
  import opened Promises

  /** A spill buffer, seen only through what the session does with it: the error it was
      destroyed with, if any, and how many times it has been destroyed. */
  class Capacitor {
    var error: Option<UploadError>
    var destroyCount: nat

    constructor ()
      ensures error.None? && destroyCount == 0
    {
      error := None;
      destroyCount := 0;
    }

    predicate Destroyed()
      reads this
    {
      destroyCount > 0
    }

    /** `capacitor.destroy(err)`: the first error it is destroyed with is the one it keeps. */
    method Destroy(err: Option<UploadError>)
      modifies this
      ensures Destroyed() && destroyCount == old(destroyCount) + 1
      ensures error == if old(error).None? then err else old(error)
    {
      destroyCount := destroyCount + 1;
      if error.None? {
        error := err;
      }
    }
  }

  /** The byte stream of one file part, as handed over by the multipart parser. */
  class FileStream {
    /** The capacitor the session piped this stream into; null when it was drained instead.
        The stream's `limit` and `error` listeners close over this capacitor. */
    var sink: Capacitor?
    /** Set when the session resumed the stream to discard its bytes. */
    var drained: bool
    /** The error the stream was destroyed with, if it was destroyed. */
    var destroyedWith: Option<UploadError>

    constructor ()
      ensures sink == null && !drained && destroyedWith.None?
    {
      sink := null;
      drained := false;
      destroyedWith := None;
    }

    /** `stream.destroy(e)`: destroying an already destroyed stream has no effect. */
    method Destroy(e: UploadError)
      modifies this
      ensures destroyedWith == if old(destroyedWith).None? then Some(e) else old(destroyedWith)
      ensures sink == old(sink) && drained == old(drained)
    {
      if destroyedWith.None? {
        destroyedWith := Some(e);
      }
    }
  }

  /** The file details an upload resolves with. */
  datatype FileInfo = FileInfo(filename: string, mimetype: string, encoding: string, capacitor: Capacitor)

  /** What can be observed of one upload: its promise and its `file` property. */
  datatype UploadView = UploadView(state: Promise<FileInfo>, file: Option<FileInfo>)
  {
    /** A pending upload has no file yet, and a fulfilled one has a file. */
    predicate Consistent()
    {
      (state.Pending? ==> file.None?) && (state.Fulfilled? ==> file.Some?)
    }
  }

  /** An expected file upload: a promise for its file details plus the `file` property that
      `resolve` writes. */
  class Upload {
    var state: Promise<FileInfo>
    var file: Option<FileInfo>

    function View(): (v: UploadView)
      reads this
    {
      UploadView(state, file)
    }

    constructor ()
      ensures View() == UploadView(Pending, None)
    {
      state := Pending;
      file := None;
    }

    /** `upload.resolve(f)`: always records `f` as the upload's file, even when the promise
        is already settled and so keeps its earlier value. */
    method Resolve(f: FileInfo)
      modifies this
      ensures View() == UploadView(old(state).Resolve(f), Some(f))
      ensures old(View()).Consistent() ==> View().Consistent()
    {
      file := Some(f);
      state := state.Resolve(f);
    }

    /** `upload.reject(e)`: settles a pending upload; the file is left alone. */
    method Reject(e: UploadError)
      modifies this
      ensures View() == UploadView(old(state).Reject(e), old(file))
      ensures old(View()).Consistent() ==> View().Consistent()
    {
      state := state.Reject(e);
    }
  }
}
