/** The errors a GraphQL multipart request session can exit with or hand to an upload. */
module UploadErrors {
  import opened Wrappers

  /** One constructor per error the session raises; the two JSON parse failures are
      `ParseUploadError`s that differ only in the field they name. */
  datatype UploadError =
    | InvalidOperationsJson
    | InvalidMapJson
    | MapBeforeOperations
    | FilesBeforeMap
    | FileMissing
    | MaxFiles
    | MaxFileSize
    | Disconnect
      /** An error emitted by the multipart parser itself (its `error` event). */
    | ParserError(detail: string)
      /** An error emitted by one file part's byte stream. */
    | StreamError(detail: string)

  /** The HTTP status the session attaches to an error it creates, when it attaches one:
      400 for malformed or misordered requests and missing files, 413 for exceeded limits.
      The disconnect error gets no status argument at its construction site; errors that
      come from the parser or a file stream carry none either. */
  function Status(e: UploadError): (r: Option<nat>)
    ensures r.Some? <==> !(e.Disconnect? || e.ParserError? || e.StreamError?)
    ensures r == Some(413) <==> (e == MaxFiles || e == MaxFileSize)
    ensures r.Some? ==> r.value == 400 || r.value == 413
  {
    match e
    case InvalidOperationsJson => Some(400)
    case InvalidMapJson => Some(400)
    case MapBeforeOperations => Some(400)
    case FilesBeforeMap => Some(400)
    case FileMissing => Some(400)
    case MaxFiles => Some(413)
    case MaxFileSize => Some(413)
    case _ => None
  }
}
