/** A single-assignment result cell with JavaScript promise semantics. */
module Promises {
  import opened UploadErrors

  /** The state of a promise; once fulfilled or rejected it never changes again. */
  datatype Promise<T> = Pending | Fulfilled(value: T) | Rejected(error: UploadError)
  {
    predicate Settled() { !Pending? }

    /** `resolve(v)`: fulfils a pending promise and is ignored by a settled one. */
    function Resolve(v: T): (p: Promise<T>)
      ensures p.Settled()
      ensures Pending? ==> p == Fulfilled(v)
      ensures Settled() ==> p == this
    {
      if Pending? then Fulfilled(v) else this
    }

    /** `reject(e)`: rejects a pending promise and is ignored by a settled one. */
    function Reject(e: UploadError): (p: Promise<T>)
      ensures p.Settled()
      ensures Pending? ==> p == Rejected(e)
      ensures Settled() ==> p == this
    {
      if Pending? then Rejected(e) else this
    }
  }
}
