# graphql-upload `processRequest`, modelled in Dafny

This project models the session that `processRequest` runs for one GraphQL multipart request
(`src/middleware.mjs`). The session reacts to the events of a multipart parser, of the HTTP
request and of the HTTP response:

- the `operations` and `map` fields;
- file parts;
- `filesLimit`, `finish` and `error` from the parser;
- `end` and `close` from the request;
- `finish` and `close` from the response.

From these it builds the operations document, with one `Upload` promise written at every path
the `map` field lists. Each handler updates a few closure variables: `requestEnded`,
`released`, `exitError`, `currentStream`, `operations` and `map`. It also settles the per-file
`Upload` promises.

Layout:

- `errors.dfy` (`UploadErrors`): the errors the session raises and their HTTP statuses.
- `promise.dfy` (`Promises`): a promise cell that settles once, as a JavaScript promise does.
- `upload.dfy` (`Uploads`): classes for the `Upload` cell, the spill buffer a file is piped into (`Capacitor`), and a file part's byte stream (`FileStream`).
- `operations.dfy` (`Operations`): the operations document as a JSON tree, `operationsPath.set` as `SetAt`, and the placement of upload promises at the `map` paths.
- `session_model.dfy` (`SessionModel`): an observable snapshot of the session, one step function per event, the session invariant `Inv`, and lemmas about runs of events.
- `session.dfy` (`Middleware`): the `Session` class with one method per event. Each method is proved to move `Snap()` exactly as the matching step function does. Each method also states what it does to the current stream, the file streams and the capacitors.

The session's calls into other libraries become parameters of the event methods:

- `JSON.parse` of the `operations` field becomes an `Option<Json>`.
- `Object.entries(JSON.parse(...))` of the `map` field becomes an `Option<seq<MapEntry>>`.
- The parser's file details are passed in as plain values.

## Model

| member | source | states |
|---|---|---|
| UploadErrors.Status | src/middleware.mjs:171-328 | Malformed or misordered requests and a missing file get 400; MaxFiles and MaxFileSize get 413; a disconnect, a parser error and a stream error get no status. |
| Promises.Promise.Resolve | src/middleware.mjs:55-76 | Resolving fulfils a pending promise with the value; a settled promise keeps its state. |
| Promises.Promise.Reject | src/middleware.mjs:55-76 | Rejecting settles a pending promise with the error; a settled promise keeps its state. |
| Uploads.Capacitor.constructor | src/middleware.mjs:244 | A new capacitor has no error and has not been destroyed. |
| Uploads.Capacitor.Destroy | src/middleware.mjs:254-266 | Each destroy is counted; the capacitor keeps the first error it was destroyed with. |
| Uploads.FileStream.Destroy | src/middleware.mjs:138 | A stream keeps the first error it is destroyed with; its capacitor and drained state are untouched. |
| Uploads.Upload.constructor | src/middleware.mjs:47-76 | A new upload is pending and has no file. |
| Uploads.Upload.Resolve | src/middleware.mjs:63-66 | `file` becomes the given details even when the promise is already settled; the promise is fulfilled only if it was pending; consistency of promise and file is kept. |
| Uploads.Upload.Reject | src/middleware.mjs:75 | Only a pending promise is rejected; `file` is unchanged. |
| Operations.SetAtGetAt | src/middleware.mjs:215 | After a write at a path that resolves, the written value is read back at that path. |
| Operations.SetAtUnresolved | src/middleware.mjs:215 | A write at a path that does not resolve leaves the document unchanged. |
| Operations.SetAtFrame | src/middleware.mjs:215 | A write at one path is invisible at every disjoint path, both for reads and for whether that path resolves. |
| Operations.PlaceSlotsFrame | src/middleware.mjs:211-216 | Writing all the `map` paths leaves every path disjoint from them as it was. |
| Operations.PlacedAtEveryPath | src/middleware.mjs:211-216 | After all the writes, each listed path of each entry holds the promise of that entry's upload, provided the paths resolve and none leads into another. |
| SessionModel.InitialInv | src/middleware.mjs:105-111 | The session starts with nothing ended, released or set, the returned promise pending, and the invariant holding. |
| SessionModel.RejectMissing | src/middleware.mjs:140-142 | Every upload without a file is rejected with the error; uploads with a file and uploads already rejected are unchanged; all are settled afterwards. |
| SessionModel.ExitStep | src/middleware.mjs:130-146 | A second exit changes nothing. The first one records its error, rejects a pending returned promise with it, destroys the parser and settles every upload. The invariant is kept. |
| SessionModel.OperationsFieldStep | src/middleware.mjs:166-178 | A value that parses replaces the operations; one that does not exits with InvalidOperationsJson. |
| SessionModel.MapFieldError | src/middleware.mjs:180-208 | The three checks, in order: falsy or missing operations gives MapBeforeOperations, unparsable JSON gives InvalidMapJson, more entries than `maxFiles` gives MaxFiles. Each error is given exactly when its check is the first to fail, and there is no error exactly when the field is accepted. |
| SessionModel.FreshRegistry | src/middleware.mjs:210-212 | There is exactly one pending upload with no file per field name of the map. |
| SessionModel.MapFieldStep | src/middleware.mjs:179-219 | A rejected map exits and changes neither the operations nor the set of uploads. An accepted one installs the fresh uploads, writes their promises at the listed paths and resolves the returned promise with the result. |
| SessionModel.FileStep | src/middleware.mjs:223-293 | Before `map` the session exits with FilesBeforeMap. An unknown field name changes nothing. A known one resolves that one upload and sets its file even if it is already settled. |
| SessionModel.FinishStep | src/middleware.mjs:301-311 | The first `finish` settles every upload by rejecting those without a file with FileMissing. The returned promise, exit error and operations are untouched, and a later `finish` changes nothing. |
| SessionModel.RequestCloseStep | src/middleware.mjs:322-329 | A `close` after `end` changes nothing; before `end` it is an exit with Disconnect. |
| SessionModel.Step | src/middleware.mjs:164-329 | Every event, in any state, keeps the session invariant. |
| SessionModel.RunPreservesInv | src/middleware.mjs:99-332 | The invariant holds after any sequence of events in any order. |
| SessionModel.StepKeepsSettlement | src/middleware.mjs:130-134 | No event changes a settled returned promise or a recorded exit error. |
| SessionModel.RunKeepsExitError | src/middleware.mjs:130-132 | Once there is an exit error, no later sequence of events replaces it. |
| SessionModel.RunKeepsSettledResult | src/middleware.mjs:134 | Once the returned promise is settled, no later sequence of events changes it. |
| SessionModel.FirstExitDecidesRejection | src/middleware.mjs:130-134 | From the start of a request, the final exit error is the error of the first exit, and a rejected returned promise carries exactly that error. |
| SessionModel.FulfilledOnlyByMap | src/middleware.mjs:218 | Without a `map` field the returned promise is never fulfilled, even after the parser finishes. |
| SessionModel.ExitFanOut | src/middleware.mjs:140-142 | The first exit rejects each pending upload with its own error and leaves fulfilled and rejected uploads untouched. |
| SessionModel.FinishRejectsMissingFiles | src/middleware.mjs:305-310 | The first `finish` rejects each pending upload with FileMissing and leaves settled uploads untouched. |
| SessionModel.MapFieldPlacesUploads | src/middleware.mjs:210-216 | After an accepted `map`, each listed path of a field holds that field's single upload, which is pending, provided the listed paths resolve and none leads into another. |
| SessionModel.MapFieldLeavesOtherPaths | src/middleware.mjs:214-215 | An accepted `map` changes the operations only at its listed paths. |
| SessionModel.MapFieldExceedingMaxFiles | src/middleware.mjs:200-208 | A parsed `map` with more entries than `maxFiles`, after truthy operations, is an exit with MaxFiles. The operations and the set of uploads stay as they were and no upload is created; as with any first exit, pending uploads of an earlier `map` are rejected, and a pending returned promise is rejected with MaxFiles. |
| SessionModel.NoMaxFilesWithoutLimit | src/middleware.mjs:202 | Without a `maxFiles` option the entry-count check never fires. |
| SessionModel.MapBeforeOperationsCreatesNoUpload | src/middleware.mjs:180-186 | A `map` field first in the request rejects the returned promise with MapBeforeOperations and creates no upload. |
| SessionModel.FilesBeforeMapCreatesNoUpload | src/middleware.mjs:224-235 | A file part after `operations` but before `map` rejects the returned promise with FilesBeforeMap and creates no upload. |
| SessionModel.DisconnectAfterMap | src/middleware.mjs:218 | If the request disconnects after an accepted `map` and before any file part, the returned promise still holds the operations, and every upload is rejected with Disconnect. |
| Middleware.PlaceUploads | src/middleware.mjs:210-216 | The loop creates one new, pending upload per field name, distinct for distinct names, and writes their promises exactly as the placement function does. |
| Middleware.WritePromise | src/middleware.mjs:214-215 | The inner loop writes one upload's promise at each of its paths, in order. |
| Middleware.Session.constructor | src/middleware.mjs:105-111 | A new session is in the initial snapshot, with no current stream and no `map`. |
| Middleware.Session.CreateReadStream | src/middleware.mjs:277-282 | Reading fails with the capacitor's error if it has one; otherwise, once released, it fails with the exit error if there is one; otherwise it succeeds with a stream over that capacitor. |
| Middleware.Session.RejectUploadsWithoutFile | src/middleware.mjs:140-142 | The loop over the uploads rejects exactly those without a file, with the given error, and touches no file. |
| Middleware.Session.Exit | src/middleware.mjs:130-146 | Moves the session by the exit step and destroys the current stream with the error when this call is the first exit. The parser's `error` listener is this method. |
| Middleware.Session.OnOperationsField | src/middleware.mjs:166-178 | Moves the session by the `operations` step. |
| Middleware.Session.OnMapField | src/middleware.mjs:179-219 | Moves the session by the `map` step; an accepted map installs fresh, pairwise distinct uploads for exactly its field names; a rejected one leaves `map` as it was. Uploads of an earlier `map` are left untouched. The current stream is destroyed only by an exit this call makes, and is otherwise unchanged. |
| Middleware.Session.Accept | src/middleware.mjs:210-218 | The accepted map's uploads are new and distinct, the exit error and current stream are untouched, and the session moves by the `map` step. |
| Middleware.Session.OnFile | src/middleware.mjs:223-293 | Before `map` the stream is drained, not destroyed, and the session exits with FilesBeforeMap. No other stream is touched. An unknown name makes the stream current and drained with nothing else changed. A known name makes the stream current, pipes it into a new, error-free capacitor, and moves the session by the file step. |
| Middleware.Session.PipeIntoUpload | src/middleware.mjs:242-287 | A new capacitor is created for the stream and the named upload is resolved with details holding it; other uploads are unchanged. |
| Middleware.Session.OnStreamEnd | src/middleware.mjs:238-240 | The stream stops being the current stream if it was; nothing else changes. |
| Middleware.Session.OnStreamLimit | src/middleware.mjs:251-260 | A piped stream stops being current and its capacitor is destroyed with MaxFileSize; reading that file then fails with the capacitor's first error. |
| Middleware.Session.OnStreamError | src/middleware.mjs:262-267 | A piped stream stops being current and its capacitor is destroyed with the exit error if there is one, else with the stream's error; reading that file then fails. |
| Middleware.Session.OnFilesLimit | src/middleware.mjs:295-299 | Moves the session by an exit with MaxFiles. |
| Middleware.Session.OnFinish | src/middleware.mjs:301-311 | Moves the session by the `finish` step, once. |
| Middleware.Session.Release | src/middleware.mjs:155-162 | The first call destroys the capacitor of every upload with a file exactly once; later calls destroy nothing. After release with an exit error, every read fails. |
| Middleware.Session.OnRequestEnd | src/middleware.mjs:318-320 | Records that the request ended. |
| Middleware.Session.OnRequestClose | src/middleware.mjs:322-329 | Moves the session by the request `close` step. |

## Left out

- Multipart byte parsing by Busboy, and its field, file-size and file-count accounting. The model has `filesLimit` and the stream `limit` as events instead.
- fs-capacitor buffering, spilling to disk and its read streams. A capacitor is a cell holding its first error and a destroy count.
- `pipe`, `unpipe` and `resume` on the request and the file streams are not modelled, apart from a stream's `drained` flag. The capacitor's own `error` listener is left out too, because all it does is this plumbing.
- `JSON.parse` and `Object.entries` are foreign calls: their results are parameters. Field names coming from an object are assumed distinct.
- object-path internals are not modelled: splitting a path at dots, creating missing intermediate containers, extending an array past its end, and writing a non-numeric key on an array. `SetAt` writes only at paths that resolve and otherwise leaves the document unchanged.
- Middleware.Session.Accept: `map`'s promise placement is proved equal to the placement function for any paths. That every path then holds its upload is proved only for paths that resolve and do not lead into one another (`Placeable`).
- The resolved operations document is a value in the snapshot, while in the source it is the same object later writes would mutate. In the source nothing writes to it after `map` only because the parser accepts at most two fields (`fields: 2`, `src/middleware.mjs:117`). The model accepts a second `map` event: it writes the new placement into `operations` and leaves the already resolved value in the returned promise unchanged.
- Middleware.Session.OnMapField: only `map` values whose entries are lists of paths are modelled. For an entry whose value is not iterable (a number, `null`, `true`, an object), the source throws inside the loop at `src/middleware.mjs:214`. By then `map` is partly built and the returned promise is never resolved. The model has no such outcome.
- Numbers in the document are integers. Floating point is not modelled.
- The Koa and Express adapters (`src/middleware.mjs:358-417`), the `.catch` guard against unhandled rejections, and the error message texts are not modelled.
- Fields other than `operations` and `map` are ignored by the source's `switch`; the model has no event for them.
- No error is raised when `operations` or `map` never arrives. The source then never settles the returned promise. In the model, `FulfilledOnlyByMap` proves that it is never fulfilled, and the invariant `Inv` (kept by `RunPreservesInv`) rules out a rejection without an exit error.
- UploadErrors.Status: the disconnect error's construction site (`src/middleware.mjs:325-327`) passes no status, so none is given here. The error classes themselves come from `./errors`, which is not part of this model. Any status that class sets itself, such as 499, is not captured.
- Middleware.Session.CreateReadStream: after release with no exit error, the source does not refuse a read. It calls the destroyed capacitor, and the model returns a stream over it; what fs-capacitor then does is not part of this model.
- `once` listeners: only the parser's `finish` has a flag. `exit` and `release` guard themselves, and a repeated `filesLimit`, request `end` or request `close` would change nothing even if its listener ran again. Events that the parser would not emit after it is destroyed are still allowed, and the invariants hold for any order of events.
- SessionModel.Step: a second parser `error` is a no-op here. In the source the `once` listener at `src/middleware.mjs:313` is gone by then, so the emitter throws that error instead.
