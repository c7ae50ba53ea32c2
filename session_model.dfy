/** The request session of `processRequest` as a state machine on values: a snapshot of the
    session's closure variables and of every upload in its `map`, and one step function per
    event the session reacts to. The `Session` class is proved to follow these steps. */
module SessionModel {
  import opened Wrappers
  import opened UploadErrors
  import opened Promises
  import opened Uploads
  import opened Operations

  /** The session's `map`: the upload of each field name, seen by value. */
  type Registry = map<string, UploadView>

  /** The closure state of one session. `registry` is `map` (unset until the `map` field is
      accepted) and `result` is the promise `processRequest` returns. */
  datatype Snapshot = Snapshot(
    requestEnded: bool,
    released: bool,
    exitError: Option<UploadError>,
    operations: Option<Json>,
    registry: Option<Registry>,
    result: Promise<Json>,
    parserDestroyed: bool,
    parserFinished: bool)

  const Initial: Snapshot := Snapshot(false, false, None, None, None, Pending, false, false)

  predicate AllConsistent(r: Registry)
  {
    forall k :: k in r ==> r[k].Consistent()
  }

  predicate AllSettled(r: Registry)
  {
    forall k :: k in r ==> r[k].state.Settled()
  }

  /** What every reachable snapshot satisfies: the returned promise is rejected only with the
      exit error, is settled once there is an exit error, is fulfilled only once `map` is
      set, and every upload's promise agrees with its `file`. */
  predicate Inv(s: Snapshot)
  {
    (s.result.Rejected? ==> s.exitError == Some(s.result.error)) &&
    (s.exitError.Some? ==> s.result.Settled()) &&
    (s.result.Fulfilled? ==> s.registry.Some?) &&
    (s.registry.Some? ==> AllConsistent(s.registry.value))
  }

  lemma InitialInv()
    ensures Inv(Initial) && Initial.result.Pending? && Initial.registry.None?
  {
  }

  /** The pre-check on the number of `map` entries; it never fires when no limit is set. */
  predicate ExceedsMaxFiles(count: nat, maxFiles: Option<nat>)
  {
    maxFiles.Some? && count > maxFiles.value
  }

  /** One upload as `exit` and `finish` treat it: rejected with `e` when it has no file. */
  function RejectIfNoFile(v: UploadView, e: UploadError): (v': UploadView)
    ensures v.file.Some? ==> v' == v
    ensures v'.file == v.file
    ensures v.Consistent() ==> v'.Consistent() && v'.state.Settled()
  {
    if v.file.None? then UploadView(v.state.Reject(e), None) else v
  }

  /** Rejects, with `e`, every upload that has no file; uploads with a file are untouched. */
  function RejectMissing(r: Registry, e: UploadError): (r': Registry)
    ensures r'.Keys == r.Keys
    ensures forall k :: k in r && r[k].file.Some? ==> r'[k] == r[k]
    ensures forall k :: k in r && r[k].file.None? && r[k].state.Pending? ==> r'[k] == UploadView(Rejected(e), None)
    ensures forall k :: k in r && r[k].state.Rejected? ==> r'[k] == r[k]
    ensures AllConsistent(r) ==> AllConsistent(r') && AllSettled(r')
  {
    map k | k in r :: RejectIfNoFile(r[k], e)
  }

  /** `exit(e)`. Only the first call has an effect: it records `e`, rejects the returned
      promise with it (a no-op if `map` already fulfilled it), destroys the parser and
      rejects every upload of `map` that has no file yet. */
  function ExitStep(s: Snapshot, e: UploadError): (s': Snapshot)
    ensures s.exitError.Some? ==> s' == s
    ensures s'.exitError == if s.exitError.Some? then s.exitError else Some(e)
    ensures s.exitError.None? ==> s'.result == s.result.Reject(e) && s'.parserDestroyed
    ensures s'.operations == s.operations && s'.requestEnded == s.requestEnded && s'.released == s.released
    ensures s'.registry.Some? == s.registry.Some?
    ensures s'.registry.Some? ==> s'.registry.value.Keys == s.registry.value.Keys
    ensures Inv(s) ==> Inv(s')
    ensures Inv(s) && s.exitError.None? ==>
      s'.result.Settled() && (s'.registry.Some? ==> AllSettled(s'.registry.value))
  {
    if s.exitError.Some? then s
    else
      s.(exitError := Some(e),
         result := s.result.Reject(e),
         parserDestroyed := true,
         registry := if s.registry.Some? then Some(RejectMissing(s.registry.value, e)) else None)
  }

  /** The `operations` field: a parse failure exits; otherwise the parsed value replaces
      the operations. */
  function OperationsFieldStep(s: Snapshot, parsed: Option<Json>): (s': Snapshot)
    ensures parsed.Some? ==> s' == s.(operations := parsed)
    ensures parsed.None? ==> s' == ExitStep(s, InvalidOperationsJson)
    ensures Inv(s) ==> Inv(s')
  {
    if parsed.Some? then s.(operations := parsed) else ExitStep(s, InvalidOperationsJson)
  }

  /** The error a `map` field exits with, if any: the three checks in the order the field
      handler makes them. */
  function MapFieldError(s: Snapshot, parsed: Option<seq<MapEntry>>, maxFiles: Option<nat>): (r: Option<UploadError>)
    ensures r.None? <==> MapAccepted(s, parsed, maxFiles)
    ensures !(s.operations.Some? && Truthy(s.operations.value)) ==> r == Some(MapBeforeOperations)
    ensures s.operations.Some? && Truthy(s.operations.value) && parsed.None? ==> r == Some(InvalidMapJson)
    ensures s.operations.Some? && Truthy(s.operations.value) && parsed.Some? && ExceedsMaxFiles(|parsed.value|, maxFiles)
      ==> r == Some(MaxFiles)
    ensures r == Some(MaxFiles) ==> parsed.Some? && maxFiles.Some? && |parsed.value| > maxFiles.value
  {
    if !(s.operations.Some? && Truthy(s.operations.value)) then Some(MapBeforeOperations)
    else if parsed.None? then Some(InvalidMapJson)
    else if ExceedsMaxFiles(|parsed.value|, maxFiles) then Some(MaxFiles)
    else None
  }

  /** Whether a `map` field passes its three checks: operations are set (and truthy), the
      value parses, and it has no more entries than `maxFiles`. */
  predicate MapAccepted(s: Snapshot, parsed: Option<seq<MapEntry>>, maxFiles: Option<nat>)
  {
    s.operations.Some? && Truthy(s.operations.value) && parsed.Some? &&
    !ExceedsMaxFiles(|parsed.value|, maxFiles)
  }

  /** The registry right after `map` is accepted: one pending upload per field name. */
  function FreshRegistry(es: seq<MapEntry>): (r: Registry)
    ensures r.Keys == Keys(es)
    ensures forall k :: k in r ==> r[k] == UploadView(Pending, None)
  {
    map k | k in Keys(es) :: UploadView(Pending, None)
  }

  /** The `map` field. `created` holds the new `Upload` of each field name. A rejected field
      exits (with MapBeforeOperations, InvalidMapJson or MaxFiles, in that order of checks);
      an accepted one replaces `map`, writes each upload's promise at its paths and resolves
      the returned promise with the operations. */
  function MapFieldStep(s: Snapshot, parsed: Option<seq<MapEntry>>, maxFiles: Option<nat>,
                        created: map<string, Upload>): (s': Snapshot)
    requires MapAccepted(s, parsed, maxFiles) ==> Keys(parsed.value) <= created.Keys
    ensures !MapAccepted(s, parsed, maxFiles) ==>
      s' == ExitStep(s, MapFieldError(s, parsed, maxFiles).value) &&
      s'.operations == s.operations &&
      s'.registry.Some? == s.registry.Some? &&
      (s'.registry.Some? ==> s'.registry.value.Keys == s.registry.value.Keys) &&
      (s'.result.Fulfilled? ==> s'.result == s.result)
    ensures MapAccepted(s, parsed, maxFiles) ==>
      s'.registry == Some(FreshRegistry(parsed.value)) &&
      s'.operations == Some(PlaceSlots(s.operations.value, Slots(parsed.value), created)) &&
      s'.result == s.result.Resolve(s'.operations.value) &&
      s'.exitError == s.exitError
    ensures Inv(s) ==> Inv(s')
  {
    var error := MapFieldError(s, parsed, maxFiles);
    if error.Some? then ExitStep(s, error.value)
    else
      var es := parsed.value;
      var doc := PlaceSlots(s.operations.value, Slots(es), created);
      s.(operations := Some(doc), registry := Some(FreshRegistry(es)), result := s.result.Resolve(doc))
  }

  /** A file part named `name`, whose details would be `f`. Before `map` it exits with
      FilesBeforeMap; an unknown name changes nothing; otherwise that one upload is resolved
      with `f`, and its `file` becomes `f` even if it was already settled. */
  function FileStep(s: Snapshot, name: string, f: FileInfo): (s': Snapshot)
    ensures s.registry.None? ==> s' == ExitStep(s, FilesBeforeMap) && s'.registry.None?
    ensures s.registry.Some? && name !in s.registry.value ==> s' == s
    ensures s.registry.Some? && name in s.registry.value ==>
      var r := s.registry.value;
      s' == s.(registry := Some(r[name := UploadView(r[name].state.Resolve(f), Some(f))]))
    ensures Inv(s) ==> Inv(s')
  {
    if s.registry.None? then ExitStep(s, FilesBeforeMap)
    else if name in s.registry.value then
      var r := s.registry.value;
      s.(registry := Some(r[name := UploadView(r[name].state.Resolve(f), Some(f))]))
    else s
  }

  /** The parser's `finish` event, handled once: every upload without a file is rejected
      with FileMissing. The returned promise is left as it is. */
  function FinishStep(s: Snapshot): (s': Snapshot)
    ensures s.parserFinished ==> s' == s
    ensures s'.parserFinished
    ensures s'.result == s.result && s'.exitError == s.exitError && s'.operations == s.operations
    ensures s'.registry.Some? == s.registry.Some?
    ensures Inv(s) ==> Inv(s')
    ensures Inv(s) && !s.parserFinished && s'.registry.Some? ==> AllSettled(s'.registry.value)
  {
    if s.parserFinished then s
    else
      s.(parserFinished := true,
         registry := if s.registry.Some? then Some(RejectMissing(s.registry.value, FileMissing)) else None)
  }

  /** The request's `close` event: a disconnect unless the request had already ended. */
  function RequestCloseStep(s: Snapshot): (s': Snapshot)
    ensures s.requestEnded ==> s' == s
    ensures !s.requestEnded ==> s' == ExitStep(s, Disconnect)
  {
    if s.requestEnded then s else ExitStep(s, Disconnect)
  }

  /** The events that change the snapshot. (The file streams' own events only touch the
      current stream and the capacitors.) */
  datatype Event =
    | OperationsField(parsedOperations: Option<Json>)
    | MapField(parsedMap: Option<seq<MapEntry>>, created: map<string, Upload>)
    | File(name: string, info: FileInfo)
    | FilesLimit
    | Finish
    | ParserFailed(error: UploadError)
    | ResponseFinish
    | ResponseClose
    | RequestEnd
    | RequestClose

  /** A `map` event's created uploads cover the field names it lists. */
  predicate WellFormed(ev: Event)
  {
    ev.MapField? && ev.parsedMap.Some? ==> Keys(ev.parsedMap.value) <= ev.created.Keys
  }

  function Step(s: Snapshot, ev: Event, maxFiles: Option<nat>): (s': Snapshot)
    requires WellFormed(ev)
    ensures Inv(s) ==> Inv(s')
  {
    match ev
    case OperationsField(parsed) => OperationsFieldStep(s, parsed)
    case MapField(parsed, created) => MapFieldStep(s, parsed, maxFiles, created)
    case File(name, f) => FileStep(s, name, f)
    case FilesLimit => ExitStep(s, MaxFiles)
    case Finish => FinishStep(s)
    case ParserFailed(e) => ExitStep(s, e)
    case ResponseFinish => s.(released := true)
    case ResponseClose => s.(released := true)
    case RequestEnd => s.(requestEnded := true)
    case RequestClose => RequestCloseStep(s)
  }

  /** The snapshot after the events, in order. */
  function Run(s: Snapshot, evs: seq<Event>, maxFiles: Option<nat>): (r: Snapshot)
    requires forall i :: 0 <= i < |evs| ==> WellFormed(evs[i])
    decreases |evs|
  {
    if evs == [] then s else Run(Step(s, evs[0], maxFiles), evs[1..], maxFiles)
  }

  lemma {:induction false} RunAppend(s: Snapshot, a: seq<Event>, b: seq<Event>, maxFiles: Option<nat>)
    requires forall i :: 0 <= i < |a| ==> WellFormed(a[i])
    requires forall i :: 0 <= i < |b| ==> WellFormed(b[i])
    ensures forall i :: 0 <= i < |a + b| ==> WellFormed((a + b)[i])
    ensures Run(s, a + b, maxFiles) == Run(Run(s, a, maxFiles), b, maxFiles)
    decreases |a|
  {
    assert forall i :: 0 <= i < |a + b| ==> WellFormed((a + b)[i]) by {
      forall i | 0 <= i < |a + b| ensures WellFormed((a + b)[i]) {
        if i < |a| { assert (a + b)[i] == a[i]; } else { assert (a + b)[i] == b[i - |a|]; }
      }
    }
    if a == [] {
      assert a + b == b;
    } else {
      assert (a + b)[0] == a[0];
      assert (a + b)[1..] == a[1..] + b;
      RunAppend(Step(s, a[0], maxFiles), a[1..], b, maxFiles);
    }
  }

  /** The invariant holds after any sequence of events, in any order. */
  lemma {:induction false} RunPreservesInv(s: Snapshot, evs: seq<Event>, maxFiles: Option<nat>)
    requires forall i :: 0 <= i < |evs| ==> WellFormed(evs[i])
    requires Inv(s)
    ensures Inv(Run(s, evs, maxFiles))
    decreases |evs|
  {
    if evs != [] {
      RunPreservesInv(Step(s, evs[0], maxFiles), evs[1..], maxFiles);
    }
  }

  /** First error wins: once the session has an exit error, no later event replaces it, and
      the returned promise keeps whatever it was settled with. */
  lemma {:induction false} RunKeepsExitError(s: Snapshot, evs: seq<Event>, maxFiles: Option<nat>)
    requires forall i :: 0 <= i < |evs| ==> WellFormed(evs[i])
    requires s.exitError.Some?
    ensures Run(s, evs, maxFiles).exitError == s.exitError
    decreases |evs|
  {
    if evs != [] {
      StepKeepsSettlement(s, evs[0], maxFiles);
      RunKeepsExitError(Step(s, evs[0], maxFiles), evs[1..], maxFiles);
    }
  }

  /** One event at a time: a settled returned promise and a recorded exit error stay. */
  lemma StepKeepsSettlement(s: Snapshot, ev: Event, maxFiles: Option<nat>)
    requires WellFormed(ev)
    ensures s.result.Settled() ==> Step(s, ev, maxFiles).result == s.result
    ensures s.exitError.Some? ==> Step(s, ev, maxFiles).exitError == s.exitError
  {
    match ev
    case MapField(parsed, created) =>
      if MapAccepted(s, parsed, maxFiles) {
        assert MapFieldStep(s, parsed, maxFiles, created).result == s.result.Resolve(MapFieldStep(s, parsed, maxFiles, created).operations.value);
      }
    case _ =>
  }

  /** The returned promise, once settled, never changes. */
  lemma {:induction false} RunKeepsSettledResult(s: Snapshot, evs: seq<Event>, maxFiles: Option<nat>)
    requires forall i :: 0 <= i < |evs| ==> WellFormed(evs[i])
    requires s.result.Settled()
    ensures Run(s, evs, maxFiles).result == s.result
    decreases |evs|
  {
    if evs != [] {
      StepKeepsSettlement(s, evs[0], maxFiles);
      RunKeepsSettledResult(Step(s, evs[0], maxFiles), evs[1..], maxFiles);
    }
  }

  /** From the start of a request, the returned promise is rejected exactly with the error
      of the first `exit`, whatever events come later. */
  lemma FirstExitDecidesRejection(evs: seq<Event>, k: nat, maxFiles: Option<nat>)
    requires forall i :: 0 <= i < |evs| ==> WellFormed(evs[i])
    requires k <= |evs|
    requires Run(Initial, evs[..k], maxFiles).exitError.Some?
    ensures Run(Initial, evs, maxFiles).exitError == Run(Initial, evs[..k], maxFiles).exitError
    ensures Run(Initial, evs, maxFiles).result.Rejected? ==>
      Run(Initial, evs, maxFiles).result.error == Run(Initial, evs[..k], maxFiles).exitError.value
  {
    assert evs == evs[..k] + evs[k..];
    RunAppend(Initial, evs[..k], evs[k..], maxFiles);
    RunKeepsExitError(Run(Initial, evs[..k], maxFiles), evs[k..], maxFiles);
    RunPreservesInv(Initial, evs, maxFiles);
  }

  /** The returned promise is only ever fulfilled by a `map` field: a request whose `map`
      never arrives gets no operations, even after the parser finishes. */
  lemma {:induction false} FulfilledOnlyByMap(s: Snapshot, evs: seq<Event>, maxFiles: Option<nat>)
    requires forall i :: 0 <= i < |evs| ==> WellFormed(evs[i])
    requires !s.result.Fulfilled?
    requires forall i :: 0 <= i < |evs| ==> !evs[i].MapField?
    ensures !Run(s, evs, maxFiles).result.Fulfilled?
    decreases |evs|
  {
    if evs != [] {
      FulfilledOnlyByMap(Step(s, evs[0], maxFiles), evs[1..], maxFiles);
    }
  }

  /** The fan-out of the first `exit` (and so of `filesLimit`, a parser error and a request
      closed before its end): each pending upload is rejected with the same error, and
      uploads already fulfilled or rejected are untouched. */
  lemma ExitFanOut(s: Snapshot, e: UploadError, k: string)
    requires Inv(s) && s.exitError.None? && s.registry.Some? && k in s.registry.value
    ensures var r, r' := s.registry.value, ExitStep(s, e).registry.value;
      k in r' &&
      (r[k].state.Pending? ==> r'[k] == UploadView(Rejected(e), None)) &&
      (r[k].state.Settled() ==> r'[k] == r[k])
  {
    assert s.registry.value[k].Consistent();
  }

  /** The parser's first `finish` rejects each upload still pending with FileMissing and
      leaves fulfilled and rejected uploads alone. */
  lemma FinishRejectsMissingFiles(s: Snapshot, k: string)
    requires Inv(s) && !s.parserFinished && s.registry.Some? && k in s.registry.value
    ensures var r, r' := s.registry.value, FinishStep(s).registry.value;
      k in r' &&
      (r[k].state.Pending? ==> r'[k] == UploadView(Rejected(FileMissing), None)) &&
      (r[k].state.Settled() ==> r'[k] == r[k])
  {
    assert s.registry.value[k].Consistent();
  }

  /** An accepted `map` field writes the promise of each field's single upload at every
      path listed for that field (so all of a field's paths share one upload), provided the
      listed paths resolve in the operations and none leads into another. */
  lemma MapFieldPlacesUploads(s: Snapshot, parsed: Option<seq<MapEntry>>, maxFiles: Option<nat>,
                              created: map<string, Upload>, i: nat, j: nat)
    requires MapAccepted(s, parsed, maxFiles) && Keys(parsed.value) <= created.Keys
    requires Placeable(s.operations.value, Slots(parsed.value))
    requires i < |parsed.value| && j < |parsed.value[i].paths|
    ensures var s' := MapFieldStep(s, parsed, maxFiles, created);
      var k := parsed.value[i].key;
      k in s'.registry.value && s'.registry.value[k] == UploadView(Pending, None) &&
      GetAt(s'.operations.value, parsed.value[i].paths[j]) == Some(JUpload(created[k]))
  {
    PlacedAtEveryPath(s.operations.value, parsed.value, created, i, j);
  }

  /** An accepted `map` field changes the operations nowhere but at its listed paths. */
  lemma MapFieldLeavesOtherPaths(s: Snapshot, parsed: Option<seq<MapEntry>>, maxFiles: Option<nat>,
                                 created: map<string, Upload>, q: Path)
    requires MapAccepted(s, parsed, maxFiles) && Keys(parsed.value) <= created.Keys
    requires forall t :: 0 <= t < |Slots(parsed.value)| ==> Disjoint(Slots(parsed.value)[t].path, q)
    ensures GetAt(MapFieldStep(s, parsed, maxFiles, created).operations.value, q) == GetAt(s.operations.value, q)
  {
    PlaceSlotsFrame(s.operations.value, Slots(parsed.value), created, q);
  }

  /** Without a `maxFiles` option the entry-count check never fires. */
  lemma NoMaxFilesWithoutLimit(s: Snapshot, parsed: Option<seq<MapEntry>>)
    ensures MapFieldError(s, parsed, None) != Some(MaxFiles)
  {
  }

  /** A `map` field with more entries than `maxFiles`, after truthy operations: the session
      exits with MaxFiles before any upload is created or the operations are resolved; a
      pending returned promise is rejected with MaxFiles. */
  lemma MapFieldExceedingMaxFiles(s: Snapshot, es: seq<MapEntry>, maxFiles: Option<nat>,
                                  created: map<string, Upload>)
    requires s.operations.Some? && Truthy(s.operations.value) && ExceedsMaxFiles(|es|, maxFiles)
    ensures var s' := MapFieldStep(s, Some(es), maxFiles, created);
      s' == ExitStep(s, MaxFiles) &&
      s'.operations == s.operations && s'.registry.Some? == s.registry.Some? &&
      (s'.registry.Some? ==> s'.registry.value.Keys == s.registry.value.Keys) &&
      (s.exitError.None? && s.result.Pending? ==> s'.result == Rejected(MaxFiles))
  {
  }

  /** A `map` field first in the request: the session exits with MapBeforeOperations and no
      upload is created. */
  lemma MapBeforeOperationsCreatesNoUpload(parsed: Option<seq<MapEntry>>, created: map<string, Upload>,
                                           maxFiles: Option<nat>)
    ensures var s := MapFieldStep(Initial, parsed, maxFiles, created);
      s.registry.None? && s.exitError == Some(MapBeforeOperations) && s.result == Rejected(MapBeforeOperations)
  {
  }

  /** A file part after `operations` but before `map`: the session exits with FilesBeforeMap
      and no upload is created. */
  lemma FilesBeforeMapCreatesNoUpload(ops: Json, name: string, f: FileInfo, maxFiles: Option<nat>)
    ensures var s := Run(Initial, [OperationsField(Some(ops)), File(name, f)], maxFiles);
      s.registry.None? && s.exitError == Some(FilesBeforeMap) && s.result == Rejected(FilesBeforeMap)
  {
    var evs := [OperationsField(Some(ops)), File(name, f)];
    var s1 := Step(Initial, evs[0], maxFiles);
    assert evs[1..][1..] == [];
    assert Run(Initial, evs, maxFiles) == Run(s1, evs[1..], maxFiles);
    assert Run(s1, evs[1..], maxFiles) == Run(FileStep(s1, name, f), [], maxFiles);
  }

  /** A request that disconnects after an accepted `map` and before any file: the returned
      promise already holds the operations, and every upload is rejected with Disconnect. */
  lemma DisconnectAfterMap(ops: Json, es: seq<MapEntry>, created: map<string, Upload>, maxFiles: Option<nat>)
    requires Truthy(ops) && !ExceedsMaxFiles(|es|, maxFiles) && Keys(es) <= created.Keys
    ensures var s := Run(Initial, [OperationsField(Some(ops)), MapField(Some(es), created), RequestClose], maxFiles);
      s.result == Fulfilled(PlaceSlots(ops, Slots(es), created)) && s.exitError == Some(Disconnect) &&
      s.registry.Some? && s.registry.value.Keys == Keys(es) &&
      forall k :: k in s.registry.value ==> s.registry.value[k] == UploadView(Rejected(Disconnect), None)
  {
    var evs := [OperationsField(Some(ops)), MapField(Some(es), created), RequestClose];
    assert evs[1..][1..][1..] == [];
    var s1 := Step(Initial, evs[0], maxFiles);
    var s2 := Step(s1, evs[1], maxFiles);
    assert s2.registry == Some(FreshRegistry(es));
    assert Run(Initial, evs, maxFiles) == Run(s1, evs[1..], maxFiles);
    assert Run(s1, evs[1..], maxFiles) == Run(s2, evs[1..][1..], maxFiles);
    assert Run(s2, evs[1..][1..], maxFiles) == Run(RequestCloseStep(s2), [], maxFiles);
  }
}
