/** The background unseal: started by a command, run by the event task, its key fetched by a later command
    (core/cmd_interface/cmd_background_handler.c, core/system/event_task.c). */
module CmdBackground {
  import opened Bytes
  import opened Wrappers

  // attestation_cmd_status
  const SUCCESS: nat := 0
  const RUNNING: nat := 1
  const FAILURE: nat := 2
  const NONE_STARTED: nat := 4
  const TASK_NOT_RUNNING: nat := 5
  const INTERNAL_ERROR: nat := 7

  const KEY_LENGTH: nat := 32

  /** CMD_BACKGROUND_STATUS: the low byte is the status, the rest the low 24 bits of the error code. */
  function PackStatus(status: byte, error: nat): nat {
    error % 0x100_0000 * 256 + status
  }

  /** No packed error can be read as success, whatever the error code. */
  lemma PackedErrorIsNotSuccess(status: byte, error: nat)
    requires status != SUCCESS
    ensures PackStatus(status, error) != SUCCESS && PackStatus(status, error) % 256 == status
    ensures PackStatus(status, error) / 256 == error % 0x100_0000 && PackStatus(status, error) < 0x1_0000_0000
  {
    assert PackStatus(status, error) / 256 == error % 0x100_0000;
  }

  // The state shared by commands and the event task

  /** What the event task is doing: it runs one event at a time. */
  datatype Task =
    | NoTask
    | Idle
    | OtherEvent                    // preparing, another event, or winding down
    | Unsealing(request: seq<byte>) // an unseal was submitted and has not returned
    | Storing(request: seq<byte>, result: Result<seq<byte>, nat>) // it has returned, and its status is not yet stored

  datatype Success = Success(request: seq<byte>, key: seq<byte>)

  /** A key given to a command, and how many unseals had succeeded by then. */
  datatype HandOut = HandOut(key: seq<byte>, successes: nat)

  datatype State = State(
    task: Task,
    status: nat,
    key: seq<byte>,
    writes: seq<nat>,          // error statuses that were decided on and are yet to be stored
    succeeded: seq<Success>,   // history: each successful unseal and the key it returned
    handedOut: seq<HandOut>)   // history: each key given to a command

  datatype Step =
    | TaskStarts
    | OtherStarts
    | OtherEnds
    | UnknownAction(error: nat)             // the event task runs an action it does not know
    | Start(request: seq<byte>)             // unseal_start, accepted
    | StartNotNotified(write: Option<nat>)  // unseal_start whose notification fails after the status was set
    | StartRefused(write: Option<nat>)      // unseal_start that never gets the event context
    | StoreWrite(k: nat)                    // a failed submission stores its status
    | WriteKey(bytes: seq<byte>)            // the running unseal touches the key buffer
    | Return(result: Result<seq<byte>, nat>)
    | StoreStatus
    | Query(room: nat)                      // unseal_result

  function Init(): State {
    State(NoTask, NONE_STARTED, seq(KEY_LENGTH, _ => 0), [], [], [])
  }

  /** A status stored for a submission that failed, or for an action the event task does not know. */
  ghost predicate ErrorStatus(w: nat) {
    exists e: nat :: w == PackStatus(TASK_NOT_RUNNING, e) || w == PackStatus(INTERNAL_ERROR, e)
  }

  ghost predicate Enabled(s: State, step: Step) {
    match step
    case TaskStarts => s.task == NoTask
    case OtherStarts => s.task == Idle
    case OtherEnds => s.task == OtherEvent
    case UnknownAction(_) => s.task == OtherEvent
    case Start(_) => s.task == Idle
    case StartNotNotified(w) => s.task == Idle && (w.Some? ==> ErrorStatus(w.value))
    case StartRefused(w) => w.Some? ==> ErrorStatus(w.value)
    case StoreWrite(k) => k < |s.writes|
    case WriteKey(bytes) => s.task.Unsealing? && |bytes| == KEY_LENGTH
    case Return(result) => s.task.Unsealing? && (result.Ok? ==> |result.value| == KEY_LENGTH)
    case StoreStatus => s.task.Storing?
    case Query(_) => true
  }

  function Next(s: State, step: Step): State {
    match step
    case TaskStarts => s.(task := OtherEvent)
    case OtherStarts => s.(task := OtherEvent)
    case OtherEnds => s.(task := Idle)
    case UnknownAction(e) => if s.status == RUNNING then AddWrite(s, Some(PackStatus(INTERNAL_ERROR, e))) else s
    case Start(request) => s.(task := Unsealing(request), status := RUNNING)
    case StartNotNotified(w) => AddWrite(s.(status := RUNNING), w)
    case StartRefused(w) => AddWrite(s, w)
    case StoreWrite(k) =>
      if k < |s.writes| then s.(status := s.writes[k], writes := s.writes[..k] + s.writes[k + 1..]) else s
    case WriteKey(bytes) => s.(key := bytes)
    case Return(result) =>
      if !s.task.Unsealing? then s
      else s.(task := Storing(s.task.request, result), key := if result.Ok? then result.value else s.key)
    case StoreStatus =>
      if !s.task.Storing? then s
      else if s.task.result.Ok? then
        s.(status := SUCCESS, task := OtherEvent,
           succeeded := s.succeeded + [Success(s.task.request, s.task.result.value)])
      else s.(status := PackStatus(FAILURE, s.task.result.error), task := OtherEvent)
    case Query(room) =>
      if s.status == SUCCESS && room >= KEY_LENGTH then
        s.(status := NONE_STARTED, handedOut := s.handedOut + [HandOut(s.key, |s.succeeded|)])
      else s
  }

  function AddWrite(s: State, w: Option<nat>): State {
    if w.Some? then s.(writes := s.writes + [w.value]) else s
  }

  // Safety

  /** Success is only ever reported when no unseal is running and the key buffer holds the key that the latest
      successful unseal returned, which has not been handed out. */
  ghost predicate Inv(s: State) {
    && (s.status == SUCCESS ==>
          && !s.task.Unsealing? && !s.task.Storing?
          && s.succeeded != [] && s.key == s.succeeded[|s.succeeded| - 1].key
          && (forall k :: 0 <= k < |s.handedOut| ==> s.handedOut[k].successes < |s.succeeded|))
    && (s.task.Storing? && s.task.result.Ok? ==> s.key == s.task.result.value)
    && (forall k :: 0 <= k < |s.writes| ==> ErrorStatus(s.writes[k]))
    && HandedOutOk(s) && |s.key| == KEY_LENGTH
  }

  /** Each hand-out is the key that the then latest success returned, and no two are of the same success. */
  predicate HandedOutOk(s: State) {
    && (forall k :: 0 <= k < |s.handedOut| ==>
          var h := s.handedOut[k];
          1 <= h.successes <= |s.succeeded| && h.key == s.succeeded[h.successes - 1].key && |h.key| == KEY_LENGTH)
    && (forall j, k :: 0 <= j < k < |s.handedOut| ==> s.handedOut[j].successes < s.handedOut[k].successes)
  }

  lemma ErrorIsNotSuccess(w: nat)
    requires ErrorStatus(w)
    ensures w != SUCCESS
  {
    var e: nat :| w == PackStatus(TASK_NOT_RUNNING, e) || w == PackStatus(INTERNAL_ERROR, e);
    PackedErrorIsNotSuccess(TASK_NOT_RUNNING, e);
    PackedErrorIsNotSuccess(INTERNAL_ERROR, e);
  }

  lemma UnknownActionIsError(e: nat)
    ensures ErrorStatus(PackStatus(INTERNAL_ERROR, e))
  {
  }

  lemma StepKeepsInv(s: State, step: Step)
    requires Inv(s) && Enabled(s, step)
    ensures Inv(Next(s, step))
  {
    hide PackStatus, ErrorStatus;
    match step {
      case StoreWrite(k) => ErrorIsNotSuccess(s.writes[k]);
      case UnknownAction(e) => assert ErrorStatus(PackStatus(INTERNAL_ERROR, e)) by { UnknownActionIsError(e); }
      case StoreStatus => StoreStatusKeepsInv(s);
      case _ =>
    }
  }

  lemma StoreStatusKeepsInv(s: State)
    requires Inv(s) && s.task.Storing?
    ensures Inv(Next(s, StoreStatus))
  {
    hide ErrorStatus, PackStatus;
    if s.task.result.Err? {
      PackedErrorIsNotSuccess(FAILURE, s.task.result.error);
    }
    var s' := Next(s, StoreStatus);
    assert forall k :: 0 <= k < |s.succeeded| ==> s'.succeeded[k] == s.succeeded[k];
    assert forall k :: 0 <= k < |s.handedOut| ==> s.handedOut[k].successes <= |s.succeeded|;
  }

  ghost predicate IsRun(s: State, steps: seq<Step>)
    decreases |steps|
  {
    steps == [] || (Enabled(s, steps[0]) && IsRun(Next(s, steps[0]), steps[1..]))
  }

  function After(s: State, steps: seq<Step>): State
    decreases |steps|
  {
    if steps == [] then s else After(Next(s, steps[0]), steps[1..])
  }

  lemma {:induction false} RunKeepsInv(s: State, steps: seq<Step>)
    requires Inv(s) && IsRun(s, steps)
    ensures Inv(After(s, steps))
    decreases |steps|
  {
    hide Inv, Enabled;
    if steps != [] {
      StepKeepsInv(s, steps[0]);
      RunKeepsInv(Next(s, steps[0]), steps[1..]);
    }
  }

  /** Over every interleaving of starts, executions and queries: each key handed out is the one that the latest
      completed successful unseal returned, no success is handed out twice, and no key is handed out while an unseal
      runs. */
  lemma EveryRun(steps: seq<Step>)
    requires IsRun(Init(), steps)
    ensures HandedOutOk(After(Init(), steps))
    ensures Successes(After(Init(), steps)) == Returned(steps, [])
    ensures forall room :: var s := After(Init(), steps);
              Next(s, Query(room)).handedOut != s.handedOut ==>
                !s.task.Unsealing? && !s.task.Storing? && s.succeeded != []
                && Next(s, Query(room)).handedOut
                   == s.handedOut + [HandOut(s.succeeded[|s.succeeded| - 1].key, |s.succeeded|)]
  {
    RunKeepsInv(Init(), steps);
    SuccessesAreReturned(Init(), steps, []);
    assert Successes(Init()) == [];
  }

  /** What the steps alone say about successes: each key returned, with the request that was started last. */
  function Returned(steps: seq<Step>, request: seq<byte>): seq<Success>
    decreases |steps|
  {
    if steps == [] then []
    else if steps[0].Start? then Returned(steps[1..], steps[0].request)
    else if steps[0].Return? && steps[0].result.Ok? then
      [Success(request, steps[0].result.value)] + Returned(steps[1..], request)
    else Returned(steps[1..], request)
  }

  /** The successes of a state, including the one whose status is not yet stored. */
  function Successes(s: State): seq<Success> {
    s.succeeded + if s.task.Storing? && s.task.result.Ok? then [Success(s.task.request, s.task.result.value)] else []
  }

  /** The recorded successes are exactly the keys that the run's unseals returned, each for the request it was
      started with, in order. */
  lemma {:induction false} SuccessesAreReturned(s: State, steps: seq<Step>, request: seq<byte>)
    requires IsRun(s, steps) && (s.task.Unsealing? ==> s.task.request == request)
    ensures Successes(After(s, steps)) == Successes(s) + Returned(steps, request)
    decreases |steps|
  {
    if steps != [] {
      SuccessesAreReturned(Next(s, steps[0]), steps[1..], if steps[0].Start? then steps[0].request else request);
    }
  }

  // What a query reports

  /** The steps that set the status, and to what: 1 while an accepted unseal runs; then 0, or 2 with the low 24 bits of
      the error it returned; 4 at first and after the key was handed out; 5 or 7 with an error for a failed request. */
  lemma EachStatus(s: State, step: Step)
    requires Inv(s) && Enabled(s, step)
    ensures Init().status == 4
    ensures step.Start? || step.StartNotNotified? ==> Next(s, step).status == 1
    ensures step.StoreStatus? && s.task.result.Ok? ==> Next(s, step).status == 0
    ensures step.StoreStatus? && s.task.result.Err? ==>
              Next(s, step).status == s.task.result.error % 0x100_0000 * 256 + 2
    ensures step.StoreWrite? ==> Next(s, step).status % 256 in {5, 7}
    ensures step.Query? && s.status == 0 && step.room >= 32 ==> Next(s, step).status == 4
    ensures !SetsStatus(s, step) ==> Next(s, step).status == s.status
  {
    if step.StoreWrite? {
      var w := s.writes[step.k];
      var e: nat :| w == PackStatus(TASK_NOT_RUNNING, e) || w == PackStatus(INTERNAL_ERROR, e);
      PackedErrorIsNotSuccess(TASK_NOT_RUNNING, e);
      PackedErrorIsNotSuccess(INTERNAL_ERROR, e);
    }
  }

  predicate SetsStatus(s: State, step: Step) {
    || step.Start? || step.StartNotNotified? || step.StoreStatus? || step.StoreWrite?
    || (step.Query? && s.status == 0 && step.room >= 32)
  }

  ghost predicate NoneSets(s: State, steps: seq<Step>)
    decreases |steps|
  {
    steps == [] || (!SetsStatus(s, steps[0]) && NoneSets(Next(s, steps[0]), steps[1..]))
  }

  /** So over every run, a query reports what the last such step set: RUNNING from an accepted start until its result is
      stored, unless a request that failed stores its error. */
  lemma {:induction false} StatusStays(s: State, steps: seq<Step>)
    requires Inv(s) && IsRun(s, steps) && NoneSets(s, steps)
    ensures After(s, steps).status == s.status
    decreases |steps|
  {
    hide Inv, Enabled, Next;
    if steps != [] {
      EachStatus(s, steps[0]);
      StepKeepsInv(s, steps[0]);
      StatusStays(Next(s, steps[0]), steps[1..]);
    }
  }

  /** While an unseal runs or its result is not stored, only storing a result or an error sets the status. */
  lemma OnlyStoresWhileRunning(s: State, step: Step)
    requires Inv(s) && Enabled(s, step) && (s.task.Unsealing? || s.task.Storing?)
    ensures SetsStatus(s, step) <==> step.StoreStatus? || step.StoreWrite?
    ensures Next(s, step).task.Unsealing? || Next(s, step).task.Storing? <==> !step.StoreStatus?
  {
    hide ErrorStatus, HandedOutOk;
  }

  /** What takes a finished key away: handing it out, another unseal, or a failed request storing its error.  A
      query with too small a buffer is not among them. */
  predicate TakesKeyAway(step: Step) {
    step.Start? || step.StartNotNotified? || step.StoreWrite? || (step.Query? && step.room >= KEY_LENGTH)
  }

  lemma KeyWaits(s: State, step: Step)
    requires Inv(s) && Enabled(s, step) && s.status == SUCCESS
    ensures Next(s, step).status == SUCCESS <==> !TakesKeyAway(step)
    ensures !TakesKeyAway(step) ==> Next(s, step).key == s.key && Next(s, step).succeeded == s.succeeded
  {
    hide PackStatus, ErrorStatus, HandedOutOk;
    if step.StoreWrite? {
      ErrorIsNotSuccess(s.writes[step.k]);
    }
  }

  /** So a finished key outlasts any run without those steps, and the next query with room for it gets it. */
  lemma {:induction false} KeyWaitsForQuery(s: State, steps: seq<Step>, room: nat)
    requires Inv(s) && IsRun(s, steps) && s.status == SUCCESS && room >= KEY_LENGTH
    requires forall k :: 0 <= k < |steps| ==> !TakesKeyAway(steps[k])
    ensures Next(After(s, steps), Query(room)).handedOut == s.handedOut + [HandOut(s.key, |s.succeeded|)]
    decreases |steps|
  {
    hide Inv, Enabled;
    if steps != [] {
      KeyWaits(s, steps[0]);
      StepKeepsInv(s, steps[0]);
      SameHandOuts(s, steps[0]);
      KeyWaitsForQuery(Next(s, steps[0]), steps[1..], room);
    }
  }

  lemma SameHandOuts(s: State, step: Step)
    ensures !TakesKeyAway(step) ==> Next(s, step).handedOut == s.handedOut
  {
  }
}
