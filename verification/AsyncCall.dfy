/** Asynchronous calls into Rust: polls, continuation callbacks and cancellation.

    Many calls run at once. Each polls its Rust future, hands it a handle for a fresh Python
    future and awaits that future; a callback, from any thread and possibly repeated, takes
    the handle out of the shared map and schedules the poll code to be set; meanwhile a task
    may be cancelled. The steps below are the points at which these can interleave. */
module AsyncCall {
  import opened HandleMap

  /** The poll code that says the Rust future is ready; every other one asks for a new poll. */
  const READY: int := 0

  type FutureId = nat
  type CallId = nat

  datatype Future = Pending | Resolved(code: int) | Cancelled

  datatype Outcome = Returned | CompletionFailed | PollFailed | TaskCancelled

  datatype Phase =
    | Running
    | Awaiting(future: FutureId)
    | Completing
    | Unwinding(outcome: Outcome)
    | Exited(outcome: Outcome)

  datatype Call = Call(phase: Phase, mustCancel: bool, completions: nat, frees: nat)

  datatype Job = Job(future: FutureId, code: int)

  datatype World = World(
    calls: seq<Call>,
    futures: seq<Future>,
    owners: seq<CallId>,          // the call that created each future
    continuations: State<FutureId>,
    jobs: seq<Job>,               // scheduled on an event loop, not yet run
    callbacks: seq<(Handle, int)>,  // the callbacks that found their handle
    resolutions: seq<FutureId>,   // the futures whose result was set, in order
    invalidStates: nat            // attempts to set the result of a future that had one
  )

  const INITIAL_WORLD := World([], [], [], State(map[], []), [], [], [], 0)

  datatype Event =
    | NewCall
    | Poll(call: CallId)
    | PollRaises(call: CallId, handleIssued: bool)
    | Callback(handle: Handle, code: int)
    | RunJob(index: nat)
    | Cancel(call: CallId)
    | Resume(call: CallId)
    | Complete(call: CallId, ok: bool)
    | Free(call: CallId)

  function SetCall(w: World, c: CallId, call: Call): World
    requires c < |w.calls|
  {
    w.(calls := w.calls[c := call])
  }

  /** Create a future for `c` and issue a handle for it. */
  function Issue(w: World, c: CallId, future: Future): World {
    w.(futures := w.futures + [future],
       owners := w.owners + [c],
       continuations := w.continuations.Insert(|w.futures|))
  }

  function PollStep(w: World, c: CallId): World
    requires c < |w.calls| && w.calls[c].phase.Running?
  {
    var call := w.calls[c];
    // A cancellation requested meanwhile reaches the future as soon as it is awaited.
    var future := if call.mustCancel then Cancelled else Pending;
    SetCall(Issue(w, c, future), c, call.(phase := Awaiting(|w.futures|), mustCancel := false))
  }

  function PollRaisesStep(w: World, c: CallId, handleIssued: bool): World
    requires c < |w.calls| && w.calls[c].phase.Running?
  {
    var issued := if handleIssued then Issue(w, c, Pending) else w;
    SetCall(issued, c, w.calls[c].(phase := Unwinding(PollFailed)))
  }

  function CallbackStep(w: World, handle: Handle, code: int): World {
    if handle !in w.continuations.entries then w  // raises inside the callback
    else
      w.(continuations := w.continuations.Remove(handle),
         jobs := w.jobs + [Job(w.continuations.entries[handle], code)],
         callbacks := w.callbacks + [(handle, code)])
  }

  function RunJobStep(w: World, index: nat): World
    requires index < |w.jobs| && w.jobs[index].future < |w.futures|
  {
    var job := w.jobs[index];
    var rest := w.(jobs := w.jobs[..index] + w.jobs[index + 1..]);
    match w.futures[job.future]
    case Cancelled => rest
    case Pending =>
      rest.(futures := w.futures[job.future := Resolved(job.code)],
            resolutions := w.resolutions + [job.future])
    case Resolved(_) =>
      rest.(invalidStates := w.invalidStates + 1)
  }

  function CancelStep(w: World, c: CallId): World
    requires c < |w.calls|
    requires w.calls[c].phase.Awaiting? ==> w.calls[c].phase.future < |w.futures|
  {
    var call := w.calls[c];
    if call.phase.Exited? then w
    else if call.phase.Awaiting? && w.futures[call.phase.future].Pending? then
      w.(futures := w.futures[call.phase.future := Cancelled])
    else
      SetCall(w, c, call.(mustCancel := true))
  }

  function ResumeStep(w: World, c: CallId): World
    requires c < |w.calls| && w.calls[c].phase.Awaiting? && w.calls[c].phase.future < |w.futures|
  {
    var call := w.calls[c];
    match w.futures[call.phase.future]
    case Pending => w
    case Cancelled => SetCall(w, c, call.(phase := Unwinding(TaskCancelled), mustCancel := false))
    case Resolved(code) =>
      if call.mustCancel then
        SetCall(w, c, call.(phase := Unwinding(TaskCancelled), mustCancel := false))
      else
        SetCall(w, c, call.(phase := if code == READY then Completing else Running))
  }

  function CompleteStep(w: World, c: CallId, ok: bool): World
    requires c < |w.calls| && w.calls[c].phase.Completing?
  {
    var call := w.calls[c];
    var outcome := if ok then Returned else CompletionFailed;
    SetCall(w, c, call.(phase := Unwinding(outcome), completions := call.completions + 1))
  }

  function FreeStep(w: World, c: CallId): World
    requires c < |w.calls| && w.calls[c].phase.Unwinding?
  {
    var call := w.calls[c];
    SetCall(w, c, call.(phase := Exited(call.phase.outcome), frees := call.frees + 1))
  }

  predicate Enabled(w: World, e: Event) {
    match e
    case NewCall => true
    case Poll(c) => c < |w.calls| && w.calls[c].phase.Running?
    case PollRaises(c, _) => c < |w.calls| && w.calls[c].phase.Running?
    case Callback(_, _) => true
    case RunJob(index) => index < |w.jobs| && w.jobs[index].future < |w.futures|
    case Cancel(c) =>
      c < |w.calls| && (w.calls[c].phase.Awaiting? ==> w.calls[c].phase.future < |w.futures|)
    case Resume(c) =>
      c < |w.calls| && w.calls[c].phase.Awaiting? && w.calls[c].phase.future < |w.futures|
    case Complete(c, _) => c < |w.calls| && w.calls[c].phase.Completing?
    case Free(c) => c < |w.calls| && w.calls[c].phase.Unwinding?
  }

  function Step(w: World, e: Event): World
    requires Enabled(w, e)
  {
    match e
    case NewCall => w.(calls := w.calls + [Call(Running, false, 0, 0)])
    case Poll(c) => PollStep(w, c)
    case PollRaises(c, handleIssued) => PollRaisesStep(w, c, handleIssued)
    case Callback(handle, code) => CallbackStep(w, handle, code)
    case RunJob(index) => RunJobStep(w, index)
    case Cancel(c) => CancelStep(w, c)
    case Resume(c) => ResumeStep(w, c)
    case Complete(c, ok) => CompleteStep(w, c, ok)
    case Free(c) => FreeStep(w, c)
  }

  /** The worlds of a run, one after each event; events that cannot happen are skipped. */
  function RunEvents(w: World, events: seq<Event>): World
    decreases |events|
  {
    if events == [] then w
    else RunEvents(if Enabled(w, events[0]) then Step(w, events[0]) else w, events[1..])
  }

  // What every step keeps

  /** The k-th handle was issued for the k-th future. */
  ghost predicate HandlesMatchFutures(w: World) {
    && w.continuations.Valid()
    && |w.continuations.issued| == |w.futures| == |w.owners|
    && (forall k :: 0 <= k < |w.futures| ==> w.continuations.issued[k] == k)
    && (forall h :: h in w.continuations.entries ==>
          w.continuations.entries[h] < |w.futures| && h == NthHandle(w.continuations.entries[h]))
  }

  /** A future's handle, its job and its result exclude each other. */
  ghost predicate OneSettlement(w: World) {
    && (forall h :: h in w.continuations.entries && w.continuations.entries[h] < |w.futures| ==>
          !w.futures[w.continuations.entries[h]].Resolved?)
    && (forall i :: 0 <= i < |w.jobs| ==>
          && w.jobs[i].future < |w.futures|
          && !w.futures[w.jobs[i].future].Resolved?
          && NthHandle(w.jobs[i].future) !in w.continuations.entries)
    && (forall i, j :: 0 <= i < j < |w.jobs| ==> w.jobs[i].future != w.jobs[j].future)
    && w.invalidStates == 0
  }

  ghost predicate ResultsSetOnce(w: World) {
    && (forall i, j :: 0 <= i < j < |w.resolutions| ==> w.resolutions[i] != w.resolutions[j])
    && (forall i :: 0 <= i < |w.resolutions| ==>
          w.resolutions[i] < |w.futures| && w.futures[w.resolutions[i]].Resolved?)
  }

  /** Each handle is taken by one callback, and its code is the one that arrives. */
  ghost predicate CallbacksDistinct(w: World) {
    && (forall i, j :: 0 <= i < j < |w.callbacks| ==> w.callbacks[i].0 != w.callbacks[j].0)
    && (forall i :: 0 <= i < |w.callbacks| ==>
          w.callbacks[i].0 !in w.continuations.entries && w.callbacks[i].0 < w.continuations.Next())
    && (forall i :: 0 <= i < |w.jobs| ==> (NthHandle(w.jobs[i].future), w.jobs[i].code) in w.callbacks)
    && (forall f :: 0 <= f < |w.futures| && w.futures[f].Resolved? ==>
          (NthHandle(f), w.futures[f].code) in w.callbacks)
  }

  ghost predicate CallOrderly(w: World, c: CallId)
    requires c < |w.calls|
  {
    var call := w.calls[c];
    match call.phase
    case Running => call.completions == 0 && call.frees == 0
    case Awaiting(f) =>
      call.completions == 0 && call.frees == 0 && f < |w.futures| && f < |w.owners| && w.owners[f] == c
    case Completing => call.completions == 0 && call.frees == 0 && SawReady(w, c)
    case Unwinding(outcome) => call.frees == 0 && Completed(w, c, outcome)
    case Exited(outcome) => call.frees == 1 && Completed(w, c, outcome)
  }

  /** Some poll of this call was answered by a callback with READY. */
  ghost predicate SawReady(w: World, c: CallId) {
    exists f :: 0 <= f < |w.futures| && f < |w.owners| && w.owners[f] == c && w.futures[f] == Resolved(READY)
  }

  ghost predicate Completed(w: World, c: CallId, outcome: Outcome)
    requires c < |w.calls|
  {
    if outcome.Returned? || outcome.CompletionFailed?
    then w.calls[c].completions == 1 && SawReady(w, c)
    else w.calls[c].completions == 0
  }

  ghost predicate CallsOrderly(w: World) {
    forall c :: 0 <= c < |w.calls| ==> CallOrderly(w, c)
  }

  ghost predicate Invariant(w: World) {
    && HandlesMatchFutures(w)
    && OneSettlement(w)
    && ResultsSetOnce(w)
    && CallbacksDistinct(w)
    && CallsOrderly(w)
  }

  /** A settled future stays as it is. */
  ghost predicate SettledStay(before: World, after: World) {
    && |before.futures| <= |after.futures|
    && forall f :: 0 <= f < |before.futures| && !before.futures[f].Pending? ==>
         after.futures[f] == before.futures[f]
  }

  lemma OthersOrderly(w: World, v: World, c: CallId)
    requires CallsOrderly(w) && c < |w.calls| && |v.calls| == |w.calls|
    requires |w.futures| == |w.owners| && |v.futures| == |v.owners|
    requires forall d :: 0 <= d < |w.calls| && d != c ==> v.calls[d] == w.calls[d]
    requires w.owners <= v.owners && SettledStay(w, v)
    requires CallOrderly(v, c)
    ensures CallsOrderly(v)
  {
    forall d | 0 <= d < |v.calls| ensures CallOrderly(v, d) {
      if d != c {
        assert CallOrderly(w, d);
        ReadyStays(w, v, d);
      }
    }
  }

  lemma ReadyStays(w: World, v: World, c: CallId)
    requires |w.futures| == |w.owners| && |v.futures| == |v.owners|
    requires w.owners <= v.owners && SettledStay(w, v)
    ensures SawReady(w, c) ==> SawReady(v, c)
  {
    if SawReady(w, c) {
      var f :| 0 <= f < |w.futures| && w.owners[f] == c && w.futures[f] == Resolved(READY);
      assert v.owners[f] == c && v.futures[f] == Resolved(READY);
    }
  }

  lemma IssueSettles(w: World, c: CallId, future: Future)
    requires HandlesMatchFutures(w) && OneSettlement(w) && !future.Resolved?
    ensures HandlesMatchFutures(Issue(w, c, future)) && OneSettlement(Issue(w, c, future))
  {
    InsertKeepsValid(w.continuations, |w.futures|);
    assert w.continuations.Next() == NthHandle(|w.futures|);
  }

  lemma IssueLogs(w: World, c: CallId, future: Future)
    requires HandlesMatchFutures(w) && ResultsSetOnce(w) && CallbacksDistinct(w) && !future.Resolved?
    ensures ResultsSetOnce(Issue(w, c, future)) && CallbacksDistinct(Issue(w, c, future))
  {
    var v := Issue(w, c, future);
    assert v.continuations.Next() > w.continuations.Next();
    forall f | 0 <= f < |v.futures| && v.futures[f].Resolved?
      ensures (NthHandle(f), v.futures[f].code) in v.callbacks
    {
      assert v.futures[f] == w.futures[f];
    }
  }

  lemma IssueKeeps(w: World, c: CallId, future: Future)
    requires HandlesMatchFutures(w) && OneSettlement(w) && ResultsSetOnce(w) && CallbacksDistinct(w)
    requires !future.Resolved?
    ensures var v := Issue(w, c, future);
            && HandlesMatchFutures(v) && OneSettlement(v) && ResultsSetOnce(v) && CallbacksDistinct(v)
  {
    IssueSettles(w, c, future);
    IssueLogs(w, c, future);
  }

  lemma PollKeeps(w: World, c: CallId)
    requires Invariant(w) && c < |w.calls| && w.calls[c].phase.Running?
    ensures Invariant(PollStep(w, c)) && SettledStay(w, PollStep(w, c))
  {
    assert CallOrderly(w, c);
    IssueKeeps(w, c, if w.calls[c].mustCancel then Cancelled else Pending);
    OthersOrderly(w, PollStep(w, c), c);
  }

  lemma PollRaisesKeeps(w: World, c: CallId, handleIssued: bool)
    requires Invariant(w) && c < |w.calls| && w.calls[c].phase.Running?
    ensures Invariant(PollRaisesStep(w, c, handleIssued)) && SettledStay(w, PollRaisesStep(w, c, handleIssued))
  {
    assert CallOrderly(w, c);
    IssueKeeps(w, c, Pending);
    OthersOrderly(w, PollRaisesStep(w, c, handleIssued), c);
  }

  lemma CallbackSettles(w: World, handle: Handle, code: int)
    requires HandlesMatchFutures(w) && OneSettlement(w)
    requires handle in w.continuations.entries
    ensures var v := CallbackStep(w, handle, code);
            HandlesMatchFutures(v) && OneSettlement(v)
  {
    var f := w.continuations.entries[handle];
    assert handle == NthHandle(f) && !w.futures[f].Resolved?;
    forall i | 0 <= i < |w.jobs| ensures w.jobs[i].future != f {
      assert NthHandle(w.jobs[i].future) !in w.continuations.entries;
    }
  }

  lemma CallbackLogs(w: World, handle: Handle, code: int)
    requires HandlesMatchFutures(w) && CallbacksDistinct(w)
    requires handle in w.continuations.entries
    ensures CallbacksDistinct(CallbackStep(w, handle, code))
  {
    var v := CallbackStep(w, handle, code);
    assert handle == NthHandle(w.continuations.entries[handle]) < w.continuations.Next();
    assert v.callbacks[|w.callbacks|] == (handle, code);
    assert forall x :: x in w.callbacks ==> x in v.callbacks;
  }

  lemma CallbackKeeps(w: World, handle: Handle, code: int)
    requires Invariant(w)
    ensures Invariant(CallbackStep(w, handle, code)) && SettledStay(w, CallbackStep(w, handle, code))
  {
    if handle in w.continuations.entries {
      var v := CallbackStep(w, handle, code);
      CallbackSettles(w, handle, code);
      CallbackLogs(w, handle, code);
      forall d | 0 <= d < |v.calls| ensures CallOrderly(v, d) {
        assert CallOrderly(w, d);
        ReadyStays(w, v, d);
      }
    }
  }

  /** The jobs left after one of them ran. */
  lemma JobsWithout(jobs: seq<Job>, index: nat)
    requires index < |jobs|
    requires forall i, j :: 0 <= i < j < |jobs| ==> jobs[i].future != jobs[j].future
    ensures var rest := jobs[..index] + jobs[index + 1..];
            && (forall i :: 0 <= i < |rest| ==> rest[i] in jobs && rest[i].future != jobs[index].future)
            && (forall i, j :: 0 <= i < j < |rest| ==> rest[i].future != rest[j].future)
  {
    var rest := jobs[..index] + jobs[index + 1..];
    forall i | 0 <= i < |rest| ensures rest[i] in jobs && rest[i].future != jobs[index].future {
      assert rest[i] == jobs[if i < index then i else i + 1];
    }
  }

  lemma RunJobSettles(w: World, index: nat)
    requires Invariant(w) && index < |w.jobs|
    ensures var v := RunJobStep(w, index);
            && OneSettlement(v) && ResultsSetOnce(v) && SettledStay(w, v)
  {
    JobsWithout(w.jobs, index);
    var v := RunJobStep(w, index);
    var f := w.jobs[index].future;
    assert !w.futures[f].Resolved? && NthHandle(f) !in w.continuations.entries;
    forall h | h in v.continuations.entries ensures !v.futures[v.continuations.entries[h]].Resolved? {
      assert h == NthHandle(w.continuations.entries[h]);
    }
    forall i | 0 <= i < |v.jobs|
      ensures !v.futures[v.jobs[i].future].Resolved? && NthHandle(v.jobs[i].future) !in v.continuations.entries
    {
      assert v.jobs[i] in w.jobs && v.jobs[i].future != f;
    }
  }

  lemma RunJobCallbacks(w: World, index: nat)
    requires Invariant(w) && index < |w.jobs|
    ensures CallbacksDistinct(RunJobStep(w, index))
  {
    JobsWithout(w.jobs, index);
    var v := RunJobStep(w, index);
    assert (NthHandle(w.jobs[index].future), w.jobs[index].code) in w.callbacks;
    forall i | 0 <= i < |v.jobs| ensures (NthHandle(v.jobs[i].future), v.jobs[i].code) in v.callbacks {
      assert v.jobs[i] in w.jobs;
    }
  }

  lemma RunJobKeeps(w: World, index: nat)
    requires Invariant(w) && index < |w.jobs|
    ensures Invariant(RunJobStep(w, index)) && SettledStay(w, RunJobStep(w, index))
  {
    RunJobSettles(w, index);
    RunJobCallbacks(w, index);
    var v := RunJobStep(w, index);
    forall d | 0 <= d < |v.calls| ensures CallOrderly(v, d) {
      assert CallOrderly(w, d);
      ReadyStays(w, v, d);
    }
  }

  lemma CancelKeeps(w: World, c: CallId)
    requires Invariant(w) && Enabled(w, Cancel(c))
    ensures Invariant(CancelStep(w, c)) && SettledStay(w, CancelStep(w, c))
  {
    var v := CancelStep(w, c);
    assert CallOrderly(w, c);
    ReadyStays(w, v, c);
    OthersOrderly(w, v, c);
  }

  lemma CallOnlyKeeps(w: World, c: CallId, call: Call)
    requires Invariant(w) && c < |w.calls|
    requires CallOrderly(SetCall(w, c, call), c)
    ensures Invariant(SetCall(w, c, call)) && SettledStay(w, SetCall(w, c, call))
  {
    OthersOrderly(w, SetCall(w, c, call), c);
  }

  lemma ResumeKeeps(w: World, c: CallId)
    requires Invariant(w) && Enabled(w, Resume(c))
    ensures Invariant(ResumeStep(w, c)) && SettledStay(w, ResumeStep(w, c))
  {
    assert CallOrderly(w, c);
    var v := ResumeStep(w, c);
    if !w.futures[w.calls[c].phase.future].Pending? {
      assert v == SetCall(w, c, v.calls[c]);
      assert CallOrderly(v, c);
      CallOnlyKeeps(w, c, v.calls[c]);
    }
  }

  lemma CompleteKeeps(w: World, c: CallId, ok: bool)
    requires Invariant(w) && Enabled(w, Complete(c, ok))
    ensures Invariant(CompleteStep(w, c, ok)) && SettledStay(w, CompleteStep(w, c, ok))
  {
    assert CallOrderly(w, c);
    var v := CompleteStep(w, c, ok);
    ReadyStays(w, v, c);
    CallOnlyKeeps(w, c, v.calls[c]);
  }

  lemma FreeKeeps(w: World, c: CallId)
    requires Invariant(w) && Enabled(w, Free(c))
    ensures Invariant(FreeStep(w, c)) && SettledStay(w, FreeStep(w, c))
  {
    assert CallOrderly(w, c);
    var v := FreeStep(w, c);
    ReadyStays(w, v, c);
    CallOnlyKeeps(w, c, v.calls[c]);
  }

  lemma NewCallKeeps(w: World)
    requires Invariant(w)
    ensures Invariant(Step(w, NewCall)) && SettledStay(w, Step(w, NewCall))
  {
    var v := Step(w, NewCall);
    forall d | 0 <= d < |v.calls| ensures CallOrderly(v, d) {
      if d < |w.calls| {
        assert CallOrderly(w, d);
        ReadyStays(w, v, d);
      }
    }
  }

  lemma StepKeepsInvariant(w: World, e: Event)
    requires Invariant(w) && Enabled(w, e)
    ensures Invariant(Step(w, e)) && SettledStay(w, Step(w, e))
  {
    match e
    case NewCall => NewCallKeeps(w);
    case Poll(c) => PollKeeps(w, c);
    case PollRaises(c, handleIssued) => PollRaisesKeeps(w, c, handleIssued);
    case Callback(handle, code) => CallbackKeeps(w, handle, code);
    case RunJob(index) => RunJobKeeps(w, index);
    case Cancel(c) => CancelKeeps(w, c);
    case Resume(c) => ResumeKeeps(w, c);
    case Complete(c, ok) => CompleteKeeps(w, c, ok);
    case Free(c) => FreeKeeps(w, c);
  }

  // What holds in every run

  lemma {:induction false} RunKeepsInvariant(w: World, events: seq<Event>)
    requires Invariant(w)
    ensures Invariant(RunEvents(w, events)) && SettledStay(w, RunEvents(w, events))
    decreases |events|
  {
    if events != [] {
      var next := if Enabled(w, events[0]) then Step(w, events[0]) else w;
      if Enabled(w, events[0]) {
        StepKeepsInvariant(w, events[0]);
      }
      RunKeepsInvariant(next, events[1..]);
    }
  }

  /** Over every interleaving: no future has its result set twice, none is set after it was
      cancelled, and setting a result never fails. */
  lemma FuturesSettleOnce(events: seq<Event>, more: seq<Event>)
    ensures var w := RunEvents(INITIAL_WORLD, events);
            && w.invalidStates == 0
            && (forall i, j :: 0 <= i < j < |w.resolutions| ==> w.resolutions[i] != w.resolutions[j])
            && SettledStay(w, RunEvents(w, more))
  {
    RunKeepsInvariant(INITIAL_WORLD, events);
    RunKeepsInvariant(RunEvents(INITIAL_WORLD, events), more);
  }

  /** Each continuation handle is taken by at most one callback, and the code a call resumes
      with is the one that came with the handle issued for that very poll. */
  lemma CodesReachTheirCall(events: seq<Event>, c: CallId, code: int)
    ensures var w := RunEvents(INITIAL_WORLD, events);
            && (forall i, j :: 0 <= i < j < |w.callbacks| ==> w.callbacks[i].0 != w.callbacks[j].0)
            && (c < |w.calls| && w.calls[c].phase.Awaiting? ==>
                  var f := w.calls[c].phase.future;
                  && f < |w.futures| == |w.owners| && w.owners[f] == c
                  && (w.futures[f] == Resolved(code) ==> (NthHandle(f), code) in w.callbacks))
  {
    RunKeepsInvariant(INITIAL_WORLD, events);
    var w := RunEvents(INITIAL_WORLD, events);
    if c < |w.calls| {
      assert CallOrderly(w, c);
    }
  }

  /** However a call ends, its Rust future is freed exactly once and not before; completion
      runs at most once, and only if a poll of this call was answered with READY. */
  lemma FreedExactlyOnce(events: seq<Event>, c: CallId)
    requires c < |RunEvents(INITIAL_WORLD, events).calls|
    ensures var w := RunEvents(INITIAL_WORLD, events);
            var call := w.calls[c];
            && call.frees == (if call.phase.Exited? then 1 else 0)
            && call.completions <= 1
            && (call.completions == 1 ==> SawReady(w, c))
            && (call.phase == Exited(Returned) ==> call.completions == 1)
  {
    RunKeepsInvariant(INITIAL_WORLD, events);
    assert CallOrderly(RunEvents(INITIAL_WORLD, events), c);
  }

  // What calls come to

  lemma {:induction false} RunThen(w: World, events: seq<Event>, e: Event)
    ensures var before := RunEvents(w, events);
            RunEvents(w, events + [e]) == if Enabled(before, e) then Step(before, e) else before
    decreases |events|
  {
    if events == [] {
      assert [e][1..] == [] && [] + [e] == [e];
    } else {
      var next := if Enabled(w, events[0]) then Step(w, events[0]) else w;
      assert (events + [e])[1..] == events[1..] + [e];
      RunThen(next, events[1..], e);
    }
  }

  lemma CallFacts(events: seq<Event>, c: CallId)
    requires c < |RunEvents(INITIAL_WORLD, events).calls|
    ensures var w := RunEvents(INITIAL_WORLD, events);
            var call := w.calls[c];
            && (call.phase.Awaiting? ==> call.phase.future < |w.futures|)
            && (call.phase.Completing? ==> call.completions == 0 && call.frees == 0)
            && (call.phase.Unwinding? ==> call.frees == 0)
  {
    RunKeepsInvariant(INITIAL_WORLD, events);
    assert CallOrderly(RunEvents(INITIAL_WORLD, events), c);
  }

  lemma JobFacts(events: seq<Event>, i: nat)
    requires i < |RunEvents(INITIAL_WORLD, events).jobs|
    ensures var w := RunEvents(INITIAL_WORLD, events);
            w.jobs[i].future < |w.futures| && !w.futures[w.jobs[i].future].Resolved?
  {
    RunKeepsInvariant(INITIAL_WORLD, events);
  }

  lemma HandleFacts(events: seq<Event>)
    ensures var w := RunEvents(INITIAL_WORLD, events); w.continuations.Next() == NthHandle(|w.futures|)
  {
    RunKeepsInvariant(INITIAL_WORLD, events);
  }

  /** In every run, a call that awaits a result goes on with it: to completion if the code is
      zero, to another poll otherwise; a cancellation that was requested since, or that reached
      the future, ends it; and without a result it keeps waiting. */
  lemma ResumeExactly(events: seq<Event>, c: CallId)
    requires var w := RunEvents(INITIAL_WORLD, events); c < |w.calls| && w.calls[c].phase.Awaiting?
    ensures var w := RunEvents(INITIAL_WORLD, events);
            var after := RunEvents(INITIAL_WORLD, events + [Resume(c)]);
            var call, f := w.calls[c], w.calls[c].phase.future;
            && f < |w.futures|
            && after.futures == w.futures && |after.calls| == |w.calls|
            && (forall d :: 0 <= d < |w.calls| && d != c ==> after.calls[d] == w.calls[d])
            && (w.futures[f].Pending? ==> after.calls[c].phase == Awaiting(f))
            && (w.futures[f].Cancelled? ==> after.calls[c].phase == Unwinding(TaskCancelled))
            && (w.futures[f].Resolved? && call.mustCancel ==> after.calls[c].phase == Unwinding(TaskCancelled))
            && (w.futures[f].Resolved? && !call.mustCancel ==>
                  && (after.calls[c].phase == Completing <==> w.futures[f].code == 0)
                  && (after.calls[c].phase == Running <==> w.futures[f].code != 0))
  {
    CallFacts(events, c);
    RunThen(INITIAL_WORLD, events, Resume(c));
  }

  /** A call that runs and has not been asked to stop. */
  predicate Polling(w: World, c: CallId) {
    c < |w.calls| && w.calls[c] == Call(Running, false, 0, 0)
  }

  /** A poll issues the handle of a new future, which the call awaits. */
  lemma PollIssues(events: seq<Event>, c: CallId)
    requires Polling(RunEvents(INITIAL_WORLD, events), c)
    ensures var w := RunEvents(INITIAL_WORLD, events);
            var after := RunEvents(INITIAL_WORLD, events + [Poll(c)]);
            && after.calls == w.calls[c := Call(Awaiting(|w.futures|), false, 0, 0)]
            && after.futures == w.futures + [Pending] && after.jobs == w.jobs
            && NthHandle(|w.futures|) in after.continuations.entries
            && after.continuations.entries[NthHandle(|w.futures|)] == |w.futures|
  {
    HandleFacts(events);
    RunThen(INITIAL_WORLD, events, Poll(c));
  }

  /** A callback with the handle of a future schedules its result; a second one changes
      nothing. */
  lemma CallbackSchedules(events: seq<Event>, handle: Handle, f: FutureId, code: int, again: int)
    requires var w := RunEvents(INITIAL_WORLD, events);
             handle in w.continuations.entries && w.continuations.entries[handle] == f
    ensures var w := RunEvents(INITIAL_WORLD, events);
            var after := RunEvents(INITIAL_WORLD, events + [Callback(handle, code)]);
            && after.calls == w.calls && after.futures == w.futures
            && after.jobs == w.jobs + [Job(f, code)]
            && handle !in after.continuations.entries
            && RunEvents(INITIAL_WORLD, events + [Callback(handle, code)] + [Callback(handle, again)]) == after
  {
    RunThen(INITIAL_WORLD, events, Callback(handle, code));
    RunThen(INITIAL_WORLD, events + [Callback(handle, code)], Callback(handle, again));
  }

  /** A scheduled job sets the result, unless the future was cancelled, and is done with; the
      others stay scheduled. */
  lemma JobSets(events: seq<Event>, index: nat, f: FutureId, code: int)
    requires var w := RunEvents(INITIAL_WORLD, events); index < |w.jobs| && w.jobs[index] == Job(f, code)
    ensures var w := RunEvents(INITIAL_WORLD, events);
            var after := RunEvents(INITIAL_WORLD, events + [RunJob(index)]);
            && f < |w.futures| && !w.futures[f].Resolved?
            && after.calls == w.calls && after.continuations == w.continuations
            && after.jobs == w.jobs[..index] + w.jobs[index + 1..]
            && after.futures == if w.futures[f].Cancelled? then w.futures else w.futures[f := Resolved(code)]
  {
    JobFacts(events, index);
    RunThen(INITIAL_WORLD, events, RunJob(index));
  }

  /** Asking a call to stop reaches the future it awaits, if that is still open; otherwise the
      call is marked, unless it is over. */
  lemma CancelReaches(events: seq<Event>, c: CallId)
    requires c < |RunEvents(INITIAL_WORLD, events).calls|
    ensures var w := RunEvents(INITIAL_WORLD, events);
            var after := RunEvents(INITIAL_WORLD, events + [Cancel(c)]);
            var call := w.calls[c];
            && after.jobs == w.jobs && after.continuations == w.continuations
            && if call.phase.Awaiting? && call.phase.future < |w.futures| && w.futures[call.phase.future] == Pending
               then after.calls == w.calls && after.futures == w.futures[call.phase.future := Cancelled]
               else
                 && after.futures == w.futures
                 && after.calls == if call.phase.Exited? then w.calls else w.calls[c := call.(mustCancel := true)]
  {
    CallFacts(events, c);
    RunThen(INITIAL_WORLD, events, Cancel(c));
  }

  /** An exception at any other point is followed by the free too. */
  lemma UnwindingEnds(events: seq<Event>, c: CallId, outcome: Outcome)
    requires var w := RunEvents(INITIAL_WORLD, events); c < |w.calls| && w.calls[c].phase == Unwinding(outcome)
    ensures var w := RunEvents(INITIAL_WORLD, events);
            var after := RunEvents(INITIAL_WORLD, events + [Free(c)]);
            && |after.calls| == |w.calls|
            && after.calls[c].phase == Exited(outcome) && after.calls[c].frees == 1
            && after.calls[c].completions == w.calls[c].completions
  {
    CallFacts(events, c);
    RunThen(INITIAL_WORLD, events, Free(c));
  }

  /** Completion and the free that follows end a call with one of each. */
  lemma CompletionEnds(events: seq<Event>, c: CallId, ok: bool)
    requires var w := RunEvents(INITIAL_WORLD, events); c < |w.calls| && w.calls[c].phase == Completing
    ensures var w := RunEvents(INITIAL_WORLD, events);
            var after := RunEvents(INITIAL_WORLD, events + [Complete(c, ok)] + [Free(c)]);
            && |after.calls| == |w.calls|
            && after.calls[c].phase == Exited(if ok then Returned else CompletionFailed)
            && after.calls[c].completions == 1 && after.calls[c].frees == 1
  {
    CallFacts(events, c);
    RunThen(INITIAL_WORLD, events, Complete(c, ok));
    UnwindingEnds(events + [Complete(c, ok)], c, if ok then Returned else CompletionFailed);
  }

  lemma PollFails(events: seq<Event>, c: CallId, handleIssued: bool)
    requires Polling(RunEvents(INITIAL_WORLD, events), c)
    ensures var after := RunEvents(INITIAL_WORLD, events + [PollRaises(c, handleIssued)] + [Free(c)]);
            && c < |after.calls| && after.calls[c].phase == Exited(PollFailed)
            && after.calls[c].completions == 0 && after.calls[c].frees == 1
            && var w := RunEvents(INITIAL_WORLD, events);
               if handleIssued then
                 && after.futures == w.futures + [Pending]
                 && NthHandle(|w.futures|) in after.continuations.entries
                 && after.continuations.entries[NthHandle(|w.futures|)] == |w.futures|
               else after.futures == w.futures && after.continuations == w.continuations
  {
    HandleFacts(events);
    RunThen(INITIAL_WORLD, events, PollRaises(c, handleIssued));
    RunThen(INITIAL_WORLD, events + [PollRaises(c, handleIssued)], Free(c));
    UnwindingEnds(events + [PollRaises(c, handleIssued)], c, PollFailed);
  }

  /** The events of one poll that is answered by its own handle, up to the resumption. */
  function Answered(w: World, c: CallId, code: int): seq<Event> {
    [Poll(c)] + [Callback(NthHandle(|w.futures|), code)] + [RunJob(|w.jobs|)] + [Resume(c)]
  }

  /** In every run, a poll that is answered with zero takes the call to completion, any other
      code to the next poll. */
  lemma AnsweredPoll(events: seq<Event>, c: CallId, code: int)
    requires Polling(RunEvents(INITIAL_WORLD, events), c)
    ensures var w := RunEvents(INITIAL_WORLD, events);
            var after := RunEvents(INITIAL_WORLD, events + Answered(w, c, code));
            && after.calls == w.calls[c := Call(if code == 0 then Completing else Running, false, 0, 0)]
            && after.jobs == w.jobs
  {
    var w := RunEvents(INITIAL_WORLD, events);
    var f := |w.futures|;
    var polled := events + [Poll(c)];
    var called := polled + [Callback(NthHandle(f), code)];
    var settled := called + [RunJob(|w.jobs|)];
    assert events + Answered(w, c, code) == settled + [Resume(c)];
    PollIssues(events, c);
    CallbackSchedules(polled, NthHandle(f), f, code, code);
    JobSets(called, |w.jobs|, f, code);
    assert w.jobs + [Job(f, code)] == w.jobs + [Job(f, code)] + [];
    RunThen(INITIAL_WORLD, settled, Resume(c));
  }

  /** In every run, a call whose poll is answered with zero, and whose completion succeeds,
      returns: completed once, freed once. */
  lemma SuccessfulCall(events: seq<Event>, c: CallId)
    requires Polling(RunEvents(INITIAL_WORLD, events), c)
    ensures var w := RunEvents(INITIAL_WORLD, events);
            var after := RunEvents(INITIAL_WORLD, events + Answered(w, c, 0) + [Complete(c, true)] + [Free(c)]);
            && c < |after.calls|
            && after.calls[c].phase == Exited(Returned)
            && after.calls[c].completions == 1 && after.calls[c].frees == 1
  {
    var w := RunEvents(INITIAL_WORLD, events);
    AnsweredPoll(events, c, 0);
    CompletionEnds(events + Answered(w, c, 0), c, true);
  }

  /** A call that is cancelled while it waits ends without completion, and its future is never
      set, even if the callback comes later. */
  lemma CancelledCall(events: seq<Event>, c: CallId, code: int)
    requires Polling(RunEvents(INITIAL_WORLD, events), c)
    ensures var w := RunEvents(INITIAL_WORLD, events);
            var after := RunEvents(INITIAL_WORLD, events + [Poll(c)] + [Cancel(c)] + [Resume(c)] + [Free(c)]);
            && c < |after.calls| && after.calls[c].phase == Exited(TaskCancelled)
            && after.calls[c].completions == 0 && after.calls[c].frees == 1
            && |after.futures| == |w.futures| + 1 && after.futures[|w.futures|] == Cancelled
  {
    var w := RunEvents(INITIAL_WORLD, events);
    var polled := events + [Poll(c)];
    var cancelled := polled + [Cancel(c)];
    PollIssues(events, c);
    CancelReaches(polled, c);
    ResumeExactly(cancelled, c);
    RunThen(INITIAL_WORLD, cancelled, Resume(c));
    UnwindingEnds(cancelled + [Resume(c)], c, TaskCancelled);
    RunThen(INITIAL_WORLD, cancelled + [Resume(c)], Free(c));
  }

  /** A call that was asked to stop while it was running ends at its next poll. */
  lemma StoppedCall(events: seq<Event>, c: CallId)
    requires var w := RunEvents(INITIAL_WORLD, events);
             c < |w.calls| && w.calls[c] == Call(Running, true, 0, 0)
    ensures var w := RunEvents(INITIAL_WORLD, events);
            var after := RunEvents(INITIAL_WORLD, events + [Poll(c)] + [Resume(c)] + [Free(c)]);
            && c < |after.calls| && after.calls[c].phase == Exited(TaskCancelled)
            && after.calls[c].completions == 0 && after.calls[c].frees == 1
            && after.futures == w.futures + [Cancelled]
  {
    var polled := events + [Poll(c)];
    RunThen(INITIAL_WORLD, events, Poll(c));
    ResumeExactly(polled, c);
    RunThen(INITIAL_WORLD, polled, Resume(c));
    UnwindingEnds(polled + [Resume(c)], c, TaskCancelled);
    RunThen(INITIAL_WORLD, polled + [Resume(c)], Free(c));
  }

  /** A new call starts out polling, and changes no other. */
  lemma CallStarts(events: seq<Event>)
    ensures var w := RunEvents(INITIAL_WORLD, events);
            var after := RunEvents(INITIAL_WORLD, events + [NewCall]);
            && |after.calls| == |w.calls| + 1 && after.calls[..|w.calls|] == w.calls
            && Polling(after, |w.calls|)
  {
    RunThen(INITIAL_WORLD, events, NewCall);
  }
}
