/**
 The asynchronous calls of a device, in every interleaving of submitters, the
 worker thread, the timer, transport completions and termination. Each step is
 one region of AsyncCalls; between steps the work-loop lock is free.
 */
module AsyncProtocol {
  import opened AsyncCalls
  import opened AsyncReports
  import opened AsyncCommits
  import opened Options

  /** The worker thread; the thread call never runs twice at the same time. */
  datatype Worker = Idle | Looping | InTransport(id: nat)

  /** The thread inside runElementValues for one commit. `noticed` tells
      whether its last CommitComplete found its call still listed. */
  datatype Submitter = Submitting(own: nat, counted: bool) | Finished(ret: Status, noticed: bool)

  datatype Stage = Running | WillTerminateDone | DidTerminateDone

  datatype System = System(
    d: Device,
    worker: Worker,
    submitters: map<nat, Submitter>,
    stage: Stage,
    accepted: set<nat>,   // report calls accepted so far
    started: seq<nat>)    // report calls taken to the transport, in order

  const START := System(Device(false, [], [], map[], false, NEVER, false, false, false, 0, [], 0), Idle, map[], Running, {}, [])

  datatype Step =
    | OutReport(deadline: nat, clock: Clock)
    | WorkerStarts
    | WorkerTakes(clock: Clock)
    | WorkerReturns(ret: Status, clock: Clock)
    | TimerFires(clock: Clock)
    | BecomeInactive
    | WillTerminate(clock: Clock)
    | DidTerminate
    | Begin(commit: nat, deadline: nat, hasReport: bool, clock: Clock)
    | CountCall(commit: nat)
    | SubmitReturns(commit: nat, ret: Status, more: bool, clock: Clock)
    | TransportCompletes(id: nat, status: Status, clock: Clock)

  /** The transport knows a call once its submission has begun. */
  predicate Submitted(s: System, id: nat) {
    forall c <- s.submitters.Keys :: s.submitters[c] != Submitting(id, false)
  }

  function NextSubmitter(d: Device, own: nat, ret: Status, more: bool): Submitter {
    if ret.Success? then (if more then Submitting(d.nextId, false) else Finished(ret, true))
    else Finished(ret, FindCommit(d.commitCalls, own).Some?)
  }

  /** One step; a step that is not possible changes nothing. */
  ghost function Apply(s: System, step: Step): System {
    match step
    case OutReport(deadline, clock) =>
      if s.d.inactive then s
      else s.(d := SubmitReport(s.d, deadline, clock), accepted := s.accepted + {s.d.nextId})
    case WorkerStarts =>
      if s.worker.Idle? && s.d.threadPending then s.(d := s.d.(threadPending := false), worker := Looping) else s
    case WorkerTakes(clock) =>
      if !s.worker.Looping? then s
      else
        var (d, next) := TakeReport(s.d, clock);
        (match next
         case None => s.(d := d, worker := Idle)
         case Some(id) => s.(d := d, worker := InTransport(id), started := s.started + [id]))
    case WorkerReturns(ret, clock) =>
      if !s.worker.InTransport? then s
      else s.(d := CompleteReport(s.d, s.worker.id, ret, clock), worker := Looping)
    case TimerFires(clock) => s.(d := SetNextTimeout(s.d, clock))
    case BecomeInactive => s.(d := s.d.(inactive := true))
    case WillTerminate(clock) =>
      if !(s.d.inactive && s.stage.Running?) then s
      else s.(d := AbortCommits(AbortReports(s.d, clock), clock), stage := WillTerminateDone)
    case DidTerminate =>
      if !s.stage.WillTerminateDone? then s
      else s.(d := TerminateOrDefer(s.d), stage := DidTerminateDone)
    case Begin(commit, deadline, hasReport, clock) =>
      if s.d.inactive || commit in s.submitters then s
      else s.(d := BeginCommit(s.d, commit, deadline, hasReport, clock),
              submitters := s.submitters[commit := if hasReport then Submitting(s.d.nextId, false) else Finished(NotFound, true)])
    case CountCall(commit) =>
      if !(commit in s.submitters && s.submitters[commit].Submitting? && !s.submitters[commit].counted) then s
      else s.(d := AsyncCalls.CountCall(s.d, commit), submitters := s.submitters[commit := Submitting(s.submitters[commit].own, true)])
    case SubmitReturns(commit, ret, more, clock) =>
      if !Returning(s, commit) then s
      else
        var own := s.submitters[commit].own;
        s.(d := SubmissionReturned(s.d, commit, own, ret, more, clock),
           submitters := s.submitters[commit := NextSubmitter(s.d, own, ret, more)])
    case TransportCompletes(id, status, clock) =>
      if !Submitted(s, id) then s else s.(d := CompleteCommit(s.d, id, status, clock))
  }

  predicate Returning(s: System, commit: nat) {
    commit in s.submitters && s.submitters[commit].Submitting? && s.submitters[commit].counted
  }

  ghost function Exec(s: System, steps: seq<Step>): System
    decreases |steps|
  {
    if steps == [] then s else Exec(Apply(s, steps[0]), steps[1..])
  }

  // -------------------------------------------------------- report calls

  /** Ids go up in the order in which the worker took the calls, and every call
      still queued comes later (the one in hand may still be in the queue). */
  ghost predicate StartedInOrder(s: System) {
    && (forall i, j :: 0 <= i < j < |s.started| ==> s.started[i] < s.started[j])
    && (s.worker.InTransport? ==> |s.started| > 0 && s.started[|s.started| - 1] == s.worker.id)
    && forall call <- s.d.reportCalls ::
         |s.started| > 0 ==> s.started[|s.started| - 1] < call.id || (s.worker.InTransport? && call.id == s.worker.id)
  }

  ghost predicate ReportInv(s: System) {
    && (forall id :: Total(s.d, id) == if id in s.accepted then 1 else 0)
    && (forall id <- s.accepted :: id < s.d.nextId)
    && Ascending(s.d.reportCalls)
    && StartedInOrder(s)
    && (forall id <- s.started :: id in s.accepted)
  }

  lemma QueuedAreAccepted(s: System)
    requires ReportInv(s)
    ensures forall call <- s.d.reportCalls :: call.id in s.accepted && call.id < s.d.nextId
  {
    forall call | call in s.d.reportCalls ensures call.id in s.accepted && call.id < s.d.nextId {
      QueuedMember(s.d.reportCalls, call.id);
      assert Total(s.d, call.id) == if call.id in s.accepted then 1 else 0;
    }
  }

  lemma ConservedInv(s: System, e: System)
    requires ReportInv(s) && Conserves(s.d, e.d)
    requires e.accepted == s.accepted && e.started == s.started
    requires e.worker == s.worker || (s.worker.Idle? && e.worker.Looping?)
    ensures ReportInv(e)
  {
    forall id ensures Total(e.d, id) == if id in e.accepted then 1 else 0 {
      assert Total(e.d, id) == Total(s.d, id);
    }
  }

  lemma AppendKeepsInv(s: System, deadline: nat)
    requires ReportInv(s) && !s.d.inactive
    ensures ReportInv(s.(d := AppendReport(s.d, deadline), accepted := s.accepted + {s.d.nextId}))
  {
    var d1 := AppendReport(s.d, deadline);
    var t := s.(d := d1, accepted := s.accepted + {s.d.nextId});
    QueuedAreAccepted(s);
    AscendingPush(s.d.reportCalls, ReportCall(s.d.nextId, deadline));
    forall id ensures Total(d1, id) == if id in t.accepted then 1 else 0 {
      QueuedSum(s.d.reportCalls, [ReportCall(s.d.nextId, deadline)], id);
      assert Total(s.d, id) == if id in s.accepted then 1 else 0;
    }
    forall id | id in s.started ensures id < s.d.nextId {
      assert id in s.accepted;
    }
    assert |s.started| > 0 ==> s.started[|s.started| - 1] in s.started;
  }

  lemma SubmitKeepsInv(s: System, deadline: nat, clock: Clock)
    requires ReportInv(s) && !s.d.inactive
    ensures ReportInv(Apply(s, OutReport(deadline, clock)))
  {
    var d1 := AppendReport(s.d, deadline);
    var t := s.(d := d1, accepted := s.accepted + {s.d.nextId});
    AppendKeepsInv(s, deadline);
    SetNextConserves(d1, clock);
    ConservedInv(t, t.(d := SetNextTimeout(d1, clock)));
    var e := Apply(s, OutReport(deadline, clock));
    assert e.d.reportCalls == SetNextTimeout(d1, clock).reportCalls && e.d.completions == SetNextTimeout(d1, clock).completions;
    forall id ensures Total(e.d, id) == if id in e.accepted then 1 else 0 {
      assert Total(SetNextTimeout(d1, clock), id) == if id in t.accepted then 1 else 0;
    }
  }

  /** The worker's region: either everything is aborted, or the first call is taken. */
  lemma {:induction false} TakeParts(d: Device, clock: Clock)
    ensures var (e, next) := TakeReport(d, clock);
      && Conserves(d, e.(threadPending := d.threadPending, threadActive := d.threadActive, teardowns := d.teardowns))
      && (next.Some? ==> e == d && !d.inactive && d.reportCalls != [] && next.value == d.reportCalls[0].id)
      && (next.None? ==> e.reportCalls == [] && !e.threadActive && !e.threadPending
                         && e.teardowns == d.teardowns + (if d.terminateDeferred then 1 else 0))
    decreases |d.reportCalls|
  {
    if d.reportCalls != [] && d.inactive {
      var id := d.reportCalls[0].id;
      CompleteReportConserves(d, id, Aborted, clock);
      var d1 := CompleteReport(d, id, Aborted, clock);
      TakeParts(d1, clock);
      var e := TakeReport(d, clock).0;
      ConservesTransitive(d, d1, e.(threadPending := d.threadPending, threadActive := d.threadActive, teardowns := d.teardowns));
    }
  }

  lemma TakeKeepsInv(s: System, clock: Clock)
    requires ReportInv(s) && s.worker.Looping?
    ensures ReportInv(Apply(s, WorkerTakes(clock)))
  {
    TakeParts(s.d, clock);
    QueuedAreAccepted(s);
    var (d, next) := TakeReport(s.d, clock);
    var e := Apply(s, WorkerTakes(clock));
    var d' := d.(threadPending := s.d.threadPending, threadActive := s.d.threadActive, teardowns := s.d.teardowns);
    forall id ensures Total(e.d, id) == if id in e.accepted then 1 else 0 {
      assert Total(d', id) == Total(s.d, id);
    }
    if next.Some? {
      assert s.d.reportCalls == [s.d.reportCalls[0]] + s.d.reportCalls[1..];
    }
  }

  lemma ReturnKeepsInv(s: System, ret: Status, clock: Clock)
    requires ReportInv(s) && s.worker.InTransport?
    ensures ReportInv(Apply(s, WorkerReturns(ret, clock)))
  {
    var id := s.worker.id;
    CompleteReportConserves(s.d, id, ret, clock);
    var e := Apply(s, WorkerReturns(ret, clock));
    forall other ensures Total(e.d, other) == if other in e.accepted then 1 else 0 {
      assert Total(e.d, other) == Total(s.d, other);
    }
    QueuedMember(e.d.reportCalls, id);
  }

  /** Steps that neither submit a report call nor are the worker's or termination's. */
  predicate Bystander(step: Step) {
    step.TimerFires? || step.Begin? || step.CountCall? || step.SubmitReturns? || step.TransportCompletes?
  }

  lemma BystanderConserves(s: System, step: Step)
    requires Bystander(step)
    ensures var e := Apply(s, step);
      Conserves(s.d, e.d) && e == s.(d := e.d, submitters := e.submitters)
  {
    SameConserves(s.d, s.d);
    match step
    case TimerFires(clock) => SetNextConserves(s.d, clock);
    case Begin(commit, deadline, hasReport, clock) => BeginConserves(s.d, commit, deadline, hasReport, clock);
    case CountCall(commit) => SameConserves(s.d, AsyncCalls.CountCall(s.d, commit));
    case SubmitReturns(commit, ret, more, clock) =>
      if Returning(s, commit) { ReturnConserves(s.d, commit, s.submitters[commit].own, ret, more, clock); }
    case TransportCompletes(id, status, clock) => CompleteCommitConserves(s.d, id, status, clock);
    case _ =>
  }

  lemma AbortConserves(d: Device, clock: Clock)
    requires d.inactive
    ensures var e := AbortCommits(AbortReports(d, clock), clock);
      Conserves(d, e) && e.reportCalls == [] && e.commitCalls == []
  {
    AbortReportsConserves(d, clock);
    AbortCommitsConserves(AbortReports(d, clock), clock);
    ConservesTransitive(d, AbortReports(d, clock), AbortCommits(AbortReports(d, clock), clock));
    NoneLeft(AbortReports(d, clock), AbortCommits(AbortReports(d, clock), clock));
  }

  lemma NoneLeft(d: Device, e: Device)
    requires Conserves(d, e) && d.reportCalls == []
    ensures e.reportCalls == []
  {
    assert |e.reportCalls| <= |d.reportCalls|;
  }

  lemma StepKeepsReportInv(s: System, step: Step)
    requires ReportInv(s)
    ensures ReportInv(Apply(s, step))
  {
    var e := Apply(s, step);
    if Bystander(step) {
      BystanderConserves(s, step);
      ConservedInv(s, e);
    } else {
      match step
      case OutReport(deadline, clock) => if !s.d.inactive { SubmitKeepsInv(s, deadline, clock); }
      case WorkerTakes(clock) => if s.worker.Looping? { TakeKeepsInv(s, clock); }
      case WorkerReturns(ret, clock) => if s.worker.InTransport? { ReturnKeepsInv(s, ret, clock); }
      case WillTerminate(clock) =>
        if s.d.inactive && s.stage.Running? {
          AbortConserves(s.d, clock);
          ConservedInv(s, e);
        }
      case WorkerStarts => FlagsOnly(s, e);
      case BecomeInactive => FlagsOnly(s, e);
      case DidTerminate => FlagsOnly(s, e);
    }
  }

  lemma FlagsOnly(s: System, e: System)
    requires ReportInv(s)
    requires e.d.reportCalls == s.d.reportCalls && e.d.completions == s.d.completions && e.d.nextId == s.d.nextId
    requires e.accepted == s.accepted && e.started == s.started
    requires e.worker == s.worker || (s.worker.Idle? && e.worker.Looping?)
    ensures ReportInv(e)
  {
    forall id ensures Total(e.d, id) == if id in e.accepted then 1 else 0 {
      assert Total(s.d, id) == if id in s.accepted then 1 else 0;
    }
  }

  // --------------------------------------------------------- the active flag

  /** The flag says whether the worker is scheduled or running; termination
      goes through once, and not while the flag is set. */
  ghost predicate ThreadInv(s: System) {
    && !s.d.settingTimeout
    && (s.d.threadActive <==> !s.worker.Idle? || s.d.threadPending)
    && (s.d.reportCalls != [] ==> s.d.threadActive)
    && (!s.stage.Running? ==> s.d.inactive && s.d.reportCalls == [])
    && (s.stage.DidTerminateDone?
        ==> (if s.d.threadActive then s.d.terminateDeferred && s.d.teardowns == 0 else s.d.teardowns == 1))
    && (!s.stage.DidTerminateDone? ==> !s.d.terminateDeferred && s.d.teardowns == 0)
  }

  lemma ConservedThreadInv(s: System, e: System)
    requires ThreadInv(s) && Conserves(s.d, e.d)
    requires e.worker == s.worker && e.stage == s.stage
    ensures ThreadInv(e)
  {
    if e.d.reportCalls != [] {
      assert e.d.reportCalls[0] in s.d.reportCalls;
    }
  }

  lemma TakeKeepsThreadInv(s: System, clock: Clock)
    requires ThreadInv(s) && s.worker.Looping?
    ensures ThreadInv(Apply(s, WorkerTakes(clock)))
    ensures var e := Apply(s, WorkerTakes(clock));
      && e.stage == s.stage && e.d.terminateDeferred == s.d.terminateDeferred
      && (e.worker.Idle? || (e.worker.InTransport? && e.d == s.d && FindReport(s.d.reportCalls, e.worker.id)))
      && (e.worker.Idle? ==> e.d.reportCalls == [] && !e.d.threadActive
                             && e.d.teardowns == s.d.teardowns + (if s.d.terminateDeferred then 1 else 0))
  {
    TakeParts(s.d, clock);
    var (d, next) := TakeReport(s.d, clock);
    var e := Apply(s, WorkerTakes(clock));
    if next.None? {
      assert e == s.(d := d, worker := Idle);
    } else {
      assert e == s.(d := d, worker := InTransport(next.value), started := s.started + [next.value]);
    }
  }

  lemma SubmitKeepsThreadInv(s: System, deadline: nat, clock: Clock)
    requires ThreadInv(s)
    ensures ThreadInv(Apply(s, OutReport(deadline, clock)))
  {
    SetNextConserves(AppendReport(s.d, deadline), clock);
  }

  lemma StepKeepsThreadInv(s: System, step: Step)
    requires ThreadInv(s)
    ensures ThreadInv(Apply(s, step))
  {
    var e := Apply(s, step);
    if Bystander(step) {
      BystanderConserves(s, step);
      ConservedThreadInv(s, e);
    } else {
      match step
      case OutReport(deadline, clock) => SubmitKeepsThreadInv(s, deadline, clock);
      case WorkerStarts =>
      case WorkerTakes(clock) => if s.worker.Looping? { TakeKeepsThreadInv(s, clock); }
      case WorkerReturns(ret, clock) =>
        if s.worker.InTransport? {
          CompleteReportConserves(s.d, s.worker.id, ret, clock);
          ConservedThreadInv(s, e.(worker := s.worker));
        }
      case BecomeInactive =>
      case WillTerminate(clock) =>
        if s.d.inactive && s.stage.Running? { AbortConserves(s.d, clock); }
      case DidTerminate =>
    }
  }

  lemma {:induction false} RunKeepsReportInvs(s: System, steps: seq<Step>)
    requires ReportInv(s) && ThreadInv(s)
    ensures ReportInv(Exec(s, steps)) && ThreadInv(Exec(s, steps))
    decreases |steps|
  {
    if steps != [] {
      StepKeepsReportInv(s, steps[0]);
      StepKeepsThreadInv(s, steps[0]);
      RunKeepsReportInvs(Apply(s, steps[0]), steps[1..]);
    }
  }

  /** Every accepted report call is either still queued or has had its completion
      invoked, once; a rejected call is never completed. Once the worker is at
      rest, or termination has begun, all accepted calls have been completed. */
  lemma ReportsCompleteOnce(steps: seq<Step>)
    ensures var s := Exec(START, steps);
      && (forall id <- s.accepted :: Queued(s.d.reportCalls, id) + Done(s.d.completions, id) == 1)
      && (forall id :: id !in s.accepted ==> Done(s.d.completions, id) == 0)
      && (!s.d.threadActive || !s.stage.Running? ==> forall id <- s.accepted :: Done(s.d.completions, id) == 1)
  {
    RunKeepsReportInvs(START, steps);
    var s := Exec(START, steps);
    forall id ensures Queued(s.d.reportCalls, id) + Done(s.d.completions, id) == if id in s.accepted then 1 else 0 {
      assert Total(s.d, id) == if id in s.accepted then 1 else 0;
    }
  }

  /** The worker takes calls in the order of submission, none of them twice. */
  lemma WorkerKeepsOrder(steps: seq<Step>)
    ensures var s := Exec(START, steps);
      && (forall i, j :: 0 <= i < j < |s.started| ==> s.started[i] < s.started[j])
      && (forall id <- s.started :: id in s.accepted)
  {
    RunKeepsReportInvs(START, steps);
  }

  /** Termination never goes through while the worker holds a call or calls are
      queued; it goes through at most once; and if it was put off, it has gone
      through as soon as the worker has retired. */
  lemma TeardownIsDeferred(steps: seq<Step>)
    ensures var s := Exec(START, steps);
      && (s.worker.InTransport? || s.d.reportCalls != [] ==> s.d.threadActive && s.d.teardowns == 0)
      && s.d.teardowns <= 1
      && (s.stage.DidTerminateDone? && s.d.threadActive ==> s.d.terminateDeferred && s.d.teardowns == 0)
      && (s.stage.DidTerminateDone? && !s.d.threadActive ==> s.d.teardowns == 1)
  {
    RunKeepsReportInvs(START, steps);
  }

  /** Upper bound on the worker's steps before it retires. */
  function WorkLeft(s: System): nat {
    var n := 2 * |s.d.reportCalls|;
    match s.worker
    case Idle => n + 3
    case Looping => n + 1
    case InTransport(id) => if FindReport(s.d.reportCalls, id) then n else n + 2
  }

  /** The worker, left alone with a transport that answers, empties the queue,
      retires, and finishes a termination that was put off. */
  lemma {:induction false} WorkerFinishes(s: System, ret: Status, clock: Clock) returns (steps: seq<Step>)
    requires ThreadInv(s)
    ensures forall step <- steps :: step.WorkerStarts? || step.WorkerTakes? || step.WorkerReturns?
    ensures var e := Exec(s, steps);
      && e.worker.Idle? && !e.d.threadActive && e.d.reportCalls == [] && e.stage == s.stage
      && (s.d.threadActive ==> e.d.teardowns == s.d.teardowns + (if s.d.terminateDeferred then 1 else 0))
    decreases WorkLeft(s)
  {
    if s.worker.Idle? && !s.d.threadPending {
      steps := [];
    } else {
      var step := if s.worker.Idle? then WorkerStarts
                  else if s.worker.Looping? then WorkerTakes(clock) else WorkerReturns(ret, clock);
      var e := WorkerAdvances(s, step);
      var rest := [];
      if !e.worker.Idle? {
        rest := WorkerFinishes(e, ret, clock);
      }
      steps := [step] + rest;
      assert steps[1..] == rest;
    }
  }

  lemma WorkerAdvances(s: System, step: Step) returns (e: System)
    requires ThreadInv(s)
    requires match step
             case WorkerStarts => s.worker.Idle? && s.d.threadPending
             case WorkerTakes(_) => s.worker.Looping?
             case WorkerReturns(_, _) => s.worker.InTransport?
             case _ => false
    ensures e == Apply(s, step) && ThreadInv(e) && WorkLeft(e) >= 0 && e.stage == s.stage
    ensures e.d.terminateDeferred == s.d.terminateDeferred
    ensures !e.worker.Idle? ==> WorkLeft(e) < WorkLeft(s) && e.d.teardowns == s.d.teardowns
    ensures e.worker.Idle?
            ==> && !e.d.threadActive && !e.d.threadPending && e.d.reportCalls == []
                && e.d.teardowns == s.d.teardowns + (if s.d.terminateDeferred then 1 else 0)
  {
    e := Apply(s, step);
    StepKeepsThreadInv(s, step);
    match step
    case WorkerTakes(clock) => TakeKeepsThreadInv(s, clock);
    case WorkerReturns(ret, clock) => CompleteReportConserves(s.d, s.worker.id, ret, clock);
    case _ =>
  }

  /** From every reachable state the worker can so finish by itself. */
  lemma DeferredTeardownHappens(before: seq<Step>, ret: Status, clock: Clock) returns (after: seq<Step>)
    ensures forall step <- after :: step.WorkerStarts? || step.WorkerTakes? || step.WorkerReturns?
    ensures var e := Exec(Exec(START, before), after);
      && e.worker.Idle? && e.d.reportCalls == []
      && (e.stage.DidTerminateDone? ==> e.d.teardowns == 1)
  {
    RunKeepsReportInvs(START, before);
    var s := Exec(START, before);
    after := WorkerFinishes(s, ret, clock);
    RunKeepsReportInvs(s, after);
  }
}
