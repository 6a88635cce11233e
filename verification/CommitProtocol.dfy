/**
 Commits over all interleavings: when a commit's original completion fires
 exactly once, and the deadline timer.
 */
module CommitProtocol {
  import opened AsyncCalls
  import opened AsyncReports
  import opened AsyncCommits
  import opened AsyncProtocol
  import opened Options

  // ------------------------------------------------------- what always holds

  /** A call that a submitter names belongs to that submitter's commit. */
  ghost predicate OwnCall(s: System, commit: nat) {
    && commit in s.submitters
    && (s.submitters[commit].Submitting?
        ==> && s.submitters[commit].own < s.d.nextId
            && forall call <- s.d.commitCalls :: call.id == s.submitters[commit].own ==> call.commit == commit)
  }

  ghost predicate CommitInv(s: System) {
    && s.d.contexts.Keys == s.submitters.Keys
    && ListOk(s.d) && !s.d.settingTimeout && TimerOk(s.d)
    && (forall c <- s.submitters.Keys :: OwnCall(s, c))
  }

  lemma KeptInv(s: System, e: System)
    requires CommitInv(s) && Keeps(s.d, e.d) && TimerOk(e.d) && !e.d.settingTimeout
    requires e.submitters == s.submitters
    ensures CommitInv(e)
  {
    forall c | c in e.submitters.Keys ensures OwnCall(e, c) {
      assert OwnCall(s, c);
    }
  }

  function Plus(slack: nat, one: bool): nat {
    if one then slack + 1 else slack
  }

  /** One completion expected for `commit` has been dealt with. */
  ghost predicate Settles(d: Device, e: Device, commit: nat) {
    && (forall c: nat, slack: nat :: Booked(d, c, Plus(slack, c == commit)) ==> Booked(e, c, slack))
    && (forall c: nat, status :: Counted(d, c, status) ==> Counted(e, c, status))
  }

  /** Inserting a call of a commit, and the scan that follows. */
  lemma InsertKeeps(s: System, commit: nat, clock: Clock)
    requires CommitInv(s) && commit in s.submitters
    ensures var d := SetNextTimeout(InsertCommit(s.d, commit), clock);
      && CommitInv(s.(d := d, submitters := s.submitters[commit := Submitting(s.d.nextId, false)]))
      && Settles(s.d, d, commit)
  {
    var d1 := InsertCommit(s.d, commit);
    var d := SetNextTimeout(d1, clock);
    var t := s.(d := d, submitters := s.submitters[commit := Submitting(s.d.nextId, false)]);
    InsertOk(s.d, commit);
    SetNextKeeps(d1, clock);
    SetNextArms(d1, clock);
    SetNextConserves(d1, clock);
    forall c | c in t.submitters.Keys ensures OwnCall(t, c) {
      assert OwnCall(s, c);
    }
    forall c: nat, slack: nat | Booked(s.d, c, Plus(slack, c == commit)) ensures Booked(d, c, slack) {
      InsertBooks(s.d, commit, c, slack);
    }
  }

  /** The final call of a submit loop is listed and completed at once. */
  lemma FinalOk(d: Device, commit: nat, ret: Status, clock: Clock)
    requires ListOk(d) && commit in d.contexts && !d.settingTimeout
    ensures var e := FinishSubmission(d, commit, None, ret, clock);
      && ListOk(e) && SameDeadlines(d, e) && d.nextId <= e.nextId && !e.settingTimeout && TimerOk(e)
      && (forall call <- e.commitCalls :: call in d.commitCalls)
      && Counted(e, commit, ret)
      && Settles(d, e, commit)
  {
    var call := CommitCall(d.nextId, commit);
    var d1 := InsertCommit(d, commit);
    var e := FinishSubmission(d, commit, None, ret, clock);
    InsertOk(d, commit);
    FindLast(d.commitCalls, call);
    CompleteCommitKeeps(d1, d.nextId, ret, clock);
    CompleteCommitArms(d1, d.nextId, ret, clock);
    CompleteCommitConserves(d1, d.nextId, ret, clock);
    CompletedLeaves(d1, call, ret, clock);
    forall other | other in e.commitCalls ensures other in d.commitCalls {
      assert other in d1.commitCalls && other.id != call.id;
    }
    forall c: nat, slack: nat | Booked(d, c, Plus(slack, c == commit)) ensures Booked(e, c, slack) {
      InsertBooks(d, commit, c, slack);
    }
  }

  /** A completed call is no longer listed. */
  lemma CompletedLeaves(d: Device, call: CommitCall, ret: Status, clock: Clock)
    requires ListOk(d) && FindCommit(d.commitCalls, call.id) == Some(call)
    ensures forall other <- CompleteCommit(d, call.id, ret, clock).commitCalls :: other.id != call.id && other in d.commitCalls
  {
    var d1 := d.(commitCalls := WithoutCommit(d.commitCalls, call.id));
    InOrderWithout(d.commitCalls, call.id);
    ListedFind(d.commitCalls, call.id, 0);
    SetNextKeeps(d1, clock);
  }

  lemma FinalKeeps(s: System, commit: nat, ret: Status, clock: Clock)
    requires CommitInv(s) && commit in s.submitters
    ensures var d := FinishSubmission(s.d, commit, None, ret, clock);
      && CommitInv(s.(d := d, submitters := s.submitters[commit := Finished(ret, true)]))
      && Counted(d, commit, ret) && Settles(s.d, d, commit)
  {
    var d := FinishSubmission(s.d, commit, None, ret, clock);
    var t := s.(d := d, submitters := s.submitters[commit := Finished(ret, true)]);
    FinalOk(s.d, commit, ret, clock);
    forall c | c in t.submitters.Keys ensures OwnCall(t, c) {
      assert OwnCall(s, c);
    }
  }

  lemma FailureBooks(d: Device, commit: nat, other: nat, slack: nat)
    requires Booked(d, other, Plus(slack, other == commit))
    requires other == commit ==> slack + Listed(d.commitCalls, commit) >= 1
    ensures Booked(CountFailure(d, commit), other, slack)
  {
  }

  /** The end of a submit loop whose last call failed. */
  lemma FailureOk(d: Device, commit: nat, own: nat, ret: Status, clock: Clock)
    requires ListOk(d) && commit in d.contexts && !d.settingTimeout && TimerOk(d)
    requires forall call <- d.commitCalls :: call.id == own ==> call.commit == commit
    ensures var e := FinishSubmission(CountFailure(d, commit), commit, Some(own), ret, clock);
      && ListOk(e) && SameDeadlines(d, e) && d.nextId <= e.nextId && !e.settingTimeout && TimerOk(e)
      && (forall call <- e.commitCalls :: call in d.commitCalls)
      && (FindCommit(d.commitCalls, own).Some? ==> Counted(e, commit, ret))
      && Keeps(CountFailure(d, commit), e)
      && (Listed(d.commitCalls, commit) == 0 ==> e == CountFailure(d, commit))
  {
    var d1 := CountFailure(d, commit);
    ListedFind(d.commitCalls, own, commit);
    FewerCallsOk(d, d1);
    CompleteCommitKeeps(d1, own, ret, clock);
    CompleteCommitArms(d1, own, ret, clock);
    CompleteCommitConserves(d1, own, ret, clock);
  }

  lemma FailureKeeps(s: System, commit: nat, ret: Status, clock: Clock)
    requires CommitInv(s) && Returning(s, commit)
    ensures var own := s.submitters[commit].own;
      var d := FinishSubmission(CountFailure(s.d, commit), commit, Some(own), ret, clock);
      var noticed := FindCommit(s.d.commitCalls, own).Some?;
      && CommitInv(s.(d := d, submitters := s.submitters[commit := Finished(ret, noticed)]))
      && (noticed ==> Counted(d, commit, ret))
      && Keeps(CountFailure(s.d, commit), d)
      && (Listed(s.d.commitCalls, commit) == 0 ==> d == CountFailure(s.d, commit))
  {
    var own := s.submitters[commit].own;
    var d := FinishSubmission(CountFailure(s.d, commit), commit, Some(own), ret, clock);
    var t := s.(d := d, submitters := s.submitters[commit := Finished(ret, FindCommit(s.d.commitCalls, own).Some?)]);
    assert OwnCall(s, commit);
    FailureOk(s.d, commit, own, ret, clock);
    forall c | c in t.submitters.Keys ensures OwnCall(t, c) {
      assert OwnCall(s, c);
    }
  }

  /** A fresh context, before its first call is listed. */
  lemma ContextKeeps(s: System, commit: nat, deadline: nat)
    requires CommitInv(s) && commit !in s.submitters
    ensures var d := s.d.(contexts := s.d.contexts[commit := NewContext(deadline)]);
      && CommitInv(s.(d := d, submitters := s.submitters[commit := Finished(NotFound, true)]))
      && Booked(d, commit, 1)
      && (forall c: nat, slack: nat :: c != commit && Booked(s.d, c, slack) ==> Booked(d, c, slack))
      && (forall c: nat, status :: c != commit && Counted(s.d, c, status) ==> Counted(d, c, status))
  {
    var d := s.d.(contexts := s.d.contexts[commit := NewContext(deadline)]);
    var t := s.(d := d, submitters := s.submitters[commit := Finished(NotFound, true)]);
    forall c | c in t.submitters.Keys ensures OwnCall(t, c) {
      assert c != commit ==> OwnCall(s, c);
    }
    forall call | call in d.commitCalls ensures DeadlineOf(d, call) == DeadlineOf(s.d, call) && call.commit != commit {
      assert call.commit in s.d.contexts;
    }
    NotListed(s.d.commitCalls, commit);
  }

  lemma BeginKeeps(s: System, commit: nat, deadline: nat, hasReport: bool, clock: Clock)
    requires CommitInv(s) && commit !in s.submitters && !s.d.inactive
    ensures var e := Apply(s, Begin(commit, deadline, hasReport, clock));
      && CommitInv(e) && Booked(e.d, commit, 0)
      && (!hasReport ==> Counted(e.d, commit, NotFound))
      && (forall c: nat, slack: nat :: c != commit && Booked(s.d, c, slack) ==> Booked(e.d, c, slack))
      && (forall c: nat, status :: c != commit && Counted(s.d, c, status) ==> Counted(e.d, c, status))
  {
    hide CommitInv, SetNextTimeout, InsertCommit, FinishSubmission;
    var d1 := s.d.(contexts := s.d.contexts[commit := NewContext(deadline)]);
    var t := s.(d := d1, submitters := s.submitters[commit := Finished(NotFound, true)]);
    ContextKeeps(s, commit, deadline);
    var d := if hasReport then SetNextTimeout(InsertCommit(d1, commit), clock) else FinishSubmission(d1, commit, None, NotFound, clock);
    var sub := if hasReport then Submitting(s.d.nextId, false) else Finished(NotFound, true);
    if hasReport {
      InsertKeeps(t, commit, clock);
    } else {
      FinalKeeps(t, commit, NotFound, clock);
    }
    SettlesOne(d1, d, commit);
    assert t.submitters[commit := sub] == s.submitters[commit := sub];
    assert Apply(s, Begin(commit, deadline, hasReport, clock)) == t.(d := d, submitters := t.submitters[commit := sub]);
  }

  lemma SettlesOne(d: Device, e: Device, commit: nat)
    requires Settles(d, e, commit)
    ensures Booked(d, commit, 1) ==> Booked(e, commit, 0)
    ensures forall c: nat, slack: nat :: c != commit && Booked(d, c, slack) ==> Booked(e, c, slack)
  {
    assert Plus(0, commit == commit) == 1;
    forall c: nat, slack: nat | c != commit && Booked(d, c, slack) ensures Booked(e, c, slack) {
      assert Plus(slack, c == commit) == slack;
    }
  }

  lemma {:induction false} NotListed(calls: seq<CommitCall>, commit: nat)
    requires forall call <- calls :: call.commit != commit
    ensures Listed(calls, commit) == 0
  {
    if calls != [] {
      assert calls == [calls[0]] + calls[1..];
      NotListed(calls[1..], commit);
    }
  }

  // ------------------------------------------------------ exactly-once firing

  /** Completions of a commit that are expected from calls not in the list. */
  function Slack(sub: Submitter): nat {
    if sub.Submitting? && sub.counted then 1 else 0
  }

  /** What holds of a commit as long as nothing has gone wrong for it. */
  ghost predicate Clean(s: System, c: nat) {
    c in s.submitters ==>
      && Booked(s.d, c, Slack(s.submitters[c]))
      && (s.submitters[c].Submitting? && !s.submitters[c].counted ==> Listed(s.d.commitCalls, c) > 0)
      && (s.submitters[c].Finished? && s.submitters[c].noticed ==> Counted(s.d, c, s.submitters[c].ret))
  }

  /** What a commit promises: its original completion has been invoked exactly
      once if the submit loop is over and no call is outstanding, and not at all before. */
  ghost predicate Promise(s: System, c: nat) {
    c in s.submitters && c in s.d.contexts ==>
      |s.d.contexts[c].outcomes| == (if s.submitters[c].Finished? && Listed(s.d.commitCalls, c) == 0 then 1 else 0)
  }

  /** The last outstanding call of a commit was completed between being listed
      and being counted. */
  ghost predicate WindowEmpty(s: System, c: nat) {
    c in s.submitters && s.submitters[c].Submitting? && !s.submitters[c].counted && Listed(s.d.commitCalls, c) == 0
  }

  /** A submission fails when no call of its commit is listed any more. */
  ghost predicate LostFailure(s: System, step: Step, c: nat) {
    step.SubmitReturns? && step.commit == c && Returning(s, c) && !step.ret.Success? && Listed(s.d.commitCalls, c) == 0
  }

  /** The two schedules that break the promise. */
  ghost predicate Mishap(s: System, step: Step, c: nat) {
    WindowEmpty(Apply(s, step), c) || LostFailure(s, step, c)
  }

  /** The books, and the statuses counted, but nothing about the window. */
  ghost predicate NearlyClean(s: System, c: nat) {
    c in s.submitters ==>
      && Booked(s.d, c, Slack(s.submitters[c]))
      && (s.submitters[c].Finished? && s.submitters[c].noticed ==> Counted(s.d, c, s.submitters[c].ret))
  }

  lemma WindowDecides(s: System, c: nat)
    requires NearlyClean(s, c)
    ensures Clean(s, c) <==> !WindowEmpty(s, c)
    ensures Promise(s, c) <==> !WindowEmpty(s, c)
  {
  }

  lemma KeptNearly(s: System, e: System, c: nat)
    requires CommitInv(s) && Clean(s, c) && Keeps(s.d, e.d) && e.submitters == s.submitters
    ensures NearlyClean(e, c)
  {
  }

  lemma {:induction false} TakeKeeps(d: Device, clock: Clock)
    requires ListOk(d) && !d.settingTimeout && TimerOk(d)
    ensures Keeps(d, TakeReport(d, clock).0) && TimerOk(TakeReport(d, clock).0)
    decreases |d.reportCalls|
  {
    var e := TakeReport(d, clock).0;
    if d.reportCalls != [] && d.inactive {
      var id := d.reportCalls[0].id;
      CompleteReportKeeps(d, id, Aborted, clock);
      CompleteReportArms(d, id, Aborted, clock);
      CompleteReportConserves(d, id, Aborted, clock);
      TakeKeeps(CompleteReport(d, id, Aborted, clock), clock);
      KeepsTransitive(d, CompleteReport(d, id, Aborted, clock), e);
    } else {
      SameKeeps(d, e);
    }
  }

  /** Steps that are not steps of a submitter. */
  predicate Outside(step: Step) {
    !step.Begin? && !step.CountCall? && !step.SubmitReturns?
  }

  lemma SubmitKeeps(d: Device, deadline: nat, clock: Clock)
    requires ListOk(d) && !d.settingTimeout && !d.inactive
    ensures var e := SubmitReport(d, deadline, clock); Keeps(d, e) && TimerOk(e) && !e.settingTimeout
  {
    var d1 := AppendReport(d, deadline);
    var d2 := SetNextTimeout(d1, clock);
    SameKeeps(d, d1);
    SetNextKeeps(d1, clock);
    SetNextArms(d1, clock);
    SetNextConserves(d1, clock);
    KeepsTransitive(d, d1, d2);
    SameKeeps(d2, SubmitReport(d, deadline, clock));
    KeepsTransitive(d, d2, SubmitReport(d, deadline, clock));
  }

  lemma AbortKeeps(d: Device, clock: Clock)
    requires ListOk(d) && !d.settingTimeout && d.inactive
    ensures var e := AbortCommits(AbortReports(d, clock), clock); Keeps(d, e) && TimerOk(e) && !e.settingTimeout
  {
    var d1 := AbortReports(d, clock);
    AbortReportsKeeps(d, clock);
    AbortCommitsKeeps(d1, clock);
    AbortReportsConserves(d, clock);
    AbortCommitsConserves(d1, clock);
    KeepsTransitive(d, d1, AbortCommits(d1, clock));
  }

  /** A device region that leaves the books and the timer in order. */
  ghost predicate Safe(d: Device, e: Device) {
    Keeps(d, e) && TimerOk(e) && !e.settingTimeout
  }

  lemma WorkerKeeps(d: Device, id: nat, ret: Status, clock: Clock)
    requires ListOk(d) && !d.settingTimeout && TimerOk(d)
    ensures Safe(d, TakeReport(d, clock).0) && Safe(d, CompleteReport(d, id, ret, clock))
  {
    TakeKeeps(d, clock);
    TakeParts(d, clock);
    CompleteReportKeeps(d, id, ret, clock);
    CompleteReportArms(d, id, ret, clock);
    CompleteReportConserves(d, id, ret, clock);
  }

  lemma CompletionKeeps(d: Device, id: nat, status: Status, clock: Clock)
    requires ListOk(d) && !d.settingTimeout && TimerOk(d)
    ensures Safe(d, SetNextTimeout(d, clock)) && Safe(d, CompleteCommit(d, id, status, clock))
  {
    SetNextKeeps(d, clock);
    SetNextArms(d, clock);
    SetNextConserves(d, clock);
    CompleteCommitKeeps(d, id, status, clock);
    CompleteCommitArms(d, id, status, clock);
    CompleteCommitConserves(d, id, status, clock);
  }

  ghost predicate SafeStep(s: System, step: Step) {
    Safe(s.d, Apply(s, step).d) && Apply(s, step).submitters == s.submitters
  }

  lemma FlagsKeep(s: System, step: Step)
    requires CommitInv(s) && (step.WorkerStarts? || step.BecomeInactive? || step.DidTerminate?)
    ensures SafeStep(s, step)
  {
    SameKeeps(s.d, Apply(s, step).d);
  }

  lemma WorkerTakesKeeps(s: System, clock: Clock)
    requires CommitInv(s)
    ensures SafeStep(s, WorkerTakes(clock))
  {
    SameKeeps(s.d, s.d);
    WorkerKeeps(s.d, 0, Success, clock);
    var (d, next) := TakeReport(s.d, clock);
    var e := Apply(s, WorkerTakes(clock));
    assert e.submitters == s.submitters && (e.d == s.d || e.d == d);
  }

  lemma WorkerReturnsKeeps(s: System, ret: Status, clock: Clock)
    requires CommitInv(s)
    ensures SafeStep(s, WorkerReturns(ret, clock))
  {
    SameKeeps(s.d, s.d);
    if s.worker.InTransport? {
      WorkerKeeps(s.d, s.worker.id, ret, clock);
    }
  }

  lemma OutReportKeeps(s: System, deadline: nat, clock: Clock)
    requires CommitInv(s)
    ensures SafeStep(s, OutReport(deadline, clock))
  {
    SameKeeps(s.d, s.d);
    if !s.d.inactive {
      SubmitKeeps(s.d, deadline, clock);
    }
  }

  lemma WillTerminateKeeps(s: System, clock: Clock)
    requires CommitInv(s)
    ensures SafeStep(s, WillTerminate(clock))
  {
    SameKeeps(s.d, s.d);
    if s.d.inactive && s.stage.Running? {
      AbortKeeps(s.d, clock);
    }
  }

  lemma TransportKeeps(s: System, id: nat, status: Status, clock: Clock)
    requires CommitInv(s)
    ensures SafeStep(s, TransportCompletes(id, status, clock))
  {
    if Submitted(s, id) {
      CompletionKeeps(s.d, id, status, clock);
    } else {
      SameKeeps(s.d, s.d);
    }
  }

  lemma TimerKeeps(s: System, clock: Clock)
    requires CommitInv(s)
    ensures SafeStep(s, TimerFires(clock))
  {
    CompletionKeeps(s.d, 0, Success, clock);
  }

  lemma OutsideKeeps(s: System, step: Step)
    requires CommitInv(s) && Outside(step)
    ensures SafeStep(s, step)
  {
    match step
    case OutReport(deadline, clock) => OutReportKeeps(s, deadline, clock);
    case WorkerTakes(clock) => WorkerTakesKeeps(s, clock);
    case WorkerReturns(ret, clock) => WorkerReturnsKeeps(s, ret, clock);
    case TimerFires(clock) => TimerKeeps(s, clock);
    case WillTerminate(clock) => WillTerminateKeeps(s, clock);
    case TransportCompletes(id, status, clock) => TransportKeeps(s, id, status, clock);
    case _ => FlagsKeep(s, step);
  }

  lemma CountKeeps(s: System, commit: nat)
    requires CommitInv(s)
    ensures CommitInv(Apply(s, CountCall(commit)))
    ensures forall c :: Clean(s, c) ==> Clean(Apply(s, CountCall(commit)), c)
  {
    var e := Apply(s, CountCall(commit));
    if commit in s.submitters && s.submitters[commit].Submitting? && !s.submitters[commit].counted {
      FewerCallsOk(s.d, e.d);
      assert OwnCall(s, commit);
      forall k | k in e.submitters.Keys ensures OwnCall(e, k) {
        assert OwnCall(s, k);
      }
      forall c | Clean(s, c) ensures Clean(e, c) {
        assert c != commit ==> Counted(s.d, c, if c in s.submitters && s.submitters[c].Finished? then s.submitters[c].ret else Success)
                               == Counted(e.d, c, if c in s.submitters && s.submitters[c].Finished? then s.submitters[c].ret else Success);
      }
    }
  }

  lemma ReturnKeeps(s: System, commit: nat, ret: Status, more: bool, clock: Clock)
    requires CommitInv(s) && Returning(s, commit)
    ensures CommitInv(Apply(s, SubmitReturns(commit, ret, more, clock)))
    ensures var e := Apply(s, SubmitReturns(commit, ret, more, clock));
      && (forall c: nat, slack: nat :: c != commit && Booked(s.d, c, slack) ==> Booked(e.d, c, slack))
      && (forall c: nat, status :: Counted(s.d, c, status) ==> Counted(e.d, c, status))
      && (e.submitters[commit].Finished? && e.submitters[commit].noticed ==> Counted(e.d, commit, ret))
      && (Booked(s.d, commit, 1) && (ret.Success? || Listed(s.d.commitCalls, commit) > 0) ==> Booked(e.d, commit, 0))
      && (!ret.Success? && Listed(s.d.commitCalls, commit) == 0 ==> e.d == CountFailure(s.d, commit))
  {
    hide CommitInv, SetNextTimeout, InsertCommit;
    var e := Apply(s, SubmitReturns(commit, ret, more, clock));
    if !ret.Success? {
      var d1 := CountFailure(s.d, commit);
      FailureKeeps(s, commit, ret, clock);
      forall c: nat, slack: nat | c != commit && Booked(s.d, c, slack) ensures Booked(e.d, c, slack) {
        assert Booked(d1, c, slack);
      }
      forall c: nat, status | Counted(s.d, c, status) ensures Counted(e.d, c, status) {
        assert Counted(d1, c, status);
      }
      if Listed(s.d.commitCalls, commit) > 0 && Booked(s.d, commit, 1) {
        FailureBooks(s.d, commit, commit, 0);
      }
    } else if more {
      InsertKeeps(s, commit, clock);
      SettlesOne(s.d, e.d, commit);
    } else {
      FinalKeeps(s, commit, Success, clock);
      SettlesOne(s.d, e.d, commit);
    }
  }

  lemma StepKeepsCommitInv(s: System, step: Step)
    requires CommitInv(s)
    ensures CommitInv(Apply(s, step))
  {
    if Outside(step) {
      OutsideKeeps(s, step);
      KeptInv(s, Apply(s, step));
    } else {
      match step
      case CountCall(commit) => CountKeeps(s, commit);
      case Begin(commit, deadline, hasReport, clock) =>
        if !(s.d.inactive || commit in s.submitters) { BeginKeeps(s, commit, deadline, hasReport, clock); }
      case SubmitReturns(commit, ret, more, clock) =>
        if Returning(s, commit) { ReturnKeeps(s, commit, ret, more, clock); }
    }
  }

  /** Without a mishap a commit stays clean; a mishap breaks the promise at once. */
  lemma StepKeepsCommits(s: System, step: Step, c: nat)
    requires CommitInv(s) && Clean(s, c)
    ensures !Mishap(s, step, c) ==> Clean(Apply(s, step), c)
    ensures Mishap(s, step, c) ==> !Promise(Apply(s, step), c)
  {
    var e := Apply(s, step);
    if Outside(step) {
      OutsideKeeps(s, step);
      KeptNearly(s, e, c);
      WindowDecides(e, c);
    } else {
      match step
      case CountCall(commit) =>
        CountKeeps(s, commit);
        WindowDecides(e, c);
      case Begin(commit, deadline, hasReport, clock) =>
        if !(s.d.inactive || commit in s.submitters) {
          BeginKeeps(s, commit, deadline, hasReport, clock);
          assert NearlyClean(e, c);
        }
        WindowDecides(e, c);
      case SubmitReturns(commit, ret, more, clock) =>
        if Returning(s, commit) {
          ReturnDecides(s, commit, ret, more, clock, c);
        } else {
          WindowDecides(e, c);
        }
    }
  }

  lemma ReturnDecides(s: System, commit: nat, ret: Status, more: bool, clock: Clock, c: nat)
    requires CommitInv(s) && Clean(s, c) && Returning(s, commit)
    ensures var step := SubmitReturns(commit, ret, more, clock);
      && (!Mishap(s, step, c) ==> Clean(Apply(s, step), c))
      && (Mishap(s, step, c) ==> !Promise(Apply(s, step), c))
  {
    var step := SubmitReturns(commit, ret, more, clock);
    var e := Apply(s, step);
    ReturnKeeps(s, commit, ret, more, clock);
    if !LostFailure(s, step, c) {
      assert NearlyClean(e, c);
      WindowDecides(e, c);
    }
  }

  // ------------------------------------------------------------- whole runs

  lemma {:induction false} ExecPrefix(s: System, steps: seq<Step>, k: nat)
    requires k < |steps|
    ensures Exec(s, steps[..k + 1]) == Apply(Exec(s, steps[..k]), steps[k])
    decreases k
  {
    if k > 0 {
      ExecPrefix(Apply(s, steps[0]), steps[1..], k - 1);
      assert steps[..k + 1][1..] == steps[1..][..k] && steps[..k][1..] == steps[1..][..k - 1];
    } else {
      assert steps[..1][1..] == [];
    }
  }

  lemma {:induction false} RunKeepsCommitInv(steps: seq<Step>, k: nat)
    requires k <= |steps|
    ensures CommitInv(Exec(START, steps[..k]))
    decreases k
  {
    if k > 0 {
      RunKeepsCommitInv(steps, k - 1);
      ExecPrefix(START, steps, k - 1);
      StepKeepsCommitInv(Exec(START, steps[..k - 1]), steps[k - 1]);
    }
  }

  /** While the device is active and the lock is free, the timer is armed for a
      time no later than any deadline, in every reachable state. */
  lemma TimerNeverOversleeps(steps: seq<Step>)
    ensures TimerOk(Exec(START, steps).d)
  {
    RunKeepsCommitInv(steps, |steps|);
    assert steps[..|steps|] == steps;
  }

  /** The promise to commit `c` held all along the run. */
  ghost predicate PromiseKept(steps: seq<Step>, c: nat) {
    forall k :: 0 <= k <= |steps| ==> Promise(Exec(START, steps[..k]), c)
  }

  ghost predicate NoMishap(steps: seq<Step>, c: nat, k: nat)
    requires k <= |steps|
  {
    forall j :: 0 <= j < k ==> !Mishap(Exec(START, steps[..j]), steps[j], c)
  }

  lemma {:induction false} CleanWithoutMishap(steps: seq<Step>, c: nat, k: nat)
    requires k <= |steps| && NoMishap(steps, c, k)
    ensures Clean(Exec(START, steps[..k]), c)
    decreases k
  {
    hide Apply, CommitInv, Mishap;
    if k > 0 {
      CleanWithoutMishap(steps, c, k - 1);
      RunKeepsCommitInv(steps, k - 1);
      ExecPrefix(START, steps, k - 1);
      StepKeepsCommits(Exec(START, steps[..k - 1]), steps[k - 1], c);
    }
  }

  /** Whatever the interleaving of submission, transport, timer and termination:
      a commit's original completion is invoked exactly once, after its submit
      loop is over and its last call has left the list, and not before, if and
      only if neither of the two mishaps befalls the commit. */
  lemma CommitFiresOnceIff(steps: seq<Step>, c: nat)
    ensures PromiseKept(steps, c) <==> NoMishap(steps, c, |steps|)
  {
    if NoMishap(steps, c, |steps|) {
      forall k | 0 <= k <= |steps| ensures Promise(Exec(START, steps[..k]), c) {
        CleanWithoutMishap(steps, c, k);
        WindowDecides(Exec(START, steps[..k]), c);
      }
    } else {
      var j := FirstMishap(steps, c, |steps|);
      CleanWithoutMishap(steps, c, j);
      RunKeepsCommitInv(steps, j);
      ExecPrefix(START, steps, j);
      StepKeepsCommits(Exec(START, steps[..j]), steps[j], c);
      assert !Promise(Exec(START, steps[..j + 1]), c);
    }
  }

  lemma {:induction false} FirstMishap(steps: seq<Step>, c: nat, k: nat) returns (j: nat)
    requires k <= |steps| && !NoMishap(steps, c, k)
    ensures j < k && NoMishap(steps, c, j) && Mishap(Exec(START, steps[..j]), steps[j], c)
    decreases k
  {
    var m :| 0 <= m < k && Mishap(Exec(START, steps[..m]), steps[m], c);
    if NoMishap(steps, c, m) {
      j := m;
    } else {
      j := FirstMishap(steps, c, m);
    }
  }

  /** A commit reports success only if everything that was counted for it
      succeeded, its own submit loop included if that end of it was noticed. */
  lemma SuccessMeansSuccess(steps: seq<Step>, c: nat)
    requires NoMishap(steps, c, |steps|)
    ensures var s := Exec(START, steps);
      c in s.submitters && c in s.d.contexts && s.d.contexts[c].outcomes == [Success]
      ==> && (forall st <- s.d.contexts[c].statuses :: st == Success)
          && s.submitters[c].Finished? && (s.submitters[c].noticed ==> s.submitters[c].ret == Success)
  {
    OutcomeIsLastFailure(steps, c);
    CleanWithoutMishap(steps, c, |steps|);
    assert steps[..|steps|] == steps;
    var s := Exec(START, steps);
    if c in s.d.contexts {
      LastFailureIs(s.d.contexts[c].statuses);
    }
  }

  /** What a commit reports is the last status counted for it that is no success,
      and success when there is none. */
  lemma OutcomeIsLastFailure(steps: seq<Step>, c: nat)
    requires NoMishap(steps, c, |steps|)
    ensures var s := Exec(START, steps);
      c in s.submitters && c in s.d.contexts && s.d.contexts[c].outcomes != []
      ==> s.d.contexts[c].outcomes == [LastFailure(s.d.contexts[c].statuses)]
  {
    CleanWithoutMishap(steps, c, |steps|);
    assert steps[..|steps|] == steps;
  }

  /** Termination leaves no call of any commit outstanding. */
  lemma TerminationClearsCommits(s: System, clock: Clock)
    requires s.d.inactive && s.stage.Running?
    ensures Apply(s, WillTerminate(clock)).d.commitCalls == [] && Apply(s, WillTerminate(clock)).d.reportCalls == []
  {
    AbortConserves(s.d, clock);
  }

  function Outcomes(s: System, c: nat): seq<Status> {
    if c in s.d.contexts then s.d.contexts[c].outcomes else []
  }

  /** A concrete run with a mishap: one report; termination falls between its
      listing and its counting. The completion fires while the submit loop is
      still running, and a second time when it ends. */
  lemma EarlyTerminationFiresTwice(clock: Clock)
    requires clock(0) == 0
    ensures var s1 := Apply(START, Begin(0, 1, true, clock));
      var s2 := Apply(Apply(s1, BecomeInactive), WillTerminate(clock));
      var s3 := Apply(Apply(s2, CountCall(0)), SubmitReturns(0, Success, false, clock));
      && WindowEmpty(s2, 0) && Outcomes(s2, 0) == [Aborted]
      && Outcomes(s3, 0) == [Aborted, Aborted]
  {
    hide SetNextTimeout, AbortCommits, AbortReports, FinishSubmission;
    var s1 := Apply(START, Begin(0, 1, true, clock));
    OneCall(START.d.(contexts := map[0 := NewContext(1)]), CommitCall(0, 0), clock);
    var i := Apply(s1, BecomeInactive);
    AbortOne(i.d, clock);
    var s2 := Apply(i, WillTerminate(clock));
    assert s2.d.contexts[0] == Context(Aborted, 1, 1, 1, [Aborted], [Aborted]);
    var s := Apply(s2, CountCall(0));
    LastOne(s.d, clock);
    var s3 := Apply(s, SubmitReturns(0, Success, false, clock));
    assert s3.d.contexts[0] == AccountContext(s.d.contexts[0], Success);
  }

  lemma AbortOne(d: Device, clock: Clock)
    requires d.commitCalls == [CommitCall(0, 0)] && d.reportCalls == [] && d.inactive && !d.settingTimeout
    requires 0 in d.contexts
    ensures var e := AbortCommits(AbortReports(d, clock), clock);
      e == d.(commitCalls := [], contexts := d.contexts[0 := AccountContext(d.contexts[0], Aborted)])
  {
    assert AbortReports(d, clock) == d;
    assert WithoutCommit(d.commitCalls, 0) == [] && FindCommit(d.commitCalls, 0) == Some(CommitCall(0, 0));
    var e := CompleteCommit(d, 0, Aborted, clock);
    assert AbortCommits(e, clock) == e;
  }

  lemma LastOne(d: Device, clock: Clock)
    requires d.commitCalls == [] && d.inactive && 0 in d.contexts && d.nextId == 1
    ensures var e := FinishSubmission(d, 0, None, Success, clock);
      0 in e.contexts && e.contexts[0] == AccountContext(d.contexts[0], Success)
  {
    var d1 := InsertCommit(d, 0);
    FindLast([], CommitCall(1, 0));
    assert d1.commitCalls == [] + [CommitCall(1, 0)];
  }

  /** Listing one call whose deadline lies ahead. */
  lemma OneCall(d: Device, call: CommitCall, clock: Clock)
    requires d.commitCalls == [] && d.reportCalls == [] && !d.inactive && !d.settingTimeout && d.nextId == call.id
    requires call.commit in d.contexts && d.contexts[call.commit].deadline > clock(0)
    ensures var e := SetNextTimeout(InsertCommit(d, call.commit), clock);
      e.commitCalls == [call] && e.contexts == d.contexts && e.reportCalls == [] && !e.inactive && !e.settingTimeout
      && e.nextId == d.nextId + 1
  {
    var d1 := InsertCommit(d, call.commit);
    assert d1.commitCalls == [call] && [call][1..] == [];
    SetNextParts(d1, clock);
    var d2 := ScanReports(d1.(settingTimeout := true, timer := NEVER), clock);
    assert ExpireCommits(d2, [call], clock, 0) == ExpireCommits(d2, [], clock, 1) == d2;
  }
}
