/**
 What the callers of asynchronous calls are told, over whole runs: the status
 that each report call and each commit gets, and when a call has to end.
 */
module AsyncOutcomes {
  import opened AsyncCalls
  import opened AsyncReports
  import opened AsyncCommits
  import opened AsyncProtocol
  import opened CommitProtocol
  import opened Options

  // ------------------------------------------------- the status of a report call

  /** With which status a step ends a report call that it takes off the list. */
  function FinalStatus(s: System, step: Step, id: nat): Status {
    if step.WorkerReturns? && s.worker == InTransport(id) then step.ret
    else if step.WorkerTakes? || step.WillTerminate? then Aborted
    else Timeout
  }

  /** Completions are only added, with these statuses. */
  ghost predicate Logs(d: Device, e: Device, status: nat -> Status) {
    d.completions <= e.completions && forall c <- e.completions[|d.completions|..] :: c.status == status(c.id)
  }

  lemma LogsTransitive(d: Device, e: Device, f: Device, status: nat -> Status)
    requires Logs(d, e, status) && Logs(e, f, status)
    ensures Logs(d, f, status)
  {
    var more, again := e.completions[|d.completions|..], f.completions[|e.completions|..];
    assert f.completions[|d.completions|..] == more + again;
  }

  lemma ScanLogs(d: Device, clock: Clock, status: nat -> Status)
    requires d.inactive || forall call <- d.reportCalls :: status(call.id) == Timeout
    ensures Logs(d, SetNextTimeout(d, clock), status)
  {
    if !d.inactive && !d.settingTimeout {
      SetNextParts(d, clock);
      ExpiredSubset(d.reportCalls, clock, 0);
    }
  }

  lemma CompleteLogs(d: Device, id: nat, ret: Status, clock: Clock, status: nat -> Status)
    requires Ascending(d.reportCalls) && status(id) == ret
    requires d.inactive || forall call <- d.reportCalls :: call.id != id ==> status(call.id) == Timeout
    ensures Logs(d, CompleteReport(d, id, ret, clock), status)
  {
    if FindReport(d.reportCalls, id) {
      var d0 := d.(reportCalls := WithoutReport(d.reportCalls, id));
      WithoutReportAscends(d.reportCalls, id);
      AscendingOnce(d.reportCalls, id);
      WithoutReportSplits(d.reportCalls, id, id);
      QueuedMember(d0.reportCalls, id);
      ScanLogs(d0, clock, status);
      LogsTransitive(d, SetNextTimeout(d0, clock), CompleteReport(d, id, ret, clock), status);
    }
  }

  lemma {:induction false} TakeLogs(d: Device, clock: Clock, status: nat -> Status)
    requires Ascending(d.reportCalls) && forall id :: status(id) == Aborted
    ensures Logs(d, TakeReport(d, clock).0, status)
    decreases |d.reportCalls|
  {
    if d.reportCalls != [] && d.inactive {
      var id := d.reportCalls[0].id;
      CompleteLogs(d, id, Aborted, clock, status);
      CompleteReportConserves(d, id, Aborted, clock);
      TakeLogs(CompleteReport(d, id, Aborted, clock), clock, status);
      LogsTransitive(d, CompleteReport(d, id, Aborted, clock), TakeReport(d, clock).0, status);
    }
  }

  lemma {:induction false} AbortReportsLogs(d: Device, clock: Clock, status: nat -> Status)
    requires d.inactive && Ascending(d.reportCalls) && forall id :: status(id) == Aborted
    ensures Logs(d, AbortReports(d, clock), status)
    decreases |d.reportCalls|
  {
    if d.reportCalls != [] {
      var id := d.reportCalls[0].id;
      CompleteLogs(d, id, Aborted, clock, status);
      CompleteReportConserves(d, id, Aborted, clock);
      AbortReportsLogs(CompleteReport(d, id, Aborted, clock), clock, status);
      LogsTransitive(d, CompleteReport(d, id, Aborted, clock), AbortReports(d, clock), status);
    }
  }

  lemma {:induction false} AbortCommitsLogs(d: Device, clock: Clock)
    requires d.inactive
    ensures AbortCommits(d, clock).completions == d.completions
    decreases |d.commitCalls|
  {
    if d.commitCalls != [] {
      AbortCommitsLogs(CompleteCommit(d, d.commitCalls[0].id, Aborted, clock), clock);
    }
  }

  lemma CompleteCommitLogs(d: Device, id: nat, ret: Status, clock: Clock, status: nat -> Status)
    requires forall call <- d.reportCalls :: status(call.id) == Timeout
    ensures Logs(d, CompleteCommit(d, id, ret, clock), status)
  {
    ScanLogs(d.(commitCalls := WithoutCommit(d.commitCalls, id)), clock, status);
  }

  lemma InsertLogs(d: Device, commit: nat, clock: Clock, status: nat -> Status)
    requires forall call <- d.reportCalls :: status(call.id) == Timeout
    ensures Logs(d, SetNextTimeout(InsertCommit(d, commit), clock), status)
  {
    ScanLogs(InsertCommit(d, commit), clock, status);
  }

  lemma FinishLogs(d: Device, commit: nat, own: Option<nat>, ret: Status, clock: Clock, status: nat -> Status)
    requires forall call <- d.reportCalls :: status(call.id) == Timeout
    ensures Logs(d, FinishSubmission(d, commit, own, ret, clock), status)
  {
    match own
    case None => CompleteCommitLogs(InsertCommit(d, commit), d.nextId, ret, clock, status);
    case Some(id) => CompleteCommitLogs(d, id, ret, clock, status);
  }

  lemma SubmitterLogs(s: System, step: Step, status: nat -> Status)
    requires step.Begin? || step.CountCall? || step.SubmitReturns?
    requires forall call <- s.d.reportCalls :: status(call.id) == Timeout
    ensures Logs(s.d, Apply(s, step).d, status)
  {
    match step
    case Begin(commit, deadline, hasReport, clock) =>
      var d1 := s.d.(contexts := s.d.contexts[commit := NewContext(deadline)]);
      InsertLogs(d1, commit, clock, status);
      FinishLogs(d1, commit, None, NotFound, clock, status);
    case CountCall(commit) =>
    case SubmitReturns(commit, ret, more, clock) =>
      if Returning(s, commit) {
        FinishLogs(CountFailure(s.d, commit), commit, Some(s.submitters[commit].own), ret, clock, status);
        InsertLogs(s.d, commit, clock, status);
        FinishLogs(s.d, commit, None, Success, clock, status);
      }
  }

  ghost function Finals(s: System, step: Step): nat -> Status {
    (id: nat) => FinalStatus(s, step, id)
  }

  lemma StepLogs(s: System, step: Step)
    requires ReportInv(s)
    ensures Logs(s.d, Apply(s, step).d, Finals(s, step))
  {
    hide CompleteReport, SetNextTimeout, AbortReports, AbortCommits, TakeReport, CompleteCommit;
    var status := Finals(s, step);
    match step
    case OutReport(deadline, clock) => ScanLogs(AppendReport(s.d, deadline), clock, status);
    case WorkerTakes(clock) => TakeLogs(s.d, clock, status);
    case WorkerReturns(ret, clock) => if s.worker.InTransport? { CompleteLogs(s.d, s.worker.id, ret, clock, status); }
    case TimerFires(clock) => ScanLogs(s.d, clock, status);
    case WillTerminate(clock) =>
      if s.d.inactive {
        AbortReportsLogs(s.d, clock, status);
        AbortCommitsLogs(AbortReports(s.d, clock), clock);
      }
    case TransportCompletes(id, ret, clock) => CompleteCommitLogs(s.d, id, ret, clock, status);
    case WorkerStarts =>
    case BecomeInactive =>
    case DidTerminate =>
    case _ => SubmitterLogs(s, step, status);
  }

  lemma {:induction false} DoneMember(log: seq<Completion>, id: nat)
    ensures Done(log, id) > 0 <==> exists c <- log :: c.id == id
    ensures Done(log, id) <= 1 ==> forall c <- log, c' <- log :: c.id == id && c'.id == id ==> c == c'
  {
    if log != [] {
      DoneMember(log[1..], id);
      assert log == [log[0]] + log[1..];
    }
  }

  lemma {:induction false} RunLogs(steps: seq<Step>, j: nat, k: nat)
    requires j <= k <= |steps|
    ensures Exec(START, steps[..j]).d.completions <= Exec(START, steps[..k]).d.completions
    decreases k
  {
    hide Apply, Exec, ReportInv, ThreadInv, FinalStatus;
    if j < k {
      RunLogs(steps, j, k - 1);
      RunInvs(steps, k - 1);
      ExecPrefix(START, steps, k - 1);
      StepLogs(Exec(START, steps[..k - 1]), steps[k - 1]);
    }
  }

  lemma RunInvs(steps: seq<Step>, k: nat)
    requires k <= |steps|
    ensures ReportInv(Exec(START, steps[..k]))
  {
    hide Exec;
    RunKeepsReportInvs(START, steps[..k]);
  }

  /** The completion of a report call is invoked in this step. */
  ghost predicate Ends(s: System, step: Step, id: nat) {
    Done(s.d.completions, id) == 0 && Done(Apply(s, step).d.completions, id) > 0
  }

  lemma EndedOnce(s: System, step: Step, id: nat)
    requires ReportInv(s) && Ends(s, step, id)
    ensures Completion(id, FinalStatus(s, step, id)) in Apply(s, step).d.completions
  {
    hide Apply, ReportInv;
    var e := Apply(s, step);
    StepLogs(s, step);
    var more := e.d.completions[|s.d.completions|..];
    assert e.d.completions == s.d.completions + more;
    DoneSum(s.d.completions, more, id);
    DoneMember(more, id);
    var c :| c in more && c.id == id;
    assert c.status == Finals(s, step)(id);
  }

  lemma CompletedOnce(s: System, id: nat)
    requires ReportInv(s)
    ensures Done(s.d.completions, id) <= 1
  {
    assert Total(s.d, id) <= 1;
  }

  /** The one completion of a report call carries what ended it: the status that
      the transport returned to the worker for this call, Aborted if termination or
      the worker on an inactive device took it off the list, and Timeout if a scan
      did, in whatever step. */
  lemma CompletionStatus(steps: seq<Step>, j: nat, id: nat)
    requires j < |steps| && Ends(Exec(START, steps[..j]), steps[j], id)
    ensures var s, status := Exec(START, steps), FinalStatus(Exec(START, steps[..j]), steps[j], id);
      Completion(id, status) in s.d.completions && forall c <- s.d.completions :: c.id == id ==> c.status == status
  {
    hide Apply, Exec, ReportInv, FinalStatus;
    var end := Exec(START, steps);
    RunInvs(steps, j);
    RunInvs(steps, |steps|);
    assert steps[..|steps|] == steps;
    RunLogs(steps, j + 1, |steps|);
    ExecPrefix(START, steps, j);
    EndedOnce(Exec(START, steps[..j]), steps[j], id);
    CompletedOnce(end, id);
    DoneMember(end.d.completions, id);
  }

  /** Every completion is invoked in some step, whose status it has. */
  lemma {:induction false} EndedBySome(steps: seq<Step>, k: nat, id: nat) returns (j: nat)
    requires k <= |steps| && Done(Exec(START, steps[..k]).d.completions, id) > 0
    ensures j < k && Ends(Exec(START, steps[..j]), steps[j], id)
    decreases k
  {
    hide Apply;
    assert k > 0 by {
      assert steps[..0] == [];
    }
    ExecPrefix(START, steps, k - 1);
    if Done(Exec(START, steps[..k - 1]).d.completions, id) > 0 {
      j := EndedBySome(steps, k - 1, id);
    } else {
      j := k - 1;
    }
  }

  // ---------------------------------------------------- the statuses of a commit

  /** The statuses counted so far for a commit. */
  function StatusesOf(d: Device, commit: nat): seq<Status> {
    if commit in d.contexts then d.contexts[commit].statuses else []
  }

  function Repeated(status: Status, n: nat): (r: seq<Status>)
    ensures |r| == n
  {
    seq(n, i => status)
  }

  lemma RepeatedMore(status: Status, m: nat, n: nat)
    ensures Repeated(status, m) + Repeated(status, n) == Repeated(status, m + n)
    ensures Repeated(status, 1) == [status] && Repeated(status, 0) == []
  {
  }

  /** Calls of the commit that have expired are counted as timed out, and then the
      statuses `own`. */
  ghost predicate Collects(d: Device, e: Device, commit: nat, own: seq<Status>) {
    exists n: nat :: GainsAfter(d, e, commit, n, own)
  }

  ghost predicate Gains(d: Device, e: Device, commit: nat, own: seq<Status>) {
    d.contexts.Keys == e.contexts.Keys && Collects(d, e, commit, own)
  }

  ghost predicate GainsAfter(d: Device, e: Device, commit: nat, n: nat, own: seq<Status>) {
    StatusesOf(e, commit) == StatusesOf(d, commit) + Repeated(Timeout, n) + own
  }

  lemma SameGains(d: Device, e: Device, commit: nat)
    requires d.contexts.Keys == e.contexts.Keys && StatusesOf(e, commit) == StatusesOf(d, commit)
    ensures Gains(d, e, commit, [])
  {
    assert GainsAfter(d, e, commit, 0, []);
  }

  lemma GainsMore(d: Device, e: Device, f: Device, commit: nat, own: seq<Status>)
    requires Gains(d, e, commit, []) && Gains(e, f, commit, own)
    ensures Gains(d, f, commit, own)
  {
    var m: nat :| GainsAfter(d, e, commit, m, []);
    var n: nat :| GainsAfter(e, f, commit, n, own);
    RepeatedMore(Timeout, m, n);
    assert StatusesOf(f, commit) == StatusesOf(d, commit) + (Repeated(Timeout, m) + Repeated(Timeout, n)) + own;
    assert GainsAfter(d, f, commit, m + n, own);
  }

  lemma CountGains(d: Device, commit: nat, status: Status, other: nat)
    requires commit in d.contexts
    ensures StatusesOf(Account(d, commit, status), other) == StatusesOf(d, other) + (if other == commit then [status] else [])
    ensures Account(d, commit, status).contexts.Keys == d.contexts.Keys
  {
  }

  lemma {:induction false} ExpireGains(d: Device, calls: seq<CommitCall>, clock: Clock, k: nat, commit: nat)
    requires ListOk(d)
    ensures Gains(d, ExpireCommits(d, calls, clock, k), commit, [])
    decreases |calls|
  {
    hide Account, ListOk, Gains;
    if calls == [] {
      SameGains(d, d, commit);
    } else {
      var e := if DeadlineOf(d, calls[0]) > clock(k) then d else CompleteInScan(d, calls[0].id, Timeout);
      SameGains(d, d, commit);
      CompleteInScanKeeps(d, calls[0].id, Timeout);
      ScanGains(d, calls[0].id, commit);
      ExpireGains(e, calls[1..], clock, k + 1, commit);
      GainsMore(d, e, ExpireCommits(d, calls, clock, k), commit, []);
    }
  }

  lemma ScanGains(d: Device, id: nat, commit: nat)
    requires ListOk(d)
    ensures Gains(d, CompleteInScan(d, id, Timeout), commit, [])
  {
    var e := CompleteInScan(d, id, Timeout);
    match FindCommit(d.commitCalls, id)
    case None => SameGains(d, d, commit);
    case Some(call) =>
      ListedFind(d.commitCalls, id, 0);
      CountGains(d.(commitCalls := WithoutCommit(d.commitCalls, id)), call.commit, Timeout, commit);
      RepeatedMore(Timeout, 0, 0);
      assert GainsAfter(d, e, commit, if commit == call.commit then 1 else 0, []);
  }

  lemma SetNextGains(d: Device, clock: Clock, commit: nat)
    requires ListOk(d)
    ensures Gains(d, SetNextTimeout(d, clock), commit, [])
  {
    SameGains(d, d, commit);
    if !d.inactive && !d.settingTimeout {
      var d1 := ScanReports(d.(settingTimeout := true, timer := NEVER), clock);
      var d2 := ExpireCommits(d1, d.commitCalls, clock, |d.reportCalls|);
      var e := SetNextTimeout(d, clock);
      ExpireGains(d1, d.commitCalls, clock, |d.reportCalls|, commit);
      SameGains(d, d1, commit);
      GainsMore(d, d1, d2, commit, []);
      SameGains(d2, e, commit);
      GainsMore(d, d2, e, commit, []);
    }
  }

  /** What completing a call counts for a commit. */
  function Counts(d: Device, id: nat, status: Status, commit: nat): seq<Status> {
    match FindCommit(d.commitCalls, id)
    case None => []
    case Some(call) => if call.commit == commit then [status] else []
  }

  lemma CompleteGains(d: Device, id: nat, status: Status, clock: Clock, commit: nat)
    requires ListOk(d)
    ensures Gains(d, CompleteCommit(d, id, status, clock), commit, Counts(d, id, status, commit))
  {
    hide SetNextTimeout, Gains;
    match FindCommit(d.commitCalls, id)
    case None => SameGains(d, d, commit);
    case Some(call) =>
      ListedFind(d.commitCalls, id, 0);
      var d1 := d.(commitCalls := WithoutCommit(d.commitCalls, id));
      InOrderWithout(d.commitCalls, id);
      var d2, e := SetNextTimeout(d1, clock), CompleteCommit(d, id, status, clock);
      SameGains(d, d1, commit);
      SetNextGains(d1, clock, commit);
      SetNextKeeps(d1, clock);
      GainsMore(d, d1, d2, commit, []);
      CountGains(d2, call.commit, status, commit);
      RepeatedMore(Timeout, 0, 0);
      OwnGains(d2, e, commit, Counts(d, id, status, commit));
      GainsMore(d, d2, e, commit, Counts(d, id, status, commit));
  }

  lemma OwnGains(d: Device, e: Device, commit: nat, own: seq<Status>)
    requires d.contexts.Keys == e.contexts.Keys && StatusesOf(e, commit) == StatusesOf(d, commit) + own
    ensures Gains(d, e, commit, own)
  {
    assert GainsAfter(d, e, commit, 0, own);
  }

  /** Without a scan nothing times out. */
  lemma {:induction false} AbortGains(d: Device, clock: Clock, commit: nat)
    requires d.inactive && ListOk(d)
    ensures StatusesOf(AbortCommits(d, clock), commit)
            == StatusesOf(d, commit) + Repeated(Aborted, Listed(d.commitCalls, commit))
    ensures AbortCommits(d, clock).contexts.Keys == d.contexts.Keys
    decreases |d.commitCalls|
  {
    RepeatedMore(Aborted, 0, 0);
    if d.commitCalls != [] {
      var call := d.commitCalls[0];
      var d1 := d.(commitCalls := WithoutCommit(d.commitCalls, call.id));
      var e := CompleteCommit(d, call.id, Aborted, clock);
      assert e == Account(d1, call.commit, Aborted);
      CompleteCommitKeeps(d, call.id, Aborted, clock);
      CountGains(d1, call.commit, Aborted, commit);
      ListedFind(d.commitCalls, call.id, commit);
      AbortGains(e, clock, commit);
      RepeatedMore(Aborted, if call.commit == commit then 1 else 0, Listed(e.commitCalls, commit));
    }
  }

  lemma {:induction false} AbortReportsGains(d: Device, clock: Clock)
    requires d.inactive
    ensures AbortReports(d, clock).contexts == d.contexts && AbortReports(d, clock).commitCalls == d.commitCalls
    ensures AbortReports(d, clock).nextId == d.nextId
    decreases |d.reportCalls|
  {
    if d.reportCalls != [] {
      AbortReportsGains(CompleteReport(d, d.reportCalls[0].id, Aborted, clock), clock);
    }
  }

  lemma {:induction false} TakeGains(d: Device, clock: Clock)
    ensures TakeReport(d, clock).0.contexts == d.contexts
    decreases |d.reportCalls|
  {
    if d.reportCalls != [] && d.inactive {
      TakeGains(CompleteReport(d, d.reportCalls[0].id, Aborted, clock), clock);
    }
  }

  /** What a step counts for a commit under way, besides calls that have expired. */
  function OwnStatuses(s: System, step: Step, commit: nat): seq<Status> {
    match step
    case TransportCompletes(id, status, _) => if Submitted(s, id) then Counts(s.d, id, status, commit) else []
    case WillTerminate(_) =>
      if s.d.inactive && s.stage.Running? then Repeated(Aborted, Listed(s.d.commitCalls, commit)) else []
    case SubmitReturns(c, ret, more, _) =>
      if c != commit || !Returning(s, c) then []
      else if ret.Success? then (if more then [] else [Success])
      else if FindCommit(s.d.commitCalls, s.submitters[c].own).Some? then [ret] else []
    case _ => []
  }

  lemma ReportStepGains(s: System, step: Step, commit: nat)
    requires CommitInv(s) && (step.OutReport? || step.WorkerTakes? || step.WorkerReturns?)
    ensures Gains(s.d, Apply(s, step).d, commit, [])
  {
    hide SetNextTimeout, TakeReport, Gains, TimerOk;
    SameGains(s.d, s.d, commit);
    match step
    case OutReport(deadline, clock) =>
      var d1 := AppendReport(s.d, deadline);
      SetNextGains(d1, clock, commit);
      SameGains(s.d, d1, commit);
      GainsMore(s.d, d1, SetNextTimeout(d1, clock), commit, []);
      if !s.d.inactive {
        SameGains(SetNextTimeout(d1, clock), Apply(s, step).d, commit);
        GainsMore(s.d, SetNextTimeout(d1, clock), Apply(s, step).d, commit, []);
      }
    case WorkerTakes(clock) =>
      TakeGains(s.d, clock);
      if s.worker.Looping? {
        SameGains(s.d, Apply(s, step).d, commit);
      }
    case WorkerReturns(ret, clock) =>
      if s.worker.InTransport? && FindReport(s.d.reportCalls, s.worker.id) {
        var d1 := s.d.(reportCalls := WithoutReport(s.d.reportCalls, s.worker.id));
        SetNextGains(d1, clock, commit);
        SameGains(s.d, d1, commit);
        GainsMore(s.d, d1, SetNextTimeout(d1, clock), commit, []);
        SameGains(SetNextTimeout(d1, clock), Apply(s, step).d, commit);
        GainsMore(s.d, SetNextTimeout(d1, clock), Apply(s, step).d, commit, []);
      }
  }

  lemma InsertGains(s: System, own: nat, clock: Clock, commit: nat)
    requires CommitInv(s) && own in s.submitters
    ensures Gains(s.d, SetNextTimeout(InsertCommit(s.d, own), clock), commit, [])
  {
    hide SetNextTimeout, Gains, TimerOk;
    InsertOk(s.d, own);
    SetNextGains(InsertCommit(s.d, own), clock, commit);
    SameGains(s.d, InsertCommit(s.d, own), commit);
    GainsMore(s.d, InsertCommit(s.d, own), SetNextTimeout(InsertCommit(s.d, own), clock), commit, []);
  }

  lemma FinalGains(d: Device, own: nat, ret: Status, clock: Clock, commit: nat)
    requires ListOk(d) && own in d.contexts
    ensures Gains(d, FinishSubmission(d, own, None, ret, clock), commit, if own == commit then [ret] else [])
  {
    hide CompleteCommit, Gains;
    var d1 := InsertCommit(d, own);
    InsertOk(d, own);
    FindLast(d.commitCalls, CommitCall(d.nextId, own));
    CompleteGains(d1, d.nextId, ret, clock, commit);
    SameGains(d, d1, commit);
    GainsMore(d, d1, FinishSubmission(d, own, None, ret, clock), commit, if own == commit then [ret] else []);
  }

  lemma ReturnGains(s: System, own: nat, ret: Status, more: bool, clock: Clock, commit: nat)
    requires CommitInv(s) && Returning(s, own)
    ensures var step := SubmitReturns(own, ret, more, clock);
      Gains(s.d, Apply(s, step).d, commit, OwnStatuses(s, step, commit))
  {
    hide CompleteCommit, SetNextTimeout, Gains, TimerOk;
    var step, id := SubmitReturns(own, ret, more, clock), s.submitters[own].own;
    if !ret.Success? {
      var d1 := CountFailure(s.d, own);
      assert OwnCall(s, own);
      ListedFind(s.d.commitCalls, id, own);
      CompleteGains(d1, id, ret, clock, commit);
      SameGains(s.d, d1, commit);
      GainsMore(s.d, d1, Apply(s, step).d, commit, OwnStatuses(s, step, commit));
    } else if more {
      InsertGains(s, own, clock, commit);
    } else {
      FinalGains(s.d, own, Success, clock, commit);
    }
  }

  /** The statuses of a commit: in every step exactly a timeout for each of its
      calls that has expired, and then the status that the transport reports for one
      of its calls, Aborted for each of its calls at termination, or the end of its
      submission as its submitter sees it. */
  lemma StepGains(s: System, step: Step, commit: nat)
    requires CommitInv(s) && commit in s.submitters
    ensures commit in Apply(s, step).d.contexts
    ensures Collects(s.d, Apply(s, step).d, commit, OwnStatuses(s, step, commit))
  {
    hide CompleteCommit, SetNextTimeout, AbortReports, AbortCommits, TimerOk, Collects;
    var e := Apply(s, step);
    SameGains(s.d, s.d, commit);
    match step
    case TimerFires(clock) => SetNextGains(s.d, clock, commit);
    case TransportCompletes(id, status, clock) => CompleteGains(s.d, id, status, clock, commit);
    case WillTerminate(clock) =>
      if s.d.inactive && s.stage.Running? {
        AbortReportsGains(s.d, clock);
        AbortReportsConserves(s.d, clock);
        AbortGains(AbortReports(s.d, clock), clock, commit);
        OwnGains(s.d, e.d, commit, OwnStatuses(s, step, commit));
      }
    case Begin(own, deadline, hasReport, clock) =>
      if !s.d.inactive && own !in s.submitters {
        BeginGains(s, own, deadline, hasReport, clock, commit);
      }
    case CountCall(own) => SameGains(s.d, e.d, commit);
    case SubmitReturns(own, ret, more, clock) => if Returning(s, own) { ReturnGains(s, own, ret, more, clock, commit); }
    case WorkerStarts => SameGains(s.d, e.d, commit);
    case BecomeInactive => SameGains(s.d, e.d, commit);
    case DidTerminate => SameGains(s.d, e.d, commit);
    case OutReport(_, _) => ReportStepGains(s, step, commit);
    case WorkerTakes(_) => ReportStepGains(s, step, commit);
    case WorkerReturns(_, _) => ReportStepGains(s, step, commit);
  }

  /** A commit starts without statuses; one without a report is told so at once. */
  lemma BeginGains(s: System, own: nat, deadline: nat, hasReport: bool, clock: Clock, commit: nat)
    requires CommitInv(s) && !s.d.inactive && own !in s.submitters && (commit in s.submitters || commit == own)
    ensures var e := Apply(s, Begin(own, deadline, hasReport, clock));
      && commit in e.d.contexts
      && Collects(s.d, e.d, commit, if commit == own && !hasReport then [NotFound] else [])
  {
    hide CompleteCommit, SetNextTimeout, TimerOk, GainsAfter;
    var d1 := s.d.(contexts := s.d.contexts[own := NewContext(deadline)]);
    var e := Apply(s, Begin(own, deadline, hasReport, clock));
    ContextKeeps(s, own, deadline);
    var t := s.(d := d1, submitters := s.submitters[own := Finished(NotFound, true)]);
    var tail := if commit == own && !hasReport then [NotFound] else [];
    if hasReport {
      InsertGains(t, own, clock, commit);
    } else {
      FinalGains(d1, own, NotFound, clock, commit);
    }
    assert Gains(d1, e.d, commit, tail);
    var n: nat :| GainsAfter(d1, e.d, commit, n, tail);
    SameStart(s.d, d1, e.d, commit, n, tail);
  }

  lemma SameStart(d: Device, d1: Device, e: Device, commit: nat, n: nat, own: seq<Status>)
    requires GainsAfter(d1, e, commit, n, own) && StatusesOf(d, commit) == StatusesOf(d1, commit)
    ensures GainsAfter(d, e, commit, n, own)
  {
  }

  // -------------------------------------------------------------- deadlines

  /** A request has at least 50 ms, unless the device's own timeout is shorter, and
      a timeout within the limits is kept to the millisecond. */
  lemma DeadlineAskedFor(r: Request)
    requires r.usual >= 50_000
    ensures r.Deadline() >= r.now + r.ticks * 50_000
    ensures 50 <= r.timeout <= 1_200_000 ==> r.Deadline() == r.now + r.ticks * (1000 * r.timeout)
    ensures r.timeout < 50 || r.timeout > 1_200_000 ==> r.Deadline() == r.now + r.ticks * r.usual
  {
    var microseconds := if 50 <= r.timeout <= 1_200_000 then 1000 * r.timeout else r.usual;
    assert r.Deadline() == r.now + r.ticks * microseconds;
    AtLeast(r.ticks, microseconds, 50_000);
  }

  lemma AtLeast(a: nat, b: nat, c: nat)
    requires b >= c
    ensures a * b >= a * c
  {
  }

  /** The calls on the list are old ones, with the deadline they had, or the one
      that was just accepted, with the deadline it asks for. */
  lemma StepKeepsCalls(s: System, step: Step)
    requires ReportInv(s)
    ensures var e := Apply(s, step);
      && s.d.nextId <= e.d.nextId
      && forall call <- e.d.reportCalls ::
           call in s.d.reportCalls || (step.OutReport? && call == ReportCall(s.d.nextId, step.deadline) && e.d.nextId > s.d.nextId)
  {
    if Bystander(step) {
      BystanderConserves(s, step);
    } else {
      match step
      case OutReport(deadline, clock) => SetNextConserves(AppendReport(s.d, deadline), clock);
      case WorkerTakes(clock) => TakeParts(s.d, clock);
      case WorkerReturns(ret, clock) => if s.worker.InTransport? { CompleteReportConserves(s.d, s.worker.id, ret, clock); }
      case WillTerminate(clock) => if s.d.inactive { AbortConserves(s.d, clock); }
      case WorkerStarts =>
      case BecomeInactive =>
      case DidTerminate =>
    }
  }

  /** An accepted call is listed with the deadline it asked for, unless that has
      passed when the clock is read for it. */
  lemma AcceptedCall(s: System, deadline: nat, clock: Clock)
    requires ReportInv(s) && ThreadInv(s) && !s.d.inactive
    ensures var id, e := s.d.nextId, Apply(s, OutReport(deadline, clock));
      && id in e.accepted
      && if deadline > clock(|s.d.reportCalls|) then ReportCall(id, deadline) in e.d.reportCalls
         else Completion(id, Timeout) in e.d.completions
  {
    var d1 := AppendReport(s.d, deadline);
    AppendKeepsInv(s, deadline);
    SetNextParts(d1, clock);
    ScanIsExact(d1.reportCalls, clock, 0, |s.d.reportCalls|);
  }

  /** Step `j` of a run is the acceptance of a report call with this id. */
  ghost predicate Accepts(steps: seq<Step>, j: nat, id: nat) {
    j < |steps| && steps[j].OutReport? && !Exec(START, steps[..j]).d.inactive && id == Exec(START, steps[..j]).d.nextId
  }

  lemma {:induction false} DeadlineKept(steps: seq<Step>, j: nat, id: nat, k: nat)
    requires Accepts(steps, j, id) && j < k <= |steps|
    ensures var s := Exec(START, steps[..k]);
      id < s.d.nextId && forall call <- s.d.reportCalls :: call.id == id ==> call.deadline == steps[j].deadline
    decreases k
  {
    hide Exec, ReportInv;
    RunInvs(steps, k - 1);
    var s, step := Exec(START, steps[..k - 1]), steps[k - 1];
    ExecPrefix(START, steps, k - 1);
    QueuedAreAccepted(s);
    StepKeepsCalls(s, step);
    if k - 1 > j {
      DeadlineKept(steps, j, id, k - 1);
    } else {
      SubmitCounts(s, step.deadline, step.clock);
    }
  }

  lemma SubmitCounts(s: System, deadline: nat, clock: Clock)
    requires !s.d.inactive
    ensures Apply(s, OutReport(deadline, clock)).d.nextId > s.d.nextId
  {
    SetNextConserves(AppendReport(s.d, deadline), clock);
  }

  /** No report call outlives its deadline once the timer fires: the call accepted
      in step `j` has ended after a scan whose readings have reached its deadline,
      and it ends with Timeout if the scan finds it. */
  lemma OverdueCallEnds(steps: seq<Step>, j: nat, id: nat, clock: Clock)
    requires Accepts(steps, j, id) && !Exec(START, steps).d.inactive
    requires forall i: nat :: clock(i) >= steps[j].deadline
    ensures var s := Exec(START, steps);
      var e := Apply(s, TimerFires(clock));
      && Queued(e.d.reportCalls, id) == 0
      && (Queued(s.d.reportCalls, id) > 0 ==> Completion(id, Timeout) in e.d.completions)
  {
    hide Exec;
    assert steps[..|steps|] == steps;
    var s := Exec(START, steps);
    RunKeepsReportInvs(START, steps);
    DeadlineKept(steps, j, id, |steps|);
    SetNextParts(s.d, clock);
    var calls := s.d.reportCalls;
    QueuedMember(calls, id);
    PendingSubset(calls, clock, 0);
    forall i: nat | i < |calls| && calls[i].id == id
      ensures calls[i] !in Pending(calls, clock, 0) && Completion(id, Timeout) in Expired(calls, clock, 0)
    {
      ScanIsExact(calls, clock, 0, i);
    }
    QueuedMember(Pending(calls, clock, 0), id);
  }

  lemma StepKeepsDeadline(s: System, step: Step, commit: nat)
    requires CommitInv(s) && commit in s.submitters
    ensures commit in Apply(s, step).submitters
    ensures CommitInv(Apply(s, step)) && Apply(s, step).d.contexts[commit].deadline == s.d.contexts[commit].deadline
  {
    hide CommitInv;
    StepKeepsCommitInv(s, step);
    StepKeepsContext(s, step, commit);
  }

  lemma StepKeepsContext(s: System, step: Step, commit: nat)
    requires CommitInv(s) && commit in s.submitters
    ensures var e := Apply(s, step);
      commit in e.submitters && commit in e.d.contexts && e.d.contexts[commit].deadline == s.d.contexts[commit].deadline
  {
    hide SetNextTimeout, CompleteCommit, TimerOk;
    if Outside(step) {
      OutsideKeeps(s, step);
    } else {
      match step
      case CountCall(own) =>
      case Begin(own, deadline, hasReport, clock) =>
        if !s.d.inactive && own !in s.submitters {
          BeginKeepsContexts(s, own, deadline, hasReport, clock);
        }
      case SubmitReturns(own, ret, more, clock) =>
        if Returning(s, own) { ReturnKeepsContexts(s, own, ret, more, clock); }
    }
  }

  lemma ReturnKeepsContexts(s: System, own: nat, ret: Status, more: bool, clock: Clock)
    requires CommitInv(s) && Returning(s, own)
    ensures SameDeadlines(s.d, Apply(s, SubmitReturns(own, ret, more, clock)).d)
  {
    hide SetNextTimeout, FinishSubmission, TimerOk, Booked, Keeps;
    assert OwnCall(s, own);
    if !ret.Success? {
      FailureOk(s.d, own, s.submitters[own].own, ret, clock);
    } else if more {
      InsertOk(s.d, own);
      InsertKeepsContexts(s.d, own, clock);
    } else {
      FinalOk(s.d, own, Success, clock);
    }
  }

  lemma InsertKeepsContexts(d: Device, own: nat, clock: Clock)
    requires ListOk(d) && own in d.contexts
    ensures SameDeadlines(d, SetNextTimeout(InsertCommit(d, own), clock))
  {
    hide SetNextTimeout;
    InsertOk(d, own);
    SetNextKeeps(InsertCommit(d, own), clock);
  }

  /** A new commit has the deadline it asks for, and the others keep theirs. */
  lemma BeginKeepsContexts(s: System, own: nat, deadline: nat, hasReport: bool, clock: Clock)
    requires CommitInv(s) && !s.d.inactive && own !in s.submitters
    ensures var e := Apply(s, Begin(own, deadline, hasReport, clock));
      && own in e.submitters && own in e.d.contexts && e.d.contexts[own].deadline == deadline
      && forall commit <- s.submitters.Keys ::
           commit in e.submitters && commit in e.d.contexts && e.d.contexts[commit].deadline == s.d.contexts[commit].deadline
  {
    hide SetNextTimeout, FinishSubmission, TimerOk, Booked, Keeps;
    var d1 := s.d.(contexts := s.d.contexts[own := NewContext(deadline)]);
    ContextKeeps(s, own, deadline);
    if hasReport {
      InsertKeepsContexts(d1, own, clock);
    } else {
      FinalOk(d1, own, NotFound, clock);
    }
  }

  /** Step `j` of a run begins a commit. */
  ghost predicate Begins(steps: seq<Step>, j: nat, commit: nat) {
    && j < |steps| && steps[j].Begin? && steps[j].commit == commit
    && !Exec(START, steps[..j]).d.inactive && commit !in Exec(START, steps[..j]).submitters
  }

  lemma {:induction false} CommitDeadlineKept(steps: seq<Step>, j: nat, commit: nat, k: nat)
    requires Begins(steps, j, commit) && j < k <= |steps|
    ensures var s := Exec(START, steps[..k]);
      CommitInv(s) && commit in s.submitters && commit in s.d.contexts && s.d.contexts[commit].deadline == steps[j].deadline
    decreases k
  {
    hide Exec;
    RunKeepsCommitInv(steps, k - 1);
    var s, step := Exec(START, steps[..k - 1]), steps[k - 1];
    ExecPrefix(START, steps, k - 1);
    RunKeepsCommitInv(steps, k);
    if k - 1 > j {
      CommitDeadlineKept(steps, j, commit, k - 1);
      StepKeepsDeadline(s, step, commit);
    } else {
      BeginKeepsContexts(s, commit, step.deadline, step.hasReport, step.clock);
    }
  }


  /** A commit begun in step `j` has no call left after a scan whose readings have
      reached the deadline it asked for. */
  lemma OverdueCommitEnds(steps: seq<Step>, j: nat, commit: nat, clock: Clock)
    requires Begins(steps, j, commit) && !Exec(START, steps).d.inactive
    requires forall i: nat :: clock(i) >= steps[j].deadline
    ensures Listed(Apply(Exec(START, steps), TimerFires(clock)).d.commitCalls, commit) == 0
  {
    hide Exec;
    assert steps[..|steps|] == steps;
    var s := Exec(START, steps);
    var e := Apply(s, TimerFires(clock));
    CommitDeadlineKept(steps, j, commit, |steps|);
    SetNextKeeps(s.d, clock);
    forall call | call in e.d.commitCalls ensures call.commit != commit {
      var i :| 0 <= i < |s.d.commitCalls| && s.d.commitCalls[i] == call;
      CommitScanIsExact(s.d, clock, i);
    }
    NotListed(e.d.commitCalls, commit);
  }
}
