/**
 The asynchronous calls of IOHIDDevice: the queue of reports handed to the
 worker thread, the list of outstanding commit calls, and the one timer that
 watches both. Calls are named by numbers that are never used twice.

 Each function below is the effect of one region of the source between taking
 and releasing the work-loop lock; the methods of class IOHIDDevice perform it.
 A `clock` gives the successive readings of mach_absolute_time in a region.
 */
module AsyncCalls {
  import opened Options

  const NEVER: nat := 0xFFFF_FFFF_FFFF_FFFF  // UINT64_MAX, also "timer not armed"

  datatype Status = Success | Timeout | Aborted | NotFound | Offline | Unsupported | Failure(code: int)

  type Clock = nat -> nat

  const MIN_TIMEOUT: nat := 50         // milliseconds
  const MAX_TIMEOUT: nat := 1_200_000

  /** What a caller asks for: a timeout in milliseconds, where `usual`, in
      microseconds, is the device's own; `ticks` per microsecond pass on the clock,
      which stands at `now`. */
  datatype Request = Request(timeout: nat, usual: nat, now: nat, ticks: nat)
  {
    function Deadline(): nat {
      now + ticks * (if MIN_TIMEOUT <= timeout <= MAX_TIMEOUT then timeout * 1000 else usual)
    }
  }

  /** An AsyncReportCall. */
  datatype ReportCall = ReportCall(id: nat, deadline: nat)

  /** One invocation of a report call's completion action. */
  datatype Completion = Completion(id: nat, status: Status)

  /** An AsyncCommitCall: one report of a commit. */
  datatype CommitCall = CommitCall(id: nat, commit: nat)

  /** An AsyncCommitContext; `statuses` and `outcomes` are its history: the
      statuses counted so far, and the invocations of the original completion. */
  datatype Context = Context(status: Status, deadline: nat, callsMade: nat, callsCompleted: nat,
                             statuses: seq<Status>, outcomes: seq<Status>)

  datatype Device = Device(
    inactive: bool,
    reportCalls: seq<ReportCall>,    // _asyncReportCalls
    commitCalls: seq<CommitCall>,    // _asyncCommitCalls
    contexts: map<nat, Context>,
    settingTimeout: bool,
    timer: nat,                      // the time _asyncTimer is armed for
    threadActive: bool,              // _asyncReportThreadActive
    threadPending: bool,             // the thread call is scheduled
    terminateDeferred: bool,
    nextId: nat,                     // calls created so far
    completions: seq<Completion>,    // report completions invoked so far
    teardowns: nat)                  // times termination has gone through

  function Min(a: nat, b: nat): nat {
    if b < a then b else a
  }

  // ------------------------------------------------------------ the timer scan

  /** The report calls a scan leaves in the queue; reading `k` is taken for the first. */
  function Pending(calls: seq<ReportCall>, clock: Clock, k: nat): seq<ReportCall> {
    if calls == [] then []
    else (if calls[0].deadline > clock(k) then [calls[0]] else []) + Pending(calls[1..], clock, k + 1)
  }

  /** The completions a scan invokes, in queue order. */
  function Expired(calls: seq<ReportCall>, clock: Clock, k: nat): seq<Completion> {
    if calls == [] then []
    else (if calls[0].deadline > clock(k) then [] else [Completion(calls[0].id, Timeout)]) + Expired(calls[1..], clock, k + 1)
  }

  function EarliestReport(calls: seq<ReportCall>): (t: nat)
    ensures t <= NEVER
  {
    if calls == [] then NEVER else Min(calls[0].deadline, EarliestReport(calls[1..]))
  }

  function DeadlineOf(d: Device, call: CommitCall): nat {
    if call.commit in d.contexts then d.contexts[call.commit].deadline else 0
  }

  function WithoutCommit(calls: seq<CommitCall>, id: nat): seq<CommitCall> {
    if calls == [] then []
    else if calls[0].id == id then calls[1..]
    else [calls[0]] + WithoutCommit(calls[1..], id)
  }

  function FindCommit(calls: seq<CommitCall>, id: nat): Option<CommitCall> {
    if calls == [] then None
    else if calls[0].id == id then Some(calls[0])
    else FindCommit(calls[1..], id)
  }

  /** Counts one completed call; the last one invokes the original completion. */
  function AccountContext(c: Context, status: Status): Context {
    var status' := if status.Success? then c.status else status;
    var c' := c.(status := status', callsCompleted := c.callsCompleted + 1, statuses := c.statuses + [status]);
    if c'.callsCompleted == c'.callsMade then c'.(outcomes := c.outcomes + [status']) else c'
  }

  function Account(d: Device, commit: nat, status: Status): Device {
    if commit !in d.contexts then d
    else d.(contexts := d.contexts[commit := AccountContext(d.contexts[commit], status)])
  }

  /** CommitComplete while a scan is in progress: no second scan. */
  function CompleteInScan(d: Device, id: nat, status: Status): Device {
    match FindCommit(d.commitCalls, id)
    case None => d
    case Some(call) => Account(d.(commitCalls := WithoutCommit(d.commitCalls, id)), call.commit, status)
  }

  function ExpireCommits(d: Device, calls: seq<CommitCall>, clock: Clock, k: nat): Device
    decreases |calls|
  {
    if calls == [] then d
    else ExpireCommits(if DeadlineOf(d, calls[0]) > clock(k) then d else CompleteInScan(d, calls[0].id, Timeout),
                       calls[1..], clock, k + 1)
  }

  /** The earliest deadline among the commit calls a scan leaves in place. */
  function EarliestCommit(d: Device, calls: seq<CommitCall>, clock: Clock, k: nat): (t: nat)
    ensures t <= NEVER
  {
    if calls == [] then NEVER
    else
      var rest := EarliestCommit(d, calls[1..], clock, k + 1);
      if DeadlineOf(d, calls[0]) > clock(k) then Min(DeadlineOf(d, calls[0]), rest) else rest
  }

  function ScanReports(d: Device, clock: Clock): Device {
    d.(reportCalls := Pending(d.reportCalls, clock, 0), completions := d.completions + Expired(d.reportCalls, clock, 0))
  }

  /** setNextAsyncTimeout */
  function SetNextTimeout(d: Device, clock: Clock): Device {
    if d.inactive || d.settingTimeout then d
    else
      var n := |d.reportCalls|;
      var d1 := ScanReports(d.(settingTimeout := true, timer := NEVER), clock);
      var next := Min(EarliestReport(d1.reportCalls), EarliestCommit(d1, d1.commitCalls, clock, n));
      ExpireCommits(d1, d1.commitCalls, clock, n).(timer := next, settingTimeout := false)
  }

  // --------------------------------------------------------------- reports

  function FindReport(calls: seq<ReportCall>, id: nat): bool {
    if calls == [] then false else calls[0].id == id || FindReport(calls[1..], id)
  }

  function WithoutReport(calls: seq<ReportCall>, id: nat): seq<ReportCall> {
    if calls == [] then []
    else if calls[0].id == id then calls[1..]
    else [calls[0]] + WithoutReport(calls[1..], id)
  }

  /** completeAsyncReport: whoever removes the call invokes its completion. */
  function CompleteReport(d: Device, id: nat, status: Status, clock: Clock): Device {
    if !FindReport(d.reportCalls, id) then d
    else
      var d1 := SetNextTimeout(d.(reportCalls := WithoutReport(d.reportCalls, id)), clock);
      d1.(completions := d1.completions + [Completion(id, status)])
  }

  /** The locked part of outReport. */
  function SubmitReport(d: Device, deadline: nat, clock: Clock): Device {
    if d.inactive then d
    else
      SetNextTimeout(AppendReport(d, deadline), clock).(threadActive := true, threadPending := true)
  }

  function AppendReport(d: Device, deadline: nat): Device {
    d.(reportCalls := d.reportCalls + [ReportCall(d.nextId, deadline)], nextId := d.nextId + 1)
  }

  /** runSyncReportAsync from a point where the lock is taken to the next point
      where it is released: either a call is taken to the transport, or the
      queue is empty and the thread retires. */
  function TakeReport(d: Device, clock: Clock): (r: (Device, Option<nat>))
    decreases |d.reportCalls|
  {
    if d.reportCalls == [] then
      (d.(threadPending := false, threadActive := false, teardowns := d.teardowns + (if d.terminateDeferred then 1 else 0)), None)
    else if d.inactive then
      TakeReport(CompleteReport(d, d.reportCalls[0].id, Aborted, clock), clock)
    else (d, Some(d.reportCalls[0].id))
  }

  // --------------------------------------------------------------- commits

  /** CommitComplete. */
  function CompleteCommit(d: Device, id: nat, status: Status, clock: Clock): Device {
    match FindCommit(d.commitCalls, id)
    case None => d
    case Some(call) =>
      Account(SetNextTimeout(d.(commitCalls := WithoutCommit(d.commitCalls, id)), clock), call.commit, status)
  }

  /** Puts a new call of a commit at the end of the list. */
  function InsertCommit(d: Device, commit: nat): Device {
    d.(commitCalls := d.commitCalls + [CommitCall(d.nextId, commit)], nextId := d.nextId + 1)
  }

  function NewContext(deadline: nat): Context {
    Context(Success, deadline, 1, 0, [], [])
  }

  /** The end of runElementValues: the call that signals that all were made. */
  function FinishSubmission(d: Device, commit: nat, own: Option<nat>, ret: Status, clock: Clock): Device {
    match own
    case None => CompleteCommit(InsertCommit(d, commit), d.nextId, ret, clock)
    case Some(id) => CompleteCommit(d, id, ret, clock)
  }

  /** From the start of an accepted commit to its first unlock or its end. */
  function BeginCommit(d: Device, commit: nat, deadline: nat, hasReport: bool, clock: Clock): Device {
    var d1 := d.(contexts := d.contexts[commit := NewContext(deadline)]);
    if hasReport then SetNextTimeout(InsertCommit(d1, commit), clock)
    else FinishSubmission(d1, commit, None, NotFound, clock)
  }

  /** The unlocked increment between inserting a call and submitting it. */
  function CountCall(d: Device, commit: nat): Device {
    if commit !in d.contexts then d
    else
      var c := d.contexts[commit];
      d.(contexts := d.contexts[commit := c.(callsMade := c.callsMade + 1)])
  }

  /** The completion that will not trigger naturally, of a call that failed. */
  function CountFailure(d: Device, commit: nat): Device {
    if commit !in d.contexts then d
    else
      var c := d.contexts[commit];
      d.(contexts := d.contexts[commit := c.(callsCompleted := c.callsCompleted + 1)])
  }

  /** From the return of one submission to the next unlock. */
  function SubmissionReturned(d: Device, commit: nat, own: nat, ret: Status, more: bool, clock: Clock): Device {
    if !ret.Success? then FinishSubmission(CountFailure(d, commit), commit, Some(own), ret, clock)
    else if more then SetNextTimeout(InsertCommit(d, commit), clock)
    else FinishSubmission(d, commit, None, Success, clock)
  }

  // ------------------------------------------------------------- termination

  function AbortReports(d: Device, clock: Clock): (r: Device)
    requires d.inactive
    ensures r.inactive
    decreases |d.reportCalls|
  {
    if d.reportCalls == [] then d
    else AbortReports(CompleteReport(d, d.reportCalls[0].id, Aborted, clock), clock)
  }

  function AbortCommits(d: Device, clock: Clock): (r: Device)
    requires d.inactive
    ensures r.inactive
    decreases |d.commitCalls|
  {
    if d.commitCalls == [] then d
    else AbortCommits(CompleteCommit(d, d.commitCalls[0].id, Aborted, clock), clock)
  }

  function TerminateOrDefer(d: Device): Device {
    if d.threadActive then d.(terminateDeferred := true) else d.(teardowns := d.teardowns + 1)
  }

  // --------------------------------------------------------------- the class

  class IOHIDDevice {
    var inactive: bool
    var reportCalls: seq<ReportCall>
    var commitCalls: seq<CommitCall>
    var contexts: map<nat, Context>
    var settingTimeout: bool
    var timer: nat
    var threadActive: bool
    var threadPending: bool
    var terminateDeferred: bool
    var nextId: nat
    ghost var completions: seq<Completion>
    ghost var teardowns: nat

    ghost function View(): Device
      reads this
    {
      Device(inactive, reportCalls, commitCalls, contexts, settingTimeout, timer, threadActive, threadPending,
             terminateDeferred, nextId, completions, teardowns)
    }

    method SetNextAsyncTimeout(clock: Clock)
      modifies this
      ensures View() == SetNextTimeout(old(View()), clock)
      decreases if settingTimeout then 0 else 3
    {
      if inactive || settingTimeout {
        return;
      }
      settingTimeout := true;
      timer := NEVER;  // cancelTimeout
      var n := |reportCalls|;
      var nextReport := ScanReportCalls(clock);
      ghost var d1 := View();
      var nextCommit := ScanCommitCalls(clock, n);
      ScanKeepsFields(d1, d1.commitCalls, clock, n);
      var nextDeadline := Min(nextReport, nextCommit);
      if nextDeadline < NEVER {
        timer := nextDeadline;
      }
      settingTimeout := false;
    }

    /** The second loop of the scan. Completing an expired commit call comes
        back to SetNextAsyncTimeout, and is turned away by `settingTimeout`. */
    method ScanCommitCalls(clock: Clock, n: nat) returns (nextDeadline: nat)
      requires settingTimeout
      modifies this
      ensures View() == ExpireCommits(old(View()), old(commitCalls), clock, n)
      ensures nextDeadline == EarliestCommit(old(View()), old(commitCalls), clock, n)
      decreases 2
    {
      nextDeadline := NEVER;
      var calls, k := commitCalls, 0;
      assert calls[0..] == calls;
      ghost var d0, d := View(), View();
      while k < |calls|
        invariant k <= |calls| && View() == d && d.settingTimeout
        invariant ExpireCommits(d0, calls, clock, n) == ExpireCommits(d, calls[k..], clock, n + k)
        invariant nextDeadline <= NEVER
        invariant EarliestCommit(d0, calls, clock, n) == Min(nextDeadline, EarliestCommit(d, calls[k..], clock, n + k))
      {
        CommitScanStep(d, calls, clock, k, n);
        nextDeadline := ExamineCommit(d, calls[k], clock(n + k), nextDeadline, clock);
        d := if DeadlineOf(d, calls[k]) > clock(n + k) then d else CompleteInScan(d, calls[k].id, Timeout);
        k := k + 1;
      }
      assert calls[k..] == [];
      assert EarliestCommit(d, [], clock, n + k) == NEVER;
    }

    method ExamineCommit(ghost d: Device, call: CommitCall, now: nat, nextDeadline: nat, clock: Clock) returns (next: nat)
      requires View() == d && settingTimeout
      modifies this
      ensures View() == (if DeadlineOf(d, call) > now then d else CompleteInScan(d, call.id, Timeout))
      ensures next == (if DeadlineOf(d, call) > now then Min(nextDeadline, DeadlineOf(d, call)) else nextDeadline)
      decreases 2, 0
    {
      next := nextDeadline;
      var deadline := if call.commit in contexts then contexts[call.commit].deadline else 0;
      if deadline > now {
        next := Min(nextDeadline, deadline);
      } else {
        ScanCompletes(d, call.id, Timeout, clock);
        CommitComplete(call.id, Timeout, clock);
      }
    }

    /** The first loop of the scan. */
    method ScanReportCalls(clock: Clock) returns (nextDeadline: nat)
      modifies this
      ensures View() == ScanReports(old(View()), clock)
      ensures nextDeadline == EarliestReport(reportCalls)
    {
      nextDeadline := NEVER;
      var calls, k, at := reportCalls, 0, 0;
      ghost var kept: seq<ReportCall>, done: seq<Completion> := [], [];
      assert calls[0..] == calls && [] + calls == calls;
      hide Scanned;
      NothingScanned(calls, clock);
      while k < |calls|
        invariant k <= |calls| && at == |kept|
        invariant View() == old(View()).(reportCalls := kept + calls[k..], completions := old(completions) + done)
        invariant Scanned(calls, clock, k, kept, done, nextDeadline)
      {
        ScannedNext(calls, clock, k, kept, done, nextDeadline);
        Advance(kept, calls, k);
        var keep := ExamineReport(at, clock(k), kept, calls[k..]);
        if keep {
          nextDeadline := Min(nextDeadline, calls[k].deadline);
          at, kept := at + 1, kept + [calls[k]];
        } else {
          done := done + [Completion(calls[k].id, Timeout)];
        }
        k := k + 1;
      }
      AllScanned(calls, clock, kept, done, nextDeadline);
      assert calls[k..] == [] && kept + [] == kept;
    }

    method ExamineReport(at: nat, now: nat, ghost kept: seq<ReportCall>, ghost rest: seq<ReportCall>) returns (keep: bool)
      requires reportCalls == kept + rest && at == |kept| && rest != []
      modifies this
      ensures keep == (rest[0].deadline > now)
      ensures View() == (if keep then old(View())
                         else old(View()).(reportCalls := kept + rest[1..],
                                           completions := old(completions) + [Completion(rest[0].id, Timeout)]))
    {
      var call := reportCalls[at];
      keep := call.deadline > now;
      if !keep {
        reportCalls := reportCalls[..at] + reportCalls[at + 1..];
        assert reportCalls == kept + rest[1..];
        completions := completions + [Completion(call.id, Timeout)];
      }
    }

    method CompleteAsyncReport(target: nat, status: Status, clock: Clock)
      modifies this
      ensures View() == CompleteReport(old(View()), target, status, clock)
    {
      var i := 0;
      while i < |reportCalls| && reportCalls[i].id != target
        invariant i <= |reportCalls|
        invariant forall j :: 0 <= j < i ==> reportCalls[j].id != target
      {
        i := i + 1;
      }
      ReportAt(reportCalls, target, i);
      if i < |reportCalls| {
        reportCalls := reportCalls[..i] + reportCalls[i + 1..];
        ghost var d := View();
        assert d == old(View()).(reportCalls := WithoutReport(old(reportCalls), target));
        SetNextAsyncTimeout(clock);
        ghost var d1 := View();
        assert d1 == SetNextTimeout(d, clock);
        completions := completions + [Completion(target, status)];
        assert View() == d1.(completions := d1.completions + [Completion(target, status)]);
      }
    }

    method CommitComplete(param: nat, status: Status, clock: Clock)
      modifies this
      ensures View() == CompleteCommit(old(View()), param, status, clock)
      decreases if settingTimeout then 1 else 4
    {
      var i := 0;
      while i < |commitCalls| && commitCalls[i].id != param
        invariant i <= |commitCalls|
        invariant forall j :: 0 <= j < i ==> commitCalls[j].id != param
      {
        i := i + 1;
      }
      CommitAt(commitCalls, param, i);
      if i == |commitCalls| {
        return;
      }
      var call := commitCalls[i];
      commitCalls := commitCalls[..i] + commitCalls[i + 1..];
      SetNextAsyncTimeout(clock);
      CountCompletion(call.commit, status);
    }

    method CountCompletion(commit: nat, status: Status)
      modifies this
      ensures View() == Account(old(View()), commit, status)
    {
      if commit in contexts {
        contexts := contexts[commit := AccountContext(contexts[commit], status)];
      }
    }

    /** The asynchronous report entry point. */
    method OutReport(hasCompletion: bool, request: Request, clock: Clock) returns (ret: Status)
      modifies this
      ensures ret == (if !hasCompletion then Unsupported else if old(inactive) then Offline else Success)
      ensures View() == (if hasCompletion then SubmitReport(old(View()), request.Deadline(), clock) else old(View()))
    {
      if !hasCompletion {
        return Unsupported;
      }
      if inactive {
        return Offline;
      }
      InsertReport(request.Deadline());
      SetNextAsyncTimeout(clock);
      threadActive := true;
      threadPending := true;
      ret := Success;
    }

    method InsertReport(deadline: nat)
      modifies this
      ensures View() == AppendReport(old(View()), deadline)
    {
      reportCalls := reportCalls + [ReportCall(nextId, deadline)];
      nextId := nextId + 1;
    }

    /** The worker's loop, up to the next place where it drops the lock. */
    method RunSyncReportAsync(clock: Clock) returns (next: Option<nat>)
      modifies this
      ensures (View(), next) == TakeReport(old(View()), clock)
    {
      while reportCalls != []
        invariant TakeReport(View(), clock) == TakeReport(old(View()), clock)
        decreases |reportCalls|
      {
        if inactive {
          CompleteAsyncReport(reportCalls[0].id, Aborted, clock);
        } else {
          return Some(reportCalls[0].id);
        }
      }
      threadPending := false;
      threadActive := false;
      if terminateDeferred {
        teardowns := teardowns + 1;
      }
      next := None;
    }

    /** Aborts whatever is outstanding. */
    method WillTerminate(clock: Clock)
      requires inactive
      modifies this
      ensures View() == AbortCommits(AbortReports(old(View()), clock), clock)
    {
      while reportCalls != []
        invariant inactive
        invariant AbortReports(View(), clock) == AbortReports(old(View()), clock)
        decreases |reportCalls|
      {
        CompleteAsyncReport(reportCalls[0].id, Aborted, clock);
      }
      while commitCalls != []
        invariant inactive
        invariant AbortCommits(View(), clock) == AbortCommits(AbortReports(old(View()), clock), clock)
        decreases |commitCalls|
      {
        CommitComplete(commitCalls[0].id, Aborted, clock);
      }
    }

    method DidTerminate() returns (defer: bool)
      modifies this
      ensures View() == TerminateOrDefer(old(View())) && defer == old(threadActive)
    {
      defer := threadActive;
      if threadActive {
        terminateDeferred := true;
      } else {
        teardowns := teardowns + 1;
      }
    }

    // runElementValues with a completion, one region at a time

    method Begin(commit: nat, request: Request, hasReport: bool, clock: Clock) returns (ret: Status)
      modifies this
      ensures ret == (if old(inactive) then Offline else Success)
      ensures View() == (if old(inactive) then old(View()) else BeginCommit(old(View()), commit, request.Deadline(), hasReport, clock))
    {
      if inactive {
        return Offline;
      }
      contexts := contexts[commit := NewContext(request.Deadline())];
      if hasReport {
        Insert(commit);
        SetNextAsyncTimeout(clock);
      } else {
        Finish(commit, None, NotFound, clock);
      }
      ret := Success;
    }

    method Insert(commit: nat)
      modifies this
      ensures View() == InsertCommit(old(View()), commit)
    {
      commitCalls := commitCalls + [CommitCall(nextId, commit)];
      nextId := nextId + 1;
    }

    method Finish(commit: nat, own: Option<nat>, ret: Status, clock: Clock)
      modifies this
      ensures View() == FinishSubmission(old(View()), commit, own, ret, clock)
    {
      match own {
        case None =>
          var final := nextId;
          Insert(commit);
          CommitComplete(final, ret, clock);
        case Some(id) =>
          CommitComplete(id, ret, clock);
      }
    }

    method SubmitReturned(commit: nat, own: nat, ret: Status, more: bool, clock: Clock)
      requires commit in contexts
      modifies this
      ensures View() == SubmissionReturned(old(View()), commit, own, ret, more, clock)
    {
      if !ret.Success? {
        var c := contexts[commit];
        contexts := contexts[commit := c.(callsCompleted := c.callsCompleted + 1)];
        Finish(commit, Some(own), ret, clock);
      } else if more {
        Insert(commit);
        SetNextAsyncTimeout(clock);
      } else {
        Finish(commit, None, Success, clock);
      }
    }
  }

  lemma {:induction false} ReportAt(calls: seq<ReportCall>, id: nat, i: nat)
    requires i <= |calls| && forall j :: 0 <= j < i ==> calls[j].id != id
    requires i < |calls| ==> calls[i].id == id
    ensures FindReport(calls, id) <==> i < |calls|
    ensures i < |calls| ==> WithoutReport(calls, id) == calls[..i] + calls[i + 1..]
    decreases i
  {
    if i > 0 {
      forall j | 0 <= j < i - 1 ensures calls[1..][j].id != id {
        assert calls[1..][j] == calls[j + 1];
      }
      ReportAt(calls[1..], id, i - 1);
    }
  }

  lemma {:induction false} CommitAt(calls: seq<CommitCall>, id: nat, i: nat)
    requires i <= |calls| && forall j :: 0 <= j < i ==> calls[j].id != id
    requires i < |calls| ==> calls[i].id == id
    ensures FindCommit(calls, id) == (if i < |calls| then Some(calls[i]) else None)
    ensures i < |calls| ==> WithoutCommit(calls, id) == calls[..i] + calls[i + 1..]
    decreases i
  {
    if i > 0 {
      forall j | 0 <= j < i - 1 ensures calls[1..][j].id != id {
        assert calls[1..][j] == calls[j + 1];
      }
      CommitAt(calls[1..], id, i - 1);
    }
  }

  /** Moving on by one element. */
  lemma Advance<T>(kept: seq<T>, s: seq<T>, k: nat)
    requires k < |s|
    ensures s[k..] != [] && s[k..][0] == s[k] && s[k..][1..] == s[k + 1..]
    ensures kept + s[k..] == (kept + [s[k]]) + s[k + 1..]
  {
  }

  lemma Assoc<T>(a: seq<T>, b: seq<T>, c: seq<T>)
    ensures a + (b + c) == (a + b) + c
    ensures [] + c == c
  {
  }

  /** After `k` calls the first loop has kept `kept` and invoked the completions `done`. */
  ghost predicate Scanned(calls: seq<ReportCall>, clock: Clock, k: nat, kept: seq<ReportCall>, done: seq<Completion>, next: nat)
    requires k <= |calls|
  {
    && kept + Pending(calls[k..], clock, k) == Pending(calls, clock, 0)
    && done + Expired(calls[k..], clock, k) == Expired(calls, clock, 0)
    && next == EarliestReport(kept)
  }

  lemma NothingScanned(calls: seq<ReportCall>, clock: Clock)
    ensures Scanned(calls, clock, 0, [], [], NEVER)
  {
    assert calls[0..] == calls;
  }

  lemma ScannedNext(calls: seq<ReportCall>, clock: Clock, k: nat, kept: seq<ReportCall>, done: seq<Completion>, next: nat)
    requires k < |calls| && Scanned(calls, clock, k, kept, done, next)
    ensures if calls[k].deadline > clock(k)
            then Scanned(calls, clock, k + 1, kept + [calls[k]], done, Min(next, calls[k].deadline))
            else Scanned(calls, clock, k + 1, kept, done + [Completion(calls[k].id, Timeout)], next)
  {
    assert calls[k..][1..] == calls[k + 1..];
    Assoc(kept, [calls[k]], Pending(calls[k + 1..], clock, k + 1));
    Assoc(done, [Completion(calls[k].id, Timeout)], Expired(calls[k + 1..], clock, k + 1));
    EarliestPush(kept, calls[k]);
  }

  lemma AllScanned(calls: seq<ReportCall>, clock: Clock, kept: seq<ReportCall>, done: seq<Completion>, next: nat)
    requires Scanned(calls, clock, |calls|, kept, done, next)
    ensures kept == Pending(calls, clock, 0) && done == Expired(calls, clock, 0) && next == EarliestReport(kept)
  {
    assert kept + [] == kept && done + [] == done;
  }

  lemma {:induction false} EarliestPush(kept: seq<ReportCall>, call: ReportCall)
    ensures EarliestReport(kept + [call]) == Min(EarliestReport(kept), call.deadline)
  {
    if kept != [] {
      EarliestPush(kept[1..], call);
      assert (kept + [call])[1..] == kept[1..] + [call];
    }
  }

  ghost predicate SameDeadlines(d: Device, e: Device) {
    d.contexts.Keys == e.contexts.Keys && forall c <- d.contexts.Keys :: d.contexts[c].deadline == e.contexts[c].deadline
  }

  lemma {:induction false} EarliestSame(d: Device, e: Device, calls: seq<CommitCall>, clock: Clock, k: nat)
    requires SameDeadlines(d, e)
    ensures EarliestCommit(d, calls, clock, k) == EarliestCommit(e, calls, clock, k)
    decreases |calls|
  {
    if calls != [] {
      EarliestSame(d, e, calls[1..], clock, k + 1);
    }
  }

  lemma CompleteKeepsFields(d: Device, id: nat, status: Status)
    ensures SameDeadlines(d, CompleteInScan(d, id, status))
    ensures CompleteInScan(d, id, status).settingTimeout == d.settingTimeout
    ensures CompleteInScan(d, id, status).timer == d.timer
  {
    if FindCommit(d.commitCalls, id).Some? {
      var call := FindCommit(d.commitCalls, id).value;
      AccountKeepsFields(d.(commitCalls := WithoutCommit(d.commitCalls, id)), call.commit, status);
    }
  }

  lemma AccountKeepsFields(d: Device, commit: nat, status: Status)
    ensures SameDeadlines(d, Account(d, commit, status))
    ensures Account(d, commit, status) == d.(contexts := Account(d, commit, status).contexts)
  {
  }

  lemma {:induction false} ScanKeepsFields(d: Device, calls: seq<CommitCall>, clock: Clock, k: nat)
    ensures var e := ExpireCommits(d, calls, clock, k);
      SameDeadlines(d, e) && e.settingTimeout == d.settingTimeout && e.timer == d.timer
    decreases |calls|
  {
    if calls != [] {
      CompleteKeepsFields(d, calls[0].id, Timeout);
      ScanKeepsFields(if DeadlineOf(d, calls[0]) > clock(k) then d else CompleteInScan(d, calls[0].id, Timeout), calls[1..], clock, k + 1);
    }
  }

  lemma ScanCompletes(d: Device, id: nat, status: Status, clock: Clock)
    requires d.settingTimeout
    ensures CompleteCommit(d, id, status, clock) == CompleteInScan(d, id, status)
  {
  }

  /** One round of the second loop. */
  lemma CommitScanStep(d: Device, calls: seq<CommitCall>, clock: Clock, k: nat, n: nat)
    requires k < |calls| && d.settingTimeout
    ensures var call, rest := calls[k], calls[k + 1..];
      var e := if DeadlineOf(d, call) > clock(n + k) then d else CompleteInScan(d, call.id, Timeout);
      && SameDeadlines(d, e) && e.settingTimeout
      && ExpireCommits(d, calls[k..], clock, n + k) == ExpireCommits(e, rest, clock, n + k + 1)
      && EarliestCommit(d, calls[k..], clock, n + k)
         == (if DeadlineOf(d, call) > clock(n + k) then Min(DeadlineOf(d, call), EarliestCommit(e, rest, clock, n + k + 1))
             else EarliestCommit(e, rest, clock, n + k + 1))
  {
    assert calls[k..][1..] == calls[k + 1..];
    CompleteKeepsFields(d, calls[k].id, Timeout);
    EarliestSame(d, CompleteInScan(d, calls[k].id, Timeout), calls[k + 1..], clock, n + k + 1);
  }
}
