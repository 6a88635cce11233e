/**
 What every region of AsyncCalls does to the commit calls: the book-keeping
 that decides when a commit's original completion is invoked, and the timer.
 */
module AsyncCommits {
  import opened AsyncCalls
  import opened AsyncReports
  import opened Options

  /** Outstanding calls of one commit. */
  function Listed(calls: seq<CommitCall>, commit: nat): nat {
    if calls == [] then 0 else (if calls[0].commit == commit then 1 else 0) + Listed(calls[1..], commit)
  }

  lemma {:induction false} ListedPush(calls: seq<CommitCall>, call: CommitCall, commit: nat)
    ensures Listed(calls + [call], commit) == Listed(calls, commit) + (if call.commit == commit then 1 else 0)
  {
    if calls == [] {
      assert ([] + [call])[1..] == [];
    } else {
      ListedPush(calls[1..], call, commit);
      assert (calls + [call])[1..] == calls[1..] + [call];
    }
  }

  lemma {:induction false} ListedFind(calls: seq<CommitCall>, id: nat, commit: nat)
    ensures FindCommit(calls, id).Some? ==> var call := FindCommit(calls, id).value;
              && call in calls && call.id == id
              && Listed(WithoutCommit(calls, id), commit) + (if call.commit == commit then 1 else 0) == Listed(calls, commit)
              && |WithoutCommit(calls, id)| == |calls| - 1
    ensures FindCommit(calls, id).None? ==> WithoutCommit(calls, id) == calls && forall call <- calls :: call.id != id
    ensures forall call <- WithoutCommit(calls, id) :: call in calls
  {
    if calls != [] {
      ListedFind(calls[1..], id, commit);
      assert calls == [calls[0]] + calls[1..];
      if calls[0].id != id {
        assert ([calls[0]] + WithoutCommit(calls[1..], id))[1..] == WithoutCommit(calls[1..], id);
      }
    }
  }

  ghost predicate InOrder(calls: seq<CommitCall>) {
    calls == [] || ((forall call <- calls[1..] :: calls[0].id < call.id) && InOrder(calls[1..]))
  }

  lemma {:induction false} InOrderPush(calls: seq<CommitCall>, call: CommitCall)
    requires InOrder(calls) && forall c <- calls :: c.id < call.id
    ensures InOrder(calls + [call])
  {
    if calls != [] {
      assert calls == [calls[0]] + calls[1..];
      InOrderPush(calls[1..], call);
      assert (calls + [call])[1..] == calls[1..] + [call];
    } else {
      assert ([] + [call])[1..] == [];
    }
  }

  lemma {:induction false} InOrderWithout(calls: seq<CommitCall>, id: nat)
    requires InOrder(calls)
    ensures InOrder(WithoutCommit(calls, id))
    ensures forall call <- WithoutCommit(calls, id) :: call in calls && call.id != id
    ensures forall call <- calls :: call.id != id ==> call in WithoutCommit(calls, id)
    ensures forall call <- calls :: call.id == id ==> FindCommit(calls, id) == Some(call)
  {
    if calls != [] {
      assert calls == [calls[0]] + calls[1..];
      InOrderWithout(calls[1..], id);
      assert ([calls[0]] + WithoutCommit(calls[1..], id))[1..] == WithoutCommit(calls[1..], id);
    }
  }

  // ----------------------------------------------------------- book-keeping

  /** The last status that is no success, or success when there is none. */
  function LastFailure(statuses: seq<Status>): Status {
    if statuses == [] then Success
    else if statuses[|statuses| - 1] != Success then statuses[|statuses| - 1]
    else LastFailure(statuses[..|statuses| - 1])
  }

  lemma {:induction false} LastFailureIs(statuses: seq<Status>)
    ensures LastFailure(statuses) == Success <==> forall i :: 0 <= i < |statuses| ==> statuses[i] == Success
    ensures LastFailure(statuses) != Success ==> exists i :: 0 <= i < |statuses| && statuses[i] == LastFailure(statuses)
                                                    && forall j :: i < j < |statuses| ==> statuses[j] == Success
  {
    if statuses != [] {
      var rest, last := statuses[..|statuses| - 1], statuses[|statuses| - 1];
      assert statuses == rest + [last];
      LastFailureIs(rest);
      if last == Success && LastFailure(rest) != Success {
        var i :| 0 <= i < |rest| && rest[i] == LastFailure(rest) && forall j :: i < j < |rest| ==> rest[j] == Success;
        assert statuses[i] == LastFailure(statuses);
      }
    }
  }

  /** The books of one commit: `slack` is the number of completions still to be
      expected from calls that are not in the list. */
  ghost predicate Booked(d: Device, commit: nat, slack: nat) {
    && commit in d.contexts
    && var c, n := d.contexts[commit], Listed(d.commitCalls, commit);
       && c.callsCompleted + n + slack == c.callsMade
       && c.outcomes == (if n + slack == 0 then [c.status] else [])
       && c.status == LastFailure(c.statuses)
  }

  /** Calls are listed in the order made, and belong to commits that exist. */
  ghost predicate ListOk(d: Device) {
    && InOrder(d.commitCalls)
    && forall call <- d.commitCalls :: call.id < d.nextId && call.commit in d.contexts
  }

  /** Calls leave the list, and the books of every commit stay right. */
  ghost predicate Keeps(d: Device, e: Device) {
    && SameDeadlines(d, e) && d.nextId <= e.nextId
    && (forall call <- e.commitCalls :: call in d.commitCalls)
    && (forall commit, slack :: Booked(d, commit, slack) ==> Booked(e, commit, slack))
    && (forall commit <- d.contexts.Keys, st <- d.contexts[commit].statuses :: st in e.contexts[commit].statuses)
    && (ListOk(d) ==> ListOk(e))
  }

  lemma KeepsTransitive(d: Device, e: Device, f: Device)
    requires Keeps(d, e) && Keeps(e, f)
    ensures Keeps(d, f)
  {
  }

  predicate SameCommits(d: Device, e: Device) {
    e.commitCalls == d.commitCalls && e.contexts == d.contexts && d.nextId <= e.nextId
  }

  lemma SameKeeps(d: Device, e: Device)
    requires SameCommits(d, e)
    ensures Keeps(d, e)
  {
  }

  /** Removing a listed call leaves one completion to be expected from outside. */
  lemma RemoveBooks(d: Device, id: nat, commit: nat, slack: nat)
    requires FindCommit(d.commitCalls, id).Some? && Booked(d, commit, slack)
    ensures var call := FindCommit(d.commitCalls, id).value;
      Booked(d.(commitCalls := WithoutCommit(d.commitCalls, id)), commit, if call.commit == commit then slack + 1 else slack)
  {
    ListedFind(d.commitCalls, id, commit);
  }

  /** Counting an expected completion. */
  lemma AccountBooks(d: Device, commit: nat, status: Status, other: nat, slack: nat)
    requires Booked(d, other, if other == commit then slack + 1 else slack)
    ensures Booked(Account(d, commit, status), other, slack)
  {
    if other == commit {
      var c := d.contexts[commit];
      assert c.outcomes == [];
      assert (c.statuses + [status])[..|c.statuses|] == c.statuses;
    }
  }

  lemma AccountKeepsStatuses(d: Device, commit: nat, status: Status)
    ensures forall c <- d.contexts.Keys, st <- d.contexts[c].statuses :: st in Account(d, commit, status).contexts[c].statuses
    ensures commit in d.contexts ==> status in Account(d, commit, status).contexts[commit].statuses
  {
  }

  lemma CompleteInScanKeeps(d: Device, id: nat, status: Status)
    requires ListOk(d)
    ensures Keeps(d, CompleteInScan(d, id, status))
  {
    match FindCommit(d.commitCalls, id)
    case None =>
    case Some(call) =>
      var d1 := d.(commitCalls := WithoutCommit(d.commitCalls, id));
      var e := Account(d1, call.commit, status);
      InOrderWithout(d.commitCalls, id);
      AccountKeepsFields(d1, call.commit, status);
      AccountKeepsStatuses(d1, call.commit, status);
      forall commit, slack | Booked(d, commit, slack) ensures Booked(e, commit, slack) {
        RemoveBooks(d, id, commit, slack);
        AccountBooks(d1, call.commit, status, commit, slack);
      }
  }

  lemma {:induction false} ExpireKeeps(d: Device, calls: seq<CommitCall>, clock: Clock, k: nat)
    requires ListOk(d)
    ensures Keeps(d, ExpireCommits(d, calls, clock, k))
    decreases |calls|
  {
    if calls == [] {
      SameKeeps(d, d);
    } else {
      var e := if DeadlineOf(d, calls[0]) > clock(k) then d else CompleteInScan(d, calls[0].id, Timeout);
      SameKeeps(d, d);
      CompleteInScanKeeps(d, calls[0].id, Timeout);
      ExpireKeeps(e, calls[1..], clock, k + 1);
      KeepsTransitive(d, e, ExpireCommits(d, calls, clock, k));
    }
  }

  lemma SetNextKeeps(d: Device, clock: Clock)
    requires ListOk(d)
    ensures Keeps(d, SetNextTimeout(d, clock))
  {
    if d.inactive || d.settingTimeout {
      SameKeeps(d, d);
    } else {
      SetNextParts(d, clock);
      var d1 := ScanReports(d.(settingTimeout := true, timer := NEVER), clock);
      var d2 := ExpireCommits(d1, d.commitCalls, clock, |d.reportCalls|);
      SameKeeps(d, d1);
      ExpireKeeps(d1, d.commitCalls, clock, |d.reportCalls|);
      KeepsTransitive(d, d1, d2);
      SameKeeps(d2, SetNextTimeout(d, clock));
      KeepsTransitive(d, d2, SetNextTimeout(d, clock));
    }
  }

  ghost predicate Counted(d: Device, commit: nat, status: Status) {
    commit in d.contexts && status in d.contexts[commit].statuses
  }

  lemma CompleteCommitKeeps(d: Device, id: nat, status: Status, clock: Clock)
    requires ListOk(d)
    ensures Keeps(d, CompleteCommit(d, id, status, clock))
    ensures FindCommit(d.commitCalls, id).Some?
            ==> Counted(CompleteCommit(d, id, status, clock), FindCommit(d.commitCalls, id).value.commit, status)
  {
    match FindCommit(d.commitCalls, id)
    case None => SameKeeps(d, d);
    case Some(call) =>
      ListedFind(d.commitCalls, id, 0);
      var d1 := d.(commitCalls := WithoutCommit(d.commitCalls, id));
      InOrderWithout(d.commitCalls, id);
      var d2 := SetNextTimeout(d1, clock);
      SetNextKeeps(d1, clock);
      var e := Account(d2, call.commit, status);
      AccountKeepsFields(d2, call.commit, status);
      AccountKeepsStatuses(d2, call.commit, status);
      forall commit, slack | Booked(d, commit, slack) ensures Booked(e, commit, slack) {
        RemoveBooks(d, id, commit, slack);
        AccountBooks(d2, call.commit, status, commit, slack);
      }
  }

  /** A new call takes the place of one expected from outside the list. */
  lemma InsertBooks(d: Device, commit: nat, other: nat, slack: nat)
    requires Booked(d, other, if other == commit then slack + 1 else slack)
    ensures Booked(InsertCommit(d, commit), other, slack)
  {
    ListedPush(d.commitCalls, CommitCall(d.nextId, commit), other);
  }

  lemma InsertOk(d: Device, commit: nat)
    requires ListOk(d) && commit in d.contexts
    ensures ListOk(InsertCommit(d, commit))
  {
    InOrderPush(d.commitCalls, CommitCall(d.nextId, commit));
  }

  /** The final call is found, and belongs to the commit. */
  lemma {:induction false} FindLast(calls: seq<CommitCall>, call: CommitCall)
    requires forall c <- calls :: c.id < call.id
    ensures FindCommit(calls + [call], call.id) == Some(call)
  {
    if calls != [] {
      assert calls[0] in calls;
      FindLast(calls[1..], call);
      assert (calls + [call])[1..] == calls[1..] + [call];
    }
  }

  lemma {:induction false} AbortCommitsKeeps(d: Device, clock: Clock)
    requires d.inactive && ListOk(d)
    ensures Keeps(d, AbortCommits(d, clock))
    decreases |d.commitCalls|
  {
    if d.commitCalls == [] {
      SameKeeps(d, d);
    } else {
      var d1 := CompleteCommit(d, d.commitCalls[0].id, Aborted, clock);
      CompleteCommitKeeps(d, d.commitCalls[0].id, Aborted, clock);
      AbortCommitsKeeps(d1, clock);
      KeepsTransitive(d, d1, AbortCommits(d, clock));
    }
  }

  lemma CompleteReportKeeps(d: Device, id: nat, status: Status, clock: Clock)
    requires ListOk(d)
    ensures Keeps(d, CompleteReport(d, id, status, clock))
  {
    SameKeeps(d, d);
    if FindReport(d.reportCalls, id) {
      var d1 := d.(reportCalls := WithoutReport(d.reportCalls, id));
      SameKeeps(d, d1);
      SetNextKeeps(d1, clock);
      KeepsTransitive(d, d1, SetNextTimeout(d1, clock));
      SameKeeps(SetNextTimeout(d1, clock), CompleteReport(d, id, status, clock));
      KeepsTransitive(d, SetNextTimeout(d1, clock), CompleteReport(d, id, status, clock));
    }
  }

  lemma {:induction false} AbortReportsKeeps(d: Device, clock: Clock)
    requires d.inactive && ListOk(d)
    ensures Keeps(d, AbortReports(d, clock))
    decreases |d.reportCalls|
  {
    if d.reportCalls == [] {
      SameKeeps(d, d);
    } else {
      var d1 := CompleteReport(d, d.reportCalls[0].id, Aborted, clock);
      CompleteReportKeeps(d, d.reportCalls[0].id, Aborted, clock);
      CompleteReportConserves(d, d.reportCalls[0].id, Aborted, clock);
      AbortReportsKeeps(d1, clock);
      KeepsTransitive(d, d1, AbortReports(d, clock));
    }
  }

  // --------------------------------------------------------------- the timer

  /** While the device is active, the timer goes off no later than any deadline. */
  ghost predicate TimerOk(d: Device) {
    !d.inactive ==>
      && (forall call <- d.reportCalls :: d.timer <= call.deadline)
      && (forall call <- d.commitCalls :: d.timer <= DeadlineOf(d, call))
  }

  lemma {:induction false} EarliestCommitIsBound(d: Device, calls: seq<CommitCall>, clock: Clock, k: nat)
    requires ListOk(d)
    ensures forall call <- ExpireCommits(d, calls, clock, k).commitCalls ::
              call in d.commitCalls && (call in calls ==> EarliestCommit(d, calls, clock, k) <= DeadlineOf(d, call))
    decreases |calls|
  {
    if calls != [] {
      var e := if DeadlineOf(d, calls[0]) > clock(k) then d else CompleteInScan(d, calls[0].id, Timeout);
      CompleteInScanKeeps(d, calls[0].id, Timeout);
      CompleteKeepsFields(d, calls[0].id, Timeout);
      EarliestSame(d, e, calls[1..], clock, k + 1);
      EarliestCommitIsBound(e, calls[1..], clock, k + 1);
      ExpireKeeps(e, calls[1..], clock, k + 1);
      InOrderWithout(d.commitCalls, calls[0].id);
      assert calls == [calls[0]] + calls[1..];
    }
  }

  /** A scan leaves exactly the commit calls whose deadline lies beyond the
      reading taken for them, although completing one comes back into the scan. */
  lemma CommitScanIsExact(d: Device, clock: Clock, i: nat)
    requires ListOk(d) && !d.inactive && !d.settingTimeout && i < |d.commitCalls|
    ensures d.commitCalls[i] in SetNextTimeout(d, clock).commitCalls
            <==> DeadlineOf(d, d.commitCalls[i]) > clock(|d.reportCalls| + i)
  {
    SetNextParts(d, clock);
    var calls := d.commitCalls;
    var d1 := ScanReports(d.(settingTimeout := true, timer := NEVER), clock);
    hide SetNextTimeout, ExpireCommits, Pending, Expired;
    InOrderDistinct(calls, i);
    assert calls == calls[..i] + ([calls[i]] + calls[i + 1..]);
    CommitScanDecides(d1, calls[..i], calls[i], calls[i + 1..], clock, |d.reportCalls|);
  }

  lemma {:induction false} InOrderDistinct(calls: seq<CommitCall>, i: nat)
    requires InOrder(calls) && i < |calls|
    ensures forall call <- calls[..i] + calls[i + 1..] :: call.id != calls[i].id
  {
    if i > 0 {
      var rest := calls[1..];
      InOrderDistinct(rest, i - 1);
      assert rest[i - 1] == calls[i] && calls[i] in rest;
      assert calls[..i] == [calls[0]] + rest[..i - 1] && calls[i + 1..] == rest[i..];
    }
  }

  lemma ExpireFirst(d: Device, call: CommitCall, after: seq<CommitCall>, clock: Clock, j: nat)
    ensures ExpireCommits(d, [call] + after, clock, j)
            == ExpireCommits(if DeadlineOf(d, call) > clock(j) then d else CompleteInScan(d, call.id, Timeout), after, clock, j + 1)
  {
    assert ([call] + after)[1..] == after;
  }

  lemma CommitScanDecides(d: Device, before: seq<CommitCall>, call: CommitCall, after: seq<CommitCall>, clock: Clock, k: nat)
    requires ListOk(d) && call in d.commitCalls
    requires forall other <- before + after :: other.id != call.id
    ensures call in ExpireCommits(d, before + ([call] + after), clock, k).commitCalls <==> DeadlineOf(d, call) > clock(k + |before|)
  {
    hide ExpireCommits, CompleteInScan, ListOk;
    var j := k + |before|;
    var d1 := ExpireCommits(d, before, clock, k);
    var d2 := if DeadlineOf(d1, call) > clock(j) then d1 else CompleteInScan(d1, call.id, Timeout);
    ExpireSplit(d, before, [call] + after, clock, k);
    ExpireFirst(d1, call, after, clock, j);
    assert forall other <- before :: other in before + after;
    assert forall other <- after :: other in before + after;
    ExpireKeeps(d, before, clock, k);
    ScanSparesOthers(d, before, clock, k, call);
    ScanDecides(d1, call, clock(j));
    ScanSparesOthers(d2, after, clock, j + 1, call);
  }

  lemma {:induction false} ExpireSplit(d: Device, a: seq<CommitCall>, b: seq<CommitCall>, clock: Clock, k: nat)
    ensures ExpireCommits(d, a + b, clock, k) == ExpireCommits(ExpireCommits(d, a, clock, k), b, clock, k + |a|)
    decreases |a|
  {
    if a == [] {
      assert a + b == b;
    } else {
      assert (a + b)[1..] == a[1..] + b;
      ExpireSplit(if DeadlineOf(d, a[0]) > clock(k) then d else CompleteInScan(d, a[0].id, Timeout), a[1..], b, clock, k + 1);
    }
  }

  lemma ScanDecides(d: Device, call: CommitCall, now: nat)
    requires ListOk(d) && call in d.commitCalls
    ensures var e := if DeadlineOf(d, call) > now then d else CompleteInScan(d, call.id, Timeout);
      && ListOk(e) && SameDeadlines(d, e)
      && (call in e.commitCalls <==> DeadlineOf(d, call) > now)
      && forall other <- d.commitCalls :: other.id != call.id ==> other in e.commitCalls
  {
    CompleteInScanKeeps(d, call.id, Timeout);
    CompleteKeepsFields(d, call.id, Timeout);
    InOrderWithout(d.commitCalls, call.id);
  }

  lemma {:induction false} ScanSparesOthers(d: Device, calls: seq<CommitCall>, clock: Clock, k: nat, other: CommitCall)
    requires ListOk(d) && forall call <- calls :: call.id != other.id
    ensures other in ExpireCommits(d, calls, clock, k).commitCalls <==> other in d.commitCalls
    decreases |calls|
  {
    if calls != [] {
      var e := if DeadlineOf(d, calls[0]) > clock(k) then d else CompleteInScan(d, calls[0].id, Timeout);
      CompleteInScanKeeps(d, calls[0].id, Timeout);
      InOrderWithout(d.commitCalls, calls[0].id);
      ScanSparesOthers(e, calls[1..], clock, k + 1, other);
    }
  }

  lemma SetNextArms(d: Device, clock: Clock)
    requires ListOk(d) && !d.settingTimeout
    ensures TimerOk(SetNextTimeout(d, clock))
  {
    if !d.inactive {
      SetNextParts(d, clock);
      var d1 := ScanReports(d.(settingTimeout := true, timer := NEVER), clock);
      var d2 := ExpireCommits(d1, d.commitCalls, clock, |d.reportCalls|);
      var e := SetNextTimeout(d, clock);
      EarliestIsBound(e.reportCalls);
      SameKeeps(d, d1);
      EarliestCommitIsBound(d1, d.commitCalls, clock, |d.reportCalls|);
      ExpireKeeps(d1, d.commitCalls, clock, |d.reportCalls|);
      forall call | call in e.commitCalls ensures e.timer <= DeadlineOf(e, call) {
        assert call in d2.commitCalls && call in d.commitCalls;
      }
    }
  }

  lemma {:induction false} EarliestIsOne(calls: seq<ReportCall>)
    ensures EarliestReport(calls) < NEVER ==> exists call <- calls :: call.deadline == EarliestReport(calls)
  {
    if calls != [] {
      EarliestIsOne(calls[1..]);
      assert calls == [calls[0]] + calls[1..];
    }
  }

  lemma {:induction false} EarliestCommitIsOne(d: Device, calls: seq<CommitCall>, clock: Clock, k: nat)
    ensures EarliestCommit(d, calls, clock, k) < NEVER ==>
              exists i :: 0 <= i < |calls| && DeadlineOf(d, calls[i]) == EarliestCommit(d, calls, clock, k) > clock(k + i)
    decreases |calls|
  {
    if calls != [] {
      EarliestCommitIsOne(d, calls[1..], clock, k + 1);
      if EarliestCommit(d, calls, clock, k) < NEVER && EarliestCommit(d, calls, clock, k) == EarliestCommit(d, calls[1..], clock, k + 1) {
        var i :| 0 <= i < |calls[1..]| && DeadlineOf(d, calls[1..][i]) == EarliestCommit(d, calls[1..], clock, k + 1) > clock(k + 1 + i);
        assert calls[i + 1] == calls[1..][i];
      }
    }
  }

  /** And no earlier than needed: after a scan the timer is off, or armed for the
      deadline of a call that is still listed. */
  lemma TimerIsADeadline(d: Device, clock: Clock)
    requires ListOk(d) && !d.inactive && !d.settingTimeout
    ensures var e := SetNextTimeout(d, clock);
      || e.timer == NEVER || (exists call <- e.reportCalls :: call.deadline == e.timer)
      || exists call <- e.commitCalls :: DeadlineOf(e, call) == e.timer
  {
    hide SetNextTimeout, ExpireCommits, Pending, Expired, EarliestReport, EarliestCommit, SameReports;
    var e := SetNextTimeout(d, clock);
    var d1 := ScanReports(d.(settingTimeout := true, timer := NEVER), clock);
    SetNextParts(d, clock);
    SetNextKeeps(d, clock);
    EarliestIsOne(e.reportCalls);
    EarliestCommitIsOne(d1, d.commitCalls, clock, |d.reportCalls|);
    var next := EarliestCommit(d1, d.commitCalls, clock, |d.reportCalls|);
    if next < NEVER && e.timer == next {
      var i :| 0 <= i < |d.commitCalls| && DeadlineOf(d1, d.commitCalls[i]) == next > clock(|d.reportCalls| + i);
      CommitScanIsExact(d, clock, i);
      assert d.commitCalls[i] in e.commitCalls && DeadlineOf(e, d.commitCalls[i]) == e.timer;
    }
  }

  /** Fewer calls and the same timer: nothing to do. */
  lemma FewerCallsOk(d: Device, e: Device)
    requires TimerOk(d) && e.inactive == d.inactive && e.timer == d.timer && SameDeadlines(d, e)
    requires forall call <- e.reportCalls :: call in d.reportCalls
    requires forall call <- e.commitCalls :: call in d.commitCalls
    ensures TimerOk(e)
  {
  }

  lemma CompleteCommitArms(d: Device, id: nat, status: Status, clock: Clock)
    requires ListOk(d) && !d.settingTimeout
    requires FindCommit(d.commitCalls, id).Some? || TimerOk(d)
    ensures TimerOk(CompleteCommit(d, id, status, clock))
  {
    match FindCommit(d.commitCalls, id)
    case None =>
    case Some(call) =>
      var d1 := d.(commitCalls := WithoutCommit(d.commitCalls, id));
      InOrderWithout(d.commitCalls, id);
      var d2 := SetNextTimeout(d1, clock);
      SetNextArms(d1, clock);
      AccountKeepsFields(d2, call.commit, status);
      FewerCallsOk(d2, CompleteCommit(d, id, status, clock));
  }

  lemma CompleteReportArms(d: Device, id: nat, status: Status, clock: Clock)
    requires ListOk(d) && !d.settingTimeout && TimerOk(d)
    ensures TimerOk(CompleteReport(d, id, status, clock))
  {
    if FindReport(d.reportCalls, id) {
      var d1 := d.(reportCalls := WithoutReport(d.reportCalls, id));
      SetNextArms(d1, clock);
    }
  }
}
