/**
 What every region of AsyncCalls does to the report calls and to the timer:
 no call is lost or completed twice, and the timer never sleeps past a deadline.
 */
module AsyncReports {
  import opened AsyncCalls
  import opened Options

  // --------------------------------------------------------------- counting

  function Queued(calls: seq<ReportCall>, id: nat): nat {
    if calls == [] then 0 else (if calls[0].id == id then 1 else 0) + Queued(calls[1..], id)
  }

  function Done(log: seq<Completion>, id: nat): nat {
    if log == [] then 0 else (if log[0].id == id then 1 else 0) + Done(log[1..], id)
  }

  lemma {:induction false} DoneSum(a: seq<Completion>, b: seq<Completion>, id: nat)
    ensures Done(a + b, id) == Done(a, id) + Done(b, id)
  {
    if a == [] {
      assert a + b == b;
    } else {
      DoneSum(a[1..], b, id);
      assert (a + b)[1..] == a[1..] + b;
    }
  }

  lemma {:induction false} QueuedSum(a: seq<ReportCall>, b: seq<ReportCall>, id: nat)
    ensures Queued(a + b, id) == Queued(a, id) + Queued(b, id)
  {
    if a == [] {
      assert a + b == b;
    } else {
      QueuedSum(a[1..], b, id);
      assert (a + b)[1..] == a[1..] + b;
    }
  }

  lemma {:induction false} QueuedMember(calls: seq<ReportCall>, id: nat)
    ensures Queued(calls, id) > 0 <==> exists call <- calls :: call.id == id
    ensures Queued(calls, id) > 0 <==> FindReport(calls, id)
  {
    if calls != [] {
      QueuedMember(calls[1..], id);
      assert calls == [calls[0]] + calls[1..];
    }
  }

  /** Calls stand in the order in which they were submitted. */
  ghost predicate Ascending(calls: seq<ReportCall>) {
    calls == [] || ((forall call <- calls[1..] :: calls[0].id < call.id) && Ascending(calls[1..]))
  }

  lemma {:induction false} AscendingPush(calls: seq<ReportCall>, call: ReportCall)
    requires Ascending(calls) && forall c <- calls :: c.id < call.id
    ensures Ascending(calls + [call])
  {
    if calls != [] {
      assert calls == [calls[0]] + calls[1..];
      AscendingPush(calls[1..], call);
      assert (calls + [call])[1..] == calls[1..] + [call];
    } else {
      assert ([] + [call])[1..] == [];
    }
  }

  // ------------------------------------------------------------ the scan

  /** A scan splits the queue: what is taken out is completed. */
  lemma {:induction false} ScanSplits(calls: seq<ReportCall>, clock: Clock, k: nat, id: nat)
    ensures Queued(Pending(calls, clock, k), id) + Done(Expired(calls, clock, k), id) == Queued(calls, id)
    decreases |calls|
  {
    if calls != [] {
      ScanSplits(calls[1..], clock, k + 1, id);
      var rest, log := Pending(calls[1..], clock, k + 1), Expired(calls[1..], clock, k + 1);
      assert [] + rest == rest && [] + log == log;
      QueuedSum([calls[0]], rest, id);
      DoneSum([Completion(calls[0].id, Timeout)], log, id);
    }
  }

  lemma {:induction false} PendingSubset(calls: seq<ReportCall>, clock: Clock, k: nat)
    ensures forall call <- Pending(calls, clock, k) :: call in calls
    ensures |Pending(calls, clock, k)| <= |calls|
    ensures Ascending(calls) ==> Ascending(Pending(calls, clock, k))
    decreases |calls|
  {
    if calls != [] {
      PendingSubset(calls[1..], clock, k + 1);
      var rest := Pending(calls[1..], clock, k + 1);
      assert calls == [calls[0]] + calls[1..];
      assert [] + rest == rest && ([calls[0]] + rest)[1..] == rest;
      forall call | call in Pending(calls, clock, k) ensures call in calls {
        assert call == calls[0] || call in rest;
      }
    }
  }

  /** A call stays in the queue exactly when its deadline lies beyond the
      reading taken for it; otherwise its completion is invoked with a timeout. */
  lemma ScanIsExact(calls: seq<ReportCall>, clock: Clock, k: nat, i: nat)
    requires Ascending(calls) && i < |calls|
    ensures calls[i] in Pending(calls, clock, k) <==> calls[i].deadline > clock(k + i)
    ensures Completion(calls[i].id, Timeout) in Expired(calls, clock, k) <==> calls[i].deadline <= clock(k + i)
  {
    var before, call, after := calls[..i], calls[i], calls[i + 1..];
    AscendingDistinct(calls, i);
    ScanDecides(before, call, after, clock, k);
    assert before + [call] + after == calls;
  }

  lemma {:induction false} AscendingDistinct(calls: seq<ReportCall>, i: nat)
    requires Ascending(calls) && i < |calls|
    ensures forall call <- calls[..i] + calls[i + 1..] :: call.id != calls[i].id
  {
    if i > 0 {
      var rest := calls[1..];
      AscendingDistinct(rest, i - 1);
      assert rest[i - 1] == calls[i] && calls[i] in rest;
      assert calls[..i] == [calls[0]] + rest[..i - 1] && calls[i + 1..] == rest[i..];
    }
  }

  lemma {:induction false} ScanDecides(before: seq<ReportCall>, call: ReportCall, after: seq<ReportCall>, clock: Clock, k: nat)
    requires forall other <- before + after :: other.id != call.id
    ensures call in Pending(before + [call] + after, clock, k) <==> call.deadline > clock(k + |before|)
    ensures Completion(call.id, Timeout) in Expired(before + [call] + after, clock, k) <==> call.deadline <= clock(k + |before|)
    decreases |before|
  {
    var calls := before + [call] + after;
    UnfoldMember(calls, clock, k, call, Completion(call.id, Timeout));
    forall other | other in after ensures other.id != call.id {
      assert other in before + after;
    }
    if before == [] {
      assert calls[1..] == after;
      PendingSubset(after, clock, k + 1);
      ExpiredSubset(after, clock, k + 1);
    } else {
      assert calls[1..] == before[1..] + [call] + after && before[0] in before + after;
      ScanDecides(before[1..], call, after, clock, k + 1);
    }
  }

  lemma UnfoldMember(calls: seq<ReportCall>, clock: Clock, k: nat, call: ReportCall, c: Completion)
    requires calls != []
    ensures call in Pending(calls, clock, k)
            <==> (calls[0].deadline > clock(k) && call == calls[0]) || call in Pending(calls[1..], clock, k + 1)
    ensures c in Expired(calls, clock, k)
            <==> (calls[0].deadline <= clock(k) && c == Completion(calls[0].id, Timeout)) || c in Expired(calls[1..], clock, k + 1)
  {
  }

  lemma {:induction false} ExpiredSubset(calls: seq<ReportCall>, clock: Clock, k: nat)
    ensures forall c <- Expired(calls, clock, k) :: c.status == Timeout && exists call <- calls :: call.id == c.id
    decreases |calls|
  {
    if calls != [] {
      ExpiredSubset(calls[1..], clock, k + 1);
      assert calls[0] in calls && forall call <- calls[1..] :: call in calls;
    }
  }

  lemma {:induction false} EarliestIsBound(calls: seq<ReportCall>)
    ensures forall call <- calls :: EarliestReport(calls) <= call.deadline
  {
    if calls != [] {
      EarliestIsBound(calls[1..]);
      assert calls == [calls[0]] + calls[1..];
    }
  }

  // ------------------------------------------- what a region may do to reports

  /** The fields that only the worker and termination change. */
  ghost predicate SameFlags(d: Device, e: Device) {
    && e.inactive == d.inactive && e.settingTimeout == d.settingTimeout
    && e.threadActive == d.threadActive && e.threadPending == d.threadPending
    && e.terminateDeferred == d.terminateDeferred && e.teardowns == d.teardowns
    && d.nextId <= e.nextId
  }

  function Total(d: Device, id: nat): nat {
    Queued(d.reportCalls, id) + Done(d.completions, id)
  }

  /** Calls only leave the queue, and each that leaves is completed once. */
  ghost predicate Conserves(d: Device, e: Device) {
    && SameFlags(d, e)
    && (forall id :: Total(e, id) == Total(d, id))
    && (forall call <- e.reportCalls :: call in d.reportCalls)
    && |e.reportCalls| <= |d.reportCalls|
    && (Ascending(d.reportCalls) ==> Ascending(e.reportCalls))
  }

  /** The report side of `d`, and its flags, carry over unchanged. */
  predicate SameReports(d: Device, e: Device) {
    e == d.(commitCalls := e.commitCalls, contexts := e.contexts, nextId := e.nextId) && d.nextId <= e.nextId
  }

  lemma SameConserves(d: Device, e: Device)
    requires SameReports(d, e)
    ensures Conserves(d, e)
  {
  }

  lemma ConservesTransitive(d: Device, e: Device, f: Device)
    requires Conserves(d, e) && Conserves(e, f)
    ensures Conserves(d, f)
  {
  }

  lemma {:induction false} ExpireSameReports(d: Device, calls: seq<CommitCall>, clock: Clock, k: nat)
    ensures SameReports(d, ExpireCommits(d, calls, clock, k))
    ensures ExpireCommits(d, calls, clock, k).nextId == d.nextId
    decreases |calls|
  {
    if calls != [] {
      var e := if DeadlineOf(d, calls[0]) > clock(k) then d else CompleteInScan(d, calls[0].id, Timeout);
      ExpireSameReports(e, calls[1..], clock, k + 1);
    }
  }

  lemma ScanConserves(d: Device, clock: Clock)
    ensures Conserves(d, ScanReports(d, clock))
  {
    var e := ScanReports(d, clock);
    forall id ensures Total(e, id) == Total(d, id) {
      ScanSplits(d.reportCalls, clock, 0, id);
      DoneSum(d.completions, Expired(d.reportCalls, clock, 0), id);
    }
    PendingSubset(d.reportCalls, clock, 0);
  }

  /** The scan, in its parts. */
  lemma SetNextParts(d: Device, clock: Clock)
    requires !d.inactive && !d.settingTimeout
    ensures var d0 := d.(settingTimeout := true, timer := NEVER);
      var d1 := ScanReports(d0, clock);
      var d2 := ExpireCommits(d1, d.commitCalls, clock, |d.reportCalls|);
      var e := SetNextTimeout(d, clock);
      && e == d2.(timer := e.timer, settingTimeout := false)
      && e.timer == Min(EarliestReport(e.reportCalls), EarliestCommit(d1, d.commitCalls, clock, |d.reportCalls|))
      && SameReports(d1, d2) && e.nextId == d.nextId
      && e.reportCalls == Pending(d.reportCalls, clock, 0)
      && e.completions == d.completions + Expired(d.reportCalls, clock, 0)
  {
    var d1 := ScanReports(d.(settingTimeout := true, timer := NEVER), clock);
    ExpireSameReports(d1, d.commitCalls, clock, |d.reportCalls|);
  }

  lemma SetNextConserves(d: Device, clock: Clock)
    ensures Conserves(d, SetNextTimeout(d, clock))
  {
    if !d.inactive && !d.settingTimeout {
      SetNextParts(d, clock);
      ScanConserves(d, clock);
      var e, f := SetNextTimeout(d, clock), ScanReports(d, clock);
      forall id ensures Total(e, id) == Total(d, id) {
        assert Total(e, id) == Total(f, id);
      }
    }
  }

  lemma {:induction false} WithoutReportSplits(calls: seq<ReportCall>, id: nat, other: nat)
    requires FindReport(calls, id)
    ensures Queued(calls, other) == Queued(WithoutReport(calls, id), other) + (if other == id then 1 else 0)
    ensures forall call <- WithoutReport(calls, id) :: call in calls
    ensures |WithoutReport(calls, id)| == |calls| - 1
  {
    if calls[0].id != id {
      WithoutReportSplits(calls[1..], id, other);
      QueuedSum([calls[0]], WithoutReport(calls[1..], id), other);
    }
  }

  lemma {:induction false} WithoutReportAscends(calls: seq<ReportCall>, id: nat)
    requires Ascending(calls)
    ensures Ascending(WithoutReport(calls, id))
    ensures forall call <- WithoutReport(calls, id) :: call in calls
  {
    if calls != [] {
      assert calls == [calls[0]] + calls[1..];
      WithoutReportAscends(calls[1..], id);
      assert ([calls[0]] + WithoutReport(calls[1..], id))[1..] == WithoutReport(calls[1..], id);
    }
  }

  lemma CompleteReportConserves(d: Device, id: nat, status: Status, clock: Clock)
    ensures Conserves(d, CompleteReport(d, id, status, clock))
    ensures d.inactive && FindReport(d.reportCalls, id)
            ==> CompleteReport(d, id, status, clock).reportCalls == WithoutReport(d.reportCalls, id)
    ensures FindReport(d.reportCalls, id) ==> |CompleteReport(d, id, status, clock).reportCalls| < |d.reportCalls|
    ensures Ascending(d.reportCalls) ==> Queued(CompleteReport(d, id, status, clock).reportCalls, id) == 0
  {
    if FindReport(d.reportCalls, id) {
      var d0 := d.(reportCalls := WithoutReport(d.reportCalls, id));
      var d1 := SetNextTimeout(d0, clock);
      SetNextConserves(d0, clock);
      var e := CompleteReport(d, id, status, clock);
      forall other ensures Total(e, other) == Total(d, other) {
        WithoutReportSplits(d.reportCalls, id, other);
        DoneSum(d1.completions, [Completion(id, status)], other);
        assert Total(d1, other) == Total(d0, other);
      }
      WithoutReportSplits(d.reportCalls, id, id);
      if Ascending(d.reportCalls) {
        WithoutReportAscends(d.reportCalls, id);
        AscendingOnce(d.reportCalls, id);
        NotThere(d0.reportCalls, e.reportCalls, id);
      }
    } else {
      QueuedMember(d.reportCalls, id);
    }
  }

  lemma NotThere(calls: seq<ReportCall>, fewer: seq<ReportCall>, id: nat)
    requires Queued(calls, id) == 0 && forall call <- fewer :: call in calls
    ensures Queued(fewer, id) == 0
  {
    QueuedMember(calls, id);
    QueuedMember(fewer, id);
  }

  lemma {:induction false} AscendingOnce(calls: seq<ReportCall>, id: nat)
    requires Ascending(calls)
    ensures Queued(calls, id) <= 1
  {
    if calls != [] {
      AscendingOnce(calls[1..], id);
      QueuedMember(calls[1..], id);
    }
  }

  lemma AccountSameReports(d: Device, commit: nat, status: Status)
    ensures SameReports(d, Account(d, commit, status))
  {
  }

  lemma CompleteCommitConserves(d: Device, id: nat, status: Status, clock: Clock)
    ensures Conserves(d, CompleteCommit(d, id, status, clock))
  {
    if FindCommit(d.commitCalls, id).Some? {
      var d0 := d.(commitCalls := WithoutCommit(d.commitCalls, id));
      var d1 := SetNextTimeout(d0, clock);
      var e := CompleteCommit(d, id, status, clock);
      SameConserves(d, d0);
      SetNextConserves(d0, clock);
      AccountSameReports(d1, FindCommit(d.commitCalls, id).value.commit, status);
      SameConserves(d1, e);
      ConservesTransitive(d, d0, d1);
      ConservesTransitive(d, d1, e);
    }
  }

  lemma FinishConserves(d: Device, commit: nat, own: Option<nat>, ret: Status, clock: Clock)
    ensures Conserves(d, FinishSubmission(d, commit, own, ret, clock))
  {
    match own
    case None =>
      var d1 := InsertCommit(d, commit);
      SameConserves(d, d1);
      CompleteCommitConserves(d1, d.nextId, ret, clock);
      ConservesTransitive(d, d1, FinishSubmission(d, commit, own, ret, clock));
    case Some(id) => CompleteCommitConserves(d, id, ret, clock);
  }

  lemma InsertConserves(d: Device, commit: nat, clock: Clock)
    ensures Conserves(d, SetNextTimeout(InsertCommit(d, commit), clock))
  {
    var d1 := InsertCommit(d, commit);
    SameConserves(d, d1);
    SetNextConserves(d1, clock);
    ConservesTransitive(d, d1, SetNextTimeout(d1, clock));
  }

  lemma BeginConserves(d: Device, commit: nat, deadline: nat, hasReport: bool, clock: Clock)
    ensures Conserves(d, BeginCommit(d, commit, deadline, hasReport, clock))
  {
    var d1 := d.(contexts := d.contexts[commit := NewContext(deadline)]);
    SameConserves(d, d1);
    InsertConserves(d1, commit, clock);
    FinishConserves(d1, commit, None, NotFound, clock);
    ConservesTransitive(d, d1, BeginCommit(d, commit, deadline, hasReport, clock));
  }

  lemma ReturnConserves(d: Device, commit: nat, own: nat, ret: Status, more: bool, clock: Clock)
    ensures Conserves(d, SubmissionReturned(d, commit, own, ret, more, clock))
  {
    var d1 := CountFailure(d, commit);
    SameConserves(d, d1);
    hide Conserves;
    FinishConserves(d1, commit, Some(own), ret, clock);
    InsertConserves(d, commit, clock);
    FinishConserves(d, commit, None, Success, clock);
    if !ret.Success? {
      ConservesTransitive(d, d1, SubmissionReturned(d, commit, own, ret, more, clock));
    }
  }

  lemma {:induction false} AbortReportsConserves(d: Device, clock: Clock)
    requires d.inactive
    ensures Conserves(d, AbortReports(d, clock)) && AbortReports(d, clock).reportCalls == []
    decreases |d.reportCalls|
  {
    if d.reportCalls != [] {
      var id := d.reportCalls[0].id;
      CompleteReportConserves(d, id, Aborted, clock);
      var d1 := CompleteReport(d, id, Aborted, clock);
      AbortReportsConserves(d1, clock);
      ConservesTransitive(d, d1, AbortReports(d, clock));
    }
  }

  lemma {:induction false} AbortCommitsConserves(d: Device, clock: Clock)
    requires d.inactive
    ensures Conserves(d, AbortCommits(d, clock)) && AbortCommits(d, clock).commitCalls == []
    decreases |d.commitCalls|
  {
    if d.commitCalls != [] {
      var id := d.commitCalls[0].id;
      CompleteCommitConserves(d, id, Aborted, clock);
      var d1 := CompleteCommit(d, id, Aborted, clock);
      AbortCommitsConserves(d1, clock);
      ConservesTransitive(d, d1, AbortCommits(d, clock));
    }
  }
}
