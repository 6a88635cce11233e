/**
 Whole runs of reports: what every element holds after them, told from the
 reports alone.
 */
module ReportRuns {
  import opened Numbers
  import opened BitCodec
  import opened ElementContainer
  import opened ElementValues
  import opened ElementReading
  import opened ArrayReports
  import opened ArraysInForce
  import opened ElementReports
  import opened ReportMeaning
  import opened Options

  /** Reports with rising time stamps, each long enough. */
  ghost predicate Rising(elements: seq<Element>, reports: seq<Arrival>, t: nat) {
    && (forall i :: 0 <= i < |reports| ==> LongEnough(elements, reports[i]) && t < reports[i].timestamp.Ticks())
    && (forall i, j :: 0 <= i < j < |reports| ==> reports[i].timestamp.Ticks() < reports[j].timestamp.Ticks())
  }

  /** The time of the last report of a run. */
  function LastTime(reports: seq<Arrival>): nat {
    if reports == [] then 0 else reports[|reports| - 1].timestamp.Ticks()
  }

  /** The last list of selectors that the reports have brought to an array; on
      the keyboard page a list of nothing but ErrorRollOver does not count. */
  ghost function LastAccepted(elements: seq<Element>, h: nat, reports: seq<Arrival>): (list: seq<Word>)
    requires Slotted(elements) && HandlesArray(elements, h)
    ensures |list| == elements[h].count
  {
    if reports == [] then Zeros(elements[h].count)
    else
      var a := reports[|reports| - 1];
      if ArrayTakes(elements, h, a) && !(Exempt(elements[h]) && OnlyErrors(ListOf(elements, h, a.report)))
      then ListOf(elements, h, a.report)
      else LastAccepted(elements, h, reports[..|reports| - 1])
  }

  /** The last of the reports that the array takes. */
  ghost function LastTaken(elements: seq<Element>, h: nat, reports: seq<Arrival>): Option<seq<Byte>> {
    if reports == [] then None
    else if ArrayTakes(elements, h, reports[|reports| - 1]) then Some(reports[|reports| - 1].report)
    else LastTaken(elements, h, reports[..|reports| - 1])
  }

  /** The array shows what the reports have brought: its duplicates hold the slots
      of the last report it took, or zero; an item with a nonzero selector is on
      exactly when its selector is in the last accepted list, and the keyboard's
      roll-over item exactly when the slots hold nothing but ErrorRollOver. */
  ghost predicate Shows(elements: seq<Element>, h: nat, s: State, reports: seq<Arrival>)
    requires Slotted(elements) && HandlesArray(elements, h) && IsState(elements, s) && |elements| <= 0x1_0000_0000
  {
    var e, items, list := elements[h], Items(elements, h, s.vals), LastAccepted(elements, h, reports);
    && s.lists[h] == list
    && (match LastTaken(elements, h, reports)
        case None => SyncedAt(elements, h, s.vals, 0)
        case Some(report) => HoldsSlots(elements, h, s.vals, report))
    && InForce(items, LogicalMin(e), Exempt(e), list)
    && forall i :: 0 <= i < |items| && IsRollOver(i, LogicalMin(e), Exempt(e)) ==>
                     items[i].value == if OnlyErrors(Selectors(elements, h, s.vals)) then 1 else 0
  }

  /** What the selectors hold is in force, unless it was not accepted. */
  ghost predicate HeldOrRefused(elements: seq<Element>, h: nat, s: State)
    requires Slotted(elements) && HandlesArray(elements, h) && IsState(elements, s)
  {
    var list := Selectors(elements, h, s.vals);
    (Exempt(elements[h]) && OnlyErrors(list)) || s.lists[h] == list
  }

  lemma ShowsNext(elements: seq<Element>, h: nat, a: Arrival, reports: seq<Arrival>, was: State, now: State, out: seq<nat>, t: nat)
    requires Slotted(elements) && |elements| <= 0x1_0000_0000 && IsState(elements, was) && IsState(elements, now)
    requires HandlesArray(elements, h) && Shows(elements, h, was, reports) && HeldOrRefused(elements, h, was)
    requires ArrayCurrent(elements, h, was.vals, was.lists, t) && t < a.timestamp.Ticks()
    requires if ArrayTakes(elements, h, a) then ArrayReceived(elements, h, a, was, now, out, t) else ArrayKept(elements, h, was, now)
    ensures Shows(elements, h, now, reports + [a]) && HeldOrRefused(elements, h, now)
  {
    hide SlottedFrom, ReadValue, Reaches, HoldsSlots, SyncedAt, Synced, Items, Selectors, ListOf, OnlyErrors, ListChanged,
         LastAccepted, LastTaken, ArrayTakes, ArrayReceived;
    LastNext(elements, h, a, reports);
    if ArrayTakes(elements, h, a) {
      ShowsTaken(elements, h, a, reports, was, now, out, t);
    } else {
      SameArrayParts(elements, h, was.vals, now.vals);
      match LastTaken(elements, h, reports)
      case None => HoldsIsLocal(elements, h, was.vals, now.vals, []);
      case Some(report) => HoldsIsLocal(elements, h, was.vals, now.vals, report);
    }
  }

  /** What one more report is to an array. */
  lemma LastNext(elements: seq<Element>, h: nat, a: Arrival, reports: seq<Arrival>)
    requires Slotted(elements) && HandlesArray(elements, h)
    ensures LastTaken(elements, h, reports + [a])
            == if ArrayTakes(elements, h, a) then Some(a.report) else LastTaken(elements, h, reports)
    ensures LastAccepted(elements, h, reports + [a])
            == if ArrayTakes(elements, h, a) && !(Exempt(elements[h]) && OnlyErrors(ListOf(elements, h, a.report)))
               then ListOf(elements, h, a.report) else LastAccepted(elements, h, reports)
  {
    hide SlottedFrom, ArrayTakes, ListOf, OnlyErrors;
    var all := reports + [a];
    assert all[|all| - 1] == a && all[..|all| - 1] == reports;
  }

  lemma ShowsTaken(elements: seq<Element>, h: nat, a: Arrival, reports: seq<Arrival>, was: State, now: State, out: seq<nat>, t: nat)
    requires Slotted(elements) && |elements| <= 0x1_0000_0000 && IsState(elements, was) && IsState(elements, now)
    requires HandlesArray(elements, h) && Shows(elements, h, was, reports) && HeldOrRefused(elements, h, was)
    requires ArrayCurrent(elements, h, was.vals, was.lists, t) && t < a.timestamp.Ticks()
    requires ArrayTakes(elements, h, a) && ArrayReceived(elements, h, a, was, now, out, t)
    ensures Shows(elements, h, now, reports + [a]) && HeldOrRefused(elements, h, now)
  {
    hide SlottedFrom, ReadValue, Reaches, HoldsSlots, SyncedAt, Synced, Items, Selectors, ListOf, OnlyErrors, ListChanged,
         LastAccepted, LastTaken, ArrayTakes;
    LastNext(elements, h, a, reports);
    ListHeld(elements, h, now.vals, a.report);
    if !ListChanged(elements, h, was.vals, now.vals) {
      UnchangedList(elements, h, was.vals, now.vals);
    }
  }

  /** All arrays show what the reports have brought. */
  ghost predicate AllShow(elements: seq<Element>, s: State, reports: seq<Arrival>)
    requires Slotted(elements) && IsState(elements, s) && |elements| <= 0x1_0000_0000
  {
    forall h: nat :: HandlesArray(elements, h) ==> Shows(elements, h, s, reports)
  }

  /** An element that is no array, nor a keyboard modifier, nor a NULL element. */
  predicate IsPlain(elements: seq<Element>, c: nat) {
    c < |elements| && IsData(elements[c].kind) && !elements[c].isArray && !elements[c].IsModifier()
  }

  /** The last of the reports that an element takes. */
  ghost function LastRead(elements: seq<Element>, c: nat, reports: seq<Arrival>): Option<seq<Byte>>
    requires c < |elements|
  {
    if reports == [] then None
    else
      var a := reports[|reports| - 1];
      if elements[c].In(a.reportID, a.reportType) && Takes(elements[c], a) then Some(a.report)
      else LastRead(elements, c, reports[..|reports| - 1])
  }

  /** A plain element holds the number that its field stands for in the last report
      it took, if that reached all of the field, and zero before any. */
  ghost predicate HoldsLast(elements: seq<Element>, c: nat, s: State, reports: seq<Arrival>)
    requires IsPlain(elements, c) && IsState(elements, s)
  {
    var e, data := elements[c], s.vals[c][HEADER..];
    match LastRead(elements, c, reports)
    case None => Held(e, data) == 0
    case Some(report) =>
      e.startBit + e.bits * e.count <= 8 * |report| ==>
        Held(e, data) == Means(e, ReportField(report, e.startBit, e.bits * e.count))
  }

  ghost predicate AllHold(elements: seq<Element>, s: State, reports: seq<Arrival>)
    requires IsState(elements, s)
  {
    forall c: nat :: IsPlain(elements, c) ==> HoldsLast(elements, c, s, reports)
  }

  /** What keeps this so from one report to the next. */
  ghost predicate AllHeld(elements: seq<Element>, s: State, reports: seq<Arrival>)
    requires IsState(elements, s)
  {
    && AllHold(elements, s, reports)
    && forall c: nat :: IsPlain(elements, c) ==> UnusedZero(elements[c], s.vals[c][HEADER..])
  }

  lemma HeldNext(elements: seq<Element>, rollOver: Option<nat>, c: nat, a: Arrival, reports: seq<Arrival>, was: State, now: State)
    requires IsContainer(elements, rollOver) && IsState(elements, was) && IsState(elements, now)
    requires IsPlain(elements, c) && Received(elements, rollOver, c, a, was, now)
    requires HoldsLast(elements, c, was, reports) && UnusedZero(elements[c], was.vals[c][HEADER..])
    ensures HoldsLast(elements, c, now, reports + [a]) && UnusedZero(elements[c], now.vals[c][HEADER..])
  {
    hide SlottedFrom, Grouped, ReadValue, ReadData, Held, Means, UnusedZero;
    var all, e, data := reports + [a], elements[c], was.vals[c][HEADER..];
    assert all[|all| - 1] == a && all[..|all| - 1] == reports;
    if e.In(a.reportID, a.reportType) && Takes(e, a) {
      UnusedStays(e, data, a.report);
      if e.startBit + e.bits * e.count <= 8 * |a.report| {
        FieldHeld(e, data, a.report);
      }
    }
  }

  /** The state of a run after some reports. */
  ghost predicate MidRun(elements: seq<Element>, s: State, reports: seq<Arrival>)
    requires Slotted(elements) && IsState(elements, s) && |elements| <= 0x1_0000_0000
  {
    && AllCurrent(elements, s, LastTime(reports)) && AllShow(elements, s, reports) && AllHeld(elements, s, reports)
    && forall h: nat :: HandlesArray(elements, h) ==> HeldOrRefused(elements, h, s)
  }

  lemma MidRunNext(elements: seq<Element>, rollOver: Option<nat>, a: Arrival, reports: seq<Arrival>, was: State, now: State,
                   outs: map<nat, seq<nat>>)
    requires IsContainer(elements, rollOver) && IsState(elements, was) && IsState(elements, now)
    requires MidRun(elements, was, reports) && LastTime(reports) < a.timestamp.Ticks()
    requires Processed(elements, rollOver, a, was, now, outs, LastTime(reports))
    ensures MidRun(elements, now, reports + [a])
  {
    hide SlottedFrom, Grouped, Shows, HeldOrRefused, HoldsLast, UnusedZero, ArrayCurrent, ArrayReceived, ArrayKept, Received;
    forall c: nat | IsPlain(elements, c)
      ensures HoldsLast(elements, c, now, reports + [a]) && UnusedZero(elements[c], now.vals[c][HEADER..])
    {
      HeldNext(elements, rollOver, c, a, reports, was, now);
    }
    forall h: nat | HandlesArray(elements, h) ensures Shows(elements, h, now, reports + [a]) && HeldOrRefused(elements, h, now) {
      ShowsNext(elements, h, a, reports, was, now, if h in outs then outs[h] else [], LastTime(reports));
    }
  }

  /** A whole run, from the creation of the values on: after any reports with
      rising time stamps every array shows what they have brought, and every plain
      element holds the number that stands in the last report it took. */
  method Run(container: IOHIDElementContainer, reports: seq<Arrival>) returns (v: ElementValues)
    requires container.Chains() && Slotted(container.elements) && |container.elements| <= 0x1_0000_0000
    requires Rising(container.elements, reports, 0)
    ensures fresh(v) && v.Valid() && v.elements == container.elements
    ensures AllShow(v.elements, StateOf(v), reports) && AllHold(v.elements, StateOf(v), reports)
  {
    hide Linked, Headed, Grouped, SlottedFrom, Tiled, LongEnough, MidRun, AllShow, AllHold;
    v := NewValues(container);
    for i := 0 to |reports|
      invariant v.Valid() && v.elements == container.elements && fresh(v) && fresh(v.memory)
      invariant MidRun(v.elements, StateOf(v), reports[..i])
    {
      NextIsLater(v.elements, reports, i);
      RunOne(v, reports[i], reports[..i]);
      assert reports[..i + 1] == reports[..i] + [reports[i]];
    }
    assert reports[..|reports|] == reports;
    RunDone(v.elements, StateOf(v), reports);
  }

  method NewValues(container: IOHIDElementContainer) returns (v: ElementValues)
    requires container.Chains() && Slotted(container.elements) && |container.elements| <= 0x1_0000_0000
    ensures fresh(v) && fresh(v.memory) && v.Valid() && v.elements == container.elements && MidRun(v.elements, StateOf(v), [])
  {
    hide Linked, Headed, Grouped, SlottedFrom, Tiled, MidRun;
    v := new ElementValues(container);
    StartsRun(v);
  }

  lemma NextIsLater(elements: seq<Element>, reports: seq<Arrival>, i: nat)
    requires Rising(elements, reports, 0) && i < |reports|
    ensures LongEnough(elements, reports[i]) && LastTime(reports[..i]) < reports[i].timestamp.Ticks()
  {
  }

  method RunOne(v: ElementValues, a: Arrival, ghost reports: seq<Arrival>)
    requires v.Valid() && LongEnough(v.elements, a) && LastTime(reports) < a.timestamp.Ticks()
    requires MidRun(v.elements, StateOf(v), reports)
    modifies v`pending, v`oldSelectors, v.memory
    ensures v.Valid() && MidRun(v.elements, StateOf(v), reports + [a])
  {
    hide Linked, Headed, Grouped, SlottedFrom, Tiled, LongEnough, MidRun, Processed;
    ghost var was := StateOf(v);
    var changed, error;
    ghost var outs;
    changed, error, outs := ProcessReport(v, a, LastTime(reports));
    MidRunNext(v.elements, v.rollOver, a, reports, was, StateOf(v), outs);
  }

  lemma RunDone(elements: seq<Element>, s: State, reports: seq<Arrival>)
    requires Slotted(elements) && IsState(elements, s) && |elements| <= 0x1_0000_0000 && MidRun(elements, s, reports)
    ensures AllShow(elements, s, reports) && AllHold(elements, s, reports)
  {
  }

  lemma StartsRun(v: ElementValues)
    requires v.Valid()
    requires forall c: nat :: HasValue(v.elements, c) ==> IsInitial(v.elements, v.location, c, v.memory[..])
    requires forall h: nat :: HandlesArray(v.elements, h) ==> v.oldSelectors[h] == seq(v.elements[h].count, i => 0)
    ensures MidRun(v.elements, StateOf(v), [])
  {
    hide Linked, Headed, Grouped, SlottedFrom, Tiled, SyncedAt, Synced, Items, Selectors, Held, UnusedZero;
    forall c: nat | HasValue(v.elements, c) ensures Values(v)[c] == Initial(v.elements[c], c) {
      assert IsInitial(v.elements, v.location, c, v.memory[..]);
      FitsIn(v.elements, v.location, v.memory.Length, c);
      assert Values(v)[c] == Part(v.memory[..], v.location, v.elements, c);
    }
    forall c: nat | IsPlain(v.elements, c)
      ensures HoldsLast(v.elements, c, StateOf(v), []) && UnusedZero(v.elements[c], Values(v)[c][HEADER..])
    {
      ZerosHold(v.elements[c], Initial(v.elements[c], c)[HEADER..]);
    }
    forall h: nat | HandlesArray(v.elements, h)
      ensures ArrayCurrent(v.elements, h, Values(v), v.oldSelectors, 0)
      ensures Shows(v.elements, h, StateOf(v), []) && HeldOrRefused(v.elements, h, StateOf(v))
    {
      InitiallyCurrent(v.elements, h, Values(v), v.oldSelectors);
      ZerosAreNoErrors(v.elements[h].count);
    }
  }

  lemma ZerosHold(e: Element, data: seq<Word>)
    requires |data| == DataWords(e) && forall k :: 0 <= k < |data| ==> data[k] == 0
    ensures Held(e, data) == 0 && UnusedZero(e, data)
  {
    WordsOfWidth(e);
    ZeroNumber(data);
    LowZero(e.Width() - 32 * (|data| - 1));
    AboveZero(e.Width() - 32 * (|data| - 1));
  }

  lemma {:induction false} ZeroNumber(data: seq<Word>)
    requires forall k :: 0 <= k < |data| ==> data[k] == 0
    ensures Number(data, 32) == 0
  {
    if data != [] {
      ZeroNumber(data[1..]);
      ShlSum(0, 0, 32);
    }
  }

  lemma {:induction false} AboveZero(n: nat)
    ensures Above(0, n) == 0
  {
    if n > 0 {
      AboveZero(n - 1);
    }
  }

  // -------------------------------------------------- what an array item shows

  /** Item `i` stands for selector `i` counted from the logical minimum, in 32 bits:
      after a run it is on exactly when this selector is in the last accepted list;
      but for selector 0, and, in a keyboard's array of more than one slot, for
      ErrorRollOver. */
  lemma ItemShows(elements: seq<Element>, h: nat, s: State, reports: seq<Arrival>, i: nat)
    requires Slotted(elements) && HandlesArray(elements, h) && IsState(elements, s) && |elements| <= 0x1_0000_0000
    requires Shows(elements, h, s, reports) && i < |ItemsOf(elements, h)|
    ensures var c, selector := ItemsOf(elements, h)[i], (i + elements[h].logicalMin) % 0x1_0000_0000;
      && HasValue(elements, c)
      && (selector != 0 && !(elements[h].usagePage == 7 && elements[h].count > 1 && selector == 1) ==>
            s.vals[c][HEADER] == if selector in LastAccepted(elements, h, reports) then 1 else 0)
  {
    hide SlottedFrom, LastAccepted, HoldsSlots, SyncedAt, Selectors;
    var items := Items(elements, h, s.vals);
    SelectorIs(i, elements[h].logicalMin);
    assert items[i].value == s.vals[ItemsOf(elements, h)[i]][HEADER];
  }

  /** A keyboard's array of more than one slot does not accept a list of nothing but
      ErrorRollOver; any other list that an array takes is accepted. */
  lemma AcceptedNext(elements: seq<Element>, h: nat, a: Arrival, reports: seq<Arrival>)
    requires Slotted(elements) && HandlesArray(elements, h) && ArrayTakes(elements, h, a)
    ensures var e, list := elements[h], ListOf(elements, h, a.report);
      LastAccepted(elements, h, reports + [a])
      == if e.usagePage == 7 && e.count > 1 && forall k :: 0 <= k < |list| ==> list[k] == 1 then LastAccepted(elements, h, reports)
         else list
  {
    hide SlottedFrom, LastAccepted, ListOf, ArrayTakes;
    LastNext(elements, h, a, reports);
    OnlyErrorsIs(ListOf(elements, h, a.report));
  }

  lemma OnlyErrorsIs(list: seq<Word>)
    ensures OnlyErrors(list) <==> forall k :: 0 <= k < |list| ==> list[k] == 1
  {
    assert forall k :: 0 <= k < |list| ==> list[k] in list;
  }

  /** And its ErrorRollOver item is on exactly when every slot holds ErrorRollOver. */
  lemma RollOverShows(elements: seq<Element>, h: nat, s: State, reports: seq<Arrival>, i: nat)
    requires Slotted(elements) && HandlesArray(elements, h) && IsState(elements, s) && |elements| <= 0x1_0000_0000
    requires Shows(elements, h, s, reports) && i < |ItemsOf(elements, h)|
    requires elements[h].usagePage == 7 && elements[h].count > 1 && (i + elements[h].logicalMin) % 0x1_0000_0000 == 1
    ensures var c, list := ItemsOf(elements, h)[i], Selectors(elements, h, s.vals);
      HasValue(elements, c) && (s.vals[c][HEADER] == 1 <==> forall k :: 0 <= k < |list| ==> list[k] == 1)
  {
    hide SlottedFrom, LastAccepted, HoldsSlots, SyncedAt, InForce, Selectors, OnlyErrors;
    var items := Items(elements, h, s.vals);
    SelectorIs(i, elements[h].logicalMin);
    assert items[i].value == s.vals[ItemsOf(elements, h)[i]][HEADER];
    OnlyErrorsIs(Selectors(elements, h, s.vals));
  }

  lemma SelectorIs(i: Word, logicalMin: int)
    ensures SelectorOf(i, logicalMin % 0x1_0000_0000) == (i + logicalMin) % 0x1_0000_0000
  {
    var q := logicalMin / 0x1_0000_0000;
    assert logicalMin == 0x1_0000_0000 * q + logicalMin % 0x1_0000_0000;
  }

  /** Where the bits of slot `i` start. */
  function SlotBit(e: Element, i: nat): nat {
    if e.count == 1 || e.bits == 1 then e.startBit else e.startBit + (i % 0x1_0000) * e.bits
  }

  /** Entry `i` of the list that a report brings is the number of the slot's own bits:
      of those `i` slots behind the first, and in two's complement if the limits of
      the array say so. */
  lemma SelectorMeans(elements: seq<Element>, h: nat, report: seq<Byte>, i: nat)
    requires Slotted(elements) && HandlesArray(elements, h) && i < elements[h].count && 0 < elements[h].bits <= 32
    ensures var e := elements[h];
      var f := ReportField(report, SlotBit(e, i), e.bits);
      var word := ListOf(elements, h, report)[i];
      if e.logicalMin < 0 || e.logicalMax < 0 then AsSigned(word) == if f >= Pow2(e.bits - 1) then f - Pow2(e.bits) else f
      else word == f
  {
    hide SlottedFrom, Fresh, AsSigned, Pow2, SlotBit, ReportField, IsSlot;
    SelectorHasValue(elements, h, i);
    SlotPlace(elements, h, i);
    var d := elements[SelectorCookie(elements[h], h, i)];
    FreshMeans(d, ReportField(report, d.startBit, elements[h].bits));
  }

  lemma SlotPlace(elements: seq<Element>, h: nat, i: nat)
    requires Slotted(elements) && HandlesArray(elements, h) && i < elements[h].count
    ensures SelectorCookie(elements[h], h, i) < |elements|
    ensures var e, d := elements[h], elements[SelectorCookie(elements[h], h, i)];
      && d.startBit == SlotBit(e, i) && d.Width() == e.bits
      && d.logicalMin == e.logicalMin && d.logicalMax == e.logicalMax
  {
    hide SlottedFrom;
    SelectorHasValue(elements, h, i);
  }

  lemma FreshMeans(e: Element, f: nat)
    requires 0 < e.Width() <= 32 && f < Pow2(e.Width())
    ensures var n, word := e.Width(), Fresh(e, f)[0];
      if e.logicalMin < 0 || e.logicalMax < 0 then AsSigned(word) == if f >= Pow2(n - 1) then f - Pow2(n) else f else word == f
  {
    hide Number, Pow2;
    var n, signed := e.Width(), e.logicalMin < 0 || e.logicalMax < 0;
    SignedHeld([0], f, n);
    UnsignedHeld([0], f, n, false);
    assert Fresh(e, f) == StoredWords([0], f, n, false, signed);
    OneWord(Fresh(e, f));
  }

  lemma ZerosAreNoErrors(n: nat)
    ensures n > 0 ==> !OnlyErrors(Zeros(n))
  {
    if n > 0 {
      assert Zeros(n)[0] in Zeros(n);
    }
  }
}
