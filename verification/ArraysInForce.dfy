/**
 What a run of reports makes of an array: its duplicates hold the slots of the
 last report, and its items are on exactly when their selector is in the last
 list that was accepted.
 */
module ArraysInForce {
  import opened Numbers
  import opened BitCodec
  import opened ElementContainer
  import opened ElementValues
  import opened ElementReading
  import opened ArrayReports
  import opened Options

  // ------------------------------------------------ a whole turn of a handler

  /** What the turn of an array handler does: its own value is read, and the
      array is processed in between if the value moved. */
  ghost predicate ArrayRead(elements: seq<Element>, h: nat, was: seq<seq<Word>>, now: seq<seq<Word>>,
                            lists: map<nat, seq<Word>>, newLists: map<nat, seq<Word>>,
                            report: seq<Byte>, timestamp: Time, out: seq<nat>)
    requires Slotted(elements) && HandlesArray(elements, h) && Shaped(elements, was) && Shaped(elements, now)
    requires h in lists && Reaches(elements[h], 8 * |report|) && |elements| <= 0x1_0000_0000
  {
    assert HasValue(elements, h);
    var begun := Begun(elements, h, was, report, timestamp);
    var mid := now[h := begun[h]];
    && now[h] == EndedValue(begun[h], timestamp)
    && if Processes(elements, h, was, begun) then ArrayProcessed(elements, h, begun, mid, lists, newLists, report, out)
       else mid == begun && newLists == lists && out == []
  }

  ghost function Begun(elements: seq<Element>, h: nat, was: seq<seq<Word>>, report: seq<Byte>, timestamp: Time): (begun: seq<seq<Word>>)
    requires HasValue(elements, h) && Shaped(elements, was) && Reaches(elements[h], 8 * |report|)
    ensures Shaped(elements, begun)
  {
    was[h := BegunValue(elements[h], was[h], report, timestamp)]
  }

  ghost predicate Processes(elements: seq<Element>, h: nat, was: seq<seq<Word>>, begun: seq<seq<Word>>)
    requires HasValue(elements, h) && Shaped(elements, was) && Shaped(elements, begun)
  {
    begun[h][HEADER..] != was[h][HEADER..] || elements[h].interrupt || elements[h].isRelative
  }

  /** The elements whose transactions end with the turn of a handler. */
  ghost function Settled(elements: seq<Element>, h: nat, was: seq<seq<Word>>, begun: seq<seq<Word>>): set<nat>
    requires HasValue(elements, h) && Shaped(elements, was) && Shaped(elements, begun)
  {
    {h} + if Processes(elements, h, was, begun) then SlotCookies(h, SlotCount(elements[h])) else {}
  }

  /** processReport of an array handler, after the checks that stop it. */
  method ReadArray(v: ElementValues, h: nat, report: seq<Byte>, timestamp: Time) returns (changed: bool, out: seq<nat>)
    requires v.Valid() && HandlesArray(v.elements, h) && Reaches(v.elements[h], 8 * |report|)
    modifies v`pending, v`oldSelectors, v.memory
    ensures v.Valid() && HasValue(v.elements, h)
    ensures var begun := Begun(v.elements, h, old(Values(v)), report, timestamp);
      v.pending == old(v.pending) - Settled(v.elements, h, old(Values(v)), begun)
    ensures ArrayRead(v.elements, h, old(Values(v)), Values(v), old(v.oldSelectors), v.oldSelectors, report, timestamp, out)
    ensures changed == (Values(v)[h][HEADER..] != old(Values(v)[h])[HEADER..])
  {
    hide Tiled, Linked, Headed, Grouped, SlottedFrom, Reaches, ArrayProcessed, BegunValue, EndedValue;
    var e := v.elements[h];
    ghost var was := Values(v);
    changed := BeginElement(v, h, report, timestamp);
    ghost var begun := Values(v);
    assert begun == Begun(v.elements, h, was, report, timestamp);
    out := [];
    if changed || e.interrupt || e.isRelative {
      out := ProcessArrayReport(v, h, report);
      ProcessedKeepsHandler(v.elements, h, begun, Values(v), old(v.oldSelectors), v.oldSelectors, report, out);
    }
    ghost var mid := Values(v);
    EndElement(v, h, timestamp);
    assert Values(v)[h := begun[h]] == mid;
  }

  /** Processing an array changes its items and duplicates only. */
  lemma ProcessedKeepsHandler(elements: seq<Element>, h: nat, was: seq<seq<Word>>, now: seq<seq<Word>>,
                              lists: map<nat, seq<Word>>, newLists: map<nat, seq<Word>>, report: seq<Byte>, out: seq<nat>)
    requires Slotted(elements) && HandlesArray(elements, h) && Shaped(elements, was) && Shaped(elements, now)
    requires h in lists && Reaches(elements[h], 8 * |report|) && |elements| <= 0x1_0000_0000
    requires ArrayProcessed(elements, h, was, now, lists, newLists, report, out)
    ensures forall c: nat :: c < |elements| && (c == h || !InArray(elements, h, c)) ==> now[c] == was[c]
    ensures forall k :: k != h && k in lists ==> k in newLists && newLists[k] == lists[k]
  {
    hide SlottedFrom, Reaches, ReadValue, Items, Compared, OnlyErrors, SlotsChanged;
    var mid := SlotsRead(elements, h, was, report, Stamp(was[h]), SlotCount(elements[h]));
    forall c: nat | c < |elements| && (c == h || !InArray(elements, h, c)) ensures now[c] == was[c] {
      assert mid[c] == was[c];
      if now != mid {
        assert ItemChanged(elements, h, mid, now, c);
      }
    }
  }

  /** The handler, its duplicates and its items. */
  predicate InArray(elements: seq<Element>, h: nat, c: nat)
    requires h < |elements| && c < |elements|
  {
    h <= c <= h + SlotCount(elements[h]) || IsItemOf(elements, h, c)
  }

  /** The turn of a handler changes nothing outside its array. */
  lemma ReadKeepsOthers(elements: seq<Element>, h: nat, was: seq<seq<Word>>, now: seq<seq<Word>>,
                        lists: map<nat, seq<Word>>, newLists: map<nat, seq<Word>>,
                        report: seq<Byte>, timestamp: Time, out: seq<nat>)
    requires Slotted(elements) && HandlesArray(elements, h) && Shaped(elements, was) && Shaped(elements, now)
    requires h in lists && Reaches(elements[h], 8 * |report|) && |elements| <= 0x1_0000_0000
    requires ArrayRead(elements, h, was, now, lists, newLists, report, timestamp, out)
    ensures forall c: nat :: c < |elements| && !InArray(elements, h, c) ==> now[c] == was[c]
    ensures forall k :: k != h && k in lists ==> k in newLists && newLists[k] == lists[k]
  {
    hide SlottedFrom, Reaches, ArrayProcessed, BegunValue, EndedValue;
    assert HasValue(elements, h);
    var begun := Begun(elements, h, was, report, timestamp);
    var mid := now[h := begun[h]];
    if Processes(elements, h, was, begun) {
      ProcessedKeepsHandler(elements, h, begun, mid, lists, newLists, report, out);
    }
    forall c: nat | c < |elements| && !InArray(elements, h, c) ensures now[c] == was[c] {
      assert mid[c] == now[c] && begun[c] == was[c];
    }
  }

  // ------------------------------------------- what the slots of an array hold

  function Zeros(n: nat): (s: seq<Word>)
    ensures |s| == n
  {
    seq(n, i => 0)
  }

  /** The data of an element whose field has been read into cleared words. */
  function Fresh(e: Element, f: nat): (data: seq<Word>)
    ensures |data| == DataWords(e)
  {
    var words := WordCount(e.Width());
    StoredWords(Zeros(words), f, e.Width(), false, e.IsSigned()) + Zeros(DataWords(e) - words)
  }

  lemma StoredAnew(a: seq<Word>, b: seq<Word>, f: nat, n: nat, signed: bool)
    requires |a| == |b| == WordCount(n)
    ensures StoredWords(a, f, n, false, signed) == StoredWords(b, f, n, false, signed)
  {
  }

  /** Reading over such data gives such data. */
  lemma FreshRead(e: Element, data: seq<Word>, g: nat, report: seq<Byte>)
    requires !e.variable && Reaches(e, 8 * |report|) && data == Fresh(e, g)
    ensures ReadData(e, data, report) == Fresh(e, ReportField(report, e.startBit, e.Width()))
  {
    var n, signed := e.Width(), e.IsSigned();
    var f, words := ReportField(report, e.startBit, n), WordCount(n);
    var old_ := data[..words];
    assert old_ == StoredWords(Zeros(words), g, n, false, signed) && data[words..] == Zeros(DataWords(e) - words);
    StoredAnew(old_, Zeros(words), f, n, signed);
    if CopiedByBytes(e.startBit, n, signed) && n > 0 {
      UnusedBitsZero(Zeros(words), g, n);
      CopyAgreesWithLoop(old_, f, n);
    }
  }

  lemma UnusedBitsZero(old_: seq<Word>, g: nat, n: nat)
    requires |old_| == WordCount(n) && n > 0
    ensures var s := StoredWords(old_, g, n, false, false); Above(s[|s| - 1], n - 32 * (|s| - 1)) == 0
  {
    var k := |old_| - 1;
    var bits := n - 32 * k;
    FieldBound(g, 32 * k, bits);
    LowOfSmall(Field(g, 32 * k, bits), bits);
  }

  /** The data tells the field. */
  lemma FreshInjective(e: Element, f: nat, g: nat)
    requires f < Pow2(e.Width()) && g < Pow2(e.Width()) && Fresh(e, f) == Fresh(e, g)
    ensures f == g
  {
    var n, words := e.Width(), WordCount(e.Width());
    var a, b := StoredWords(Zeros(words), f, n, false, e.IsSigned()), StoredWords(Zeros(words), g, n, false, e.IsSigned());
    assert a == Fresh(e, f)[..words] && b == Fresh(e, g)[..words];
    if n > 0 && n < 32 && e.IsSigned() {
      assert a[0] == b[0];
      LowOfSmall(f, n);
      LowOfSmall(g, n);
      ExtendedInjective(f, g, n);
    } else if n > 0 {
      assert a == StoredWords(Zeros(words), f, n, false, false) && b == StoredWords(Zeros(words), g, n, false, false);
      StoredNumber(Zeros(words), f, n);
      StoredNumber(Zeros(words), g, n);
    }
  }

  lemma ExtendedInjective(f: nat, g: nat, n: nat)
    requires f < Pow2(n) && g < Pow2(n) && 0 < n < 32 && SignExtended(f, n) == SignExtended(g, n)
    ensures f == g
  {
    Pow2Monotone(n, 32);
  }

  /** The handler holds field `g`, and every duplicate its slot of it. */
  ghost predicate SyncedAt(elements: seq<Element>, h: nat, vals: seq<seq<Word>>, g: nat)
    requires Slotted(elements) && HandlesArray(elements, h) && Shaped(elements, vals)
  {
    assert HasValue(elements, h);
    && g < Pow2(elements[h].Width()) && vals[h][HEADER..] == Fresh(elements[h], g)
    && forall i: nat :: i < SlotCount(elements[h]) ==> SlotSynced(elements, h, vals, g, i)
  }

  ghost predicate SlotSynced(elements: seq<Element>, h: nat, vals: seq<seq<Word>>, g: nat, i: nat)
    requires Slotted(elements) && HandlesArray(elements, h) && Shaped(elements, vals) && i < SlotCount(elements[h])
  {
    SlotInArray(elements, h, i);
    var d := elements[h + 1 + i];
    vals[h + 1 + i][HEADER..] == Fresh(d, Field(g, d.startBit - elements[h].startBit, d.Width()))
  }

  lemma SlotInArray(elements: seq<Element>, h: nat, i: nat)
    requires Slotted(elements) && HandlesArray(elements, h) && i < SlotCount(elements[h])
    ensures h + 1 + i < |elements| && HasValue(elements, h + 1 + i) && !elements[h + 1 + i].variable
    ensures var e, d := elements[h], elements[h + 1 + i];
      d.startBit >= e.startBit && d.startBit - e.startBit + d.Width() <= e.Width()
  {
    SelectorHasValue(elements, h, i);
    SlotFits(i % 0x1_0000, elements[h].count, elements[h].bits);
  }

  ghost predicate Synced(elements: seq<Element>, h: nat, vals: seq<seq<Word>>)
    requires Slotted(elements) && HandlesArray(elements, h) && Shaped(elements, vals)
  {
    exists g: nat :: SyncedAt(elements, h, vals, g)
  }

  /** A slot of the field of an array is a field of the report. */
  lemma SlotOfReport(elements: seq<Element>, h: nat, i: nat, report: seq<Byte>)
    requires Slotted(elements) && HandlesArray(elements, h) && i < SlotCount(elements[h]) && Reaches(elements[h], 8 * |report|)
    ensures h + 1 + i < |elements|
    ensures var e, d := elements[h], elements[h + 1 + i];
      && d.startBit >= e.startBit
      && Field(ReportField(report, e.startBit, e.Width()), d.startBit - e.startBit, d.Width())
         == ReportField(report, d.startBit, d.Width())
  {
    SlotInArray(elements, h, i);
    var e, d := elements[h], elements[h + 1 + i];
    FieldOfField(Number(report, 8), e.startBit, e.Width(), d.startBit - e.startBit, d.Width());
  }

  /** Every duplicate holds its slot of the report. */
  ghost predicate HoldsSlots(elements: seq<Element>, h: nat, vals: seq<seq<Word>>, report: seq<Byte>)
    requires Slotted(elements) && HandlesArray(elements, h) && Shaped(elements, vals)
  {
    assert HasValue(elements, h);
    && vals[h][HEADER..] == Fresh(elements[h], ReportField(report, elements[h].startBit, elements[h].Width()))
    && forall i: nat :: i < SlotCount(elements[h]) ==> HoldsSlot(elements, h, vals, report, i)
  }

  ghost predicate HoldsSlot(elements: seq<Element>, h: nat, vals: seq<seq<Word>>, report: seq<Byte>, i: nat)
    requires Slotted(elements) && HandlesArray(elements, h) && Shaped(elements, vals) && i < SlotCount(elements[h])
  {
    SlotInArray(elements, h, i);
    var d := elements[h + 1 + i];
    vals[h + 1 + i][HEADER..] == Fresh(d, ReportField(report, d.startBit, d.Width()))
  }

  /** The lemmas about one array only compare the data of its selectors and the
      values of its items. */
  ghost predicate SameSelectors(elements: seq<Element>, h: nat, a: seq<seq<Word>>, b: seq<seq<Word>>)
    requires Slotted(elements) && HandlesArray(elements, h) && Shaped(elements, a) && Shaped(elements, b)
  {
    assert HasValue(elements, h);
    && a[h][HEADER..] == b[h][HEADER..]
    && forall i: nat :: i < SlotCount(elements[h]) ==> !SlotChanged(elements, h, a, b, i)
  }

  lemma SelectorsByData(elements: seq<Element>, h: nat, a: seq<seq<Word>>, b: seq<seq<Word>>)
    requires Slotted(elements) && HandlesArray(elements, h) && Shaped(elements, a) && Shaped(elements, b)
    requires SameSelectors(elements, h, a, b)
    ensures Selectors(elements, h, a) == Selectors(elements, h, b)
  {
    forall i: nat | i < elements[h].count ensures Selectors(elements, h, a)[i] == Selectors(elements, h, b)[i] {
      SelectorHasValue(elements, h, i);
      if elements[h].count > 1 {
        assert !SlotChanged(elements, h, a, b, i);
        assert a[h + 1 + i][HEADER..][0] == b[h + 1 + i][HEADER..][0];
      } else {
        assert a[h][HEADER..][0] == b[h][HEADER..][0];
      }
    }
  }

  lemma ItemsUntouched(elements: seq<Element>, h: nat, a: seq<seq<Word>>, b: seq<seq<Word>>)
    requires h < |elements| && Shaped(elements, a) && Shaped(elements, b)
    requires forall c: nat :: c < |elements| && IsItemOf(elements, h, c) ==> a[c] == b[c]
    ensures Items(elements, h, a) == Items(elements, h, b)
  {
  }

  /** The selectors of the array are not what they were. */
  ghost predicate ListChanged(elements: seq<Element>, h: nat, was: seq<seq<Word>>, now: seq<seq<Word>>)
    requires Slotted(elements) && HandlesArray(elements, h) && Shaped(elements, was) && Shaped(elements, now)
  {
    assert HasValue(elements, h);
    if SlotCount(elements[h]) > 0 then SlotsChanged(elements, h, was, now, SlotCount(elements[h]))
    else was[h][HEADER..] != now[h][HEADER..]
  }

  /** The list of a report comes into force. */
  ghost predicate Accepted(elements: seq<Element>, h: nat, was: seq<seq<Word>>, now: seq<seq<Word>>)
    requires Slotted(elements) && HandlesArray(elements, h) && Shaped(elements, was) && Shaped(elements, now)
  {
    ListChanged(elements, h, was, now) && !(Exempt(elements[h]) && OnlyErrors(Selectors(elements, h, now)))
  }

  /** What items become when the list `list` was in force and a report brings the
      list `other`: exactly the items of selectors that came or went are switched,
      when the list is accepted, and enqueued, once, with the time of the report; the
      keyboard's roll-over item says whether the slots hold nothing but ErrorRollOver,
      and is enqueued with every change. */
  ghost predicate Switches(e: Element, was: seq<Item>, items: seq<Item>, out: seq<nat>, list: seq<Word>, other: seq<Word>,
                           changed: bool, accepted: bool, now: Time)
    requires |was| == |items| <= 0x1_0000_0000
  {
    && (forall j, k :: 0 <= j < k < |out| ==> out[j] != out[k])
    && (forall i <- out :: i < |items| && WasSet(was[i], items[i], now))
    && (forall i: nat :: i < |items| && !IsRollOver(i, LogicalMin(e), Exempt(e)) ==>
          && (i in out <==> accepted && Toggled(SelectorOf(i, LogicalMin(e)), list, other))
          && (i !in out ==> items[i] == was[i]))
    && (forall i: nat :: i < |items| && IsRollOver(i, LogicalMin(e), Exempt(e)) ==>
          && (i in out <==> changed)
          && if changed then items[i].value == if OnlyErrors(other) then 1 else 0 else items[i] == was[i])
  }

  // ------------------------------------------------------ items, apart from memory

  lemma SetsRollOver(e: Element, was: seq<Item>, value: Word, now: Time, t: nat)
    requires |was| <= 0x1_0000_0000 && StampedBy(was, t) && t < now.Ticks()
    ensures var items, out := RollOverSet(e, was, value, now), RollOverOut(e, was, now);
      && RolledOver(was, items, out, LogicalMin(e), Exempt(e), now)
      && forall i :: 0 <= i < |was| && IsRollOver(i, LogicalMin(e), Exempt(e)) ==> items[i].value == value && i in out
  {
    var index := ItemIndex(ROLL_OVER, LogicalMin(e));
    var items := RollOverSet(e, was, value, now);
    if Exempt(e) {
      if index < |was| {
        assert was[index].stamp != now;
      }
      OnlyRollOver(was, items, index, LogicalMin(e), now);
      forall i | 0 <= i < |was| && IsRollOver(i, LogicalMin(e), true) ensures i == index {
        SelectorsDiffer(i, index, LogicalMin(e));
      }
    }
  }

  /** A list that is accepted. */
  lemma AcceptedSwitches(e: Element, was: seq<Item>, items: seq<Item>, compared: seq<nat>, list: seq<Word>, other: seq<Word>,
                         now: Time, t: nat)
    requires |was| == |items| <= 0x1_0000_0000 && StampedBy(was, t) && t < now.Ticks()
    requires InForce(was, LogicalMin(e), Exempt(e), list)
    requires !(Exempt(e) && OnlyErrors(other))
    requires Compared(RollOverSet(e, was, 0, now), items, compared, LogicalMin(e), list, other, now)
    ensures StampedBy(items, now.Ticks()) && InForce(items, LogicalMin(e), Exempt(e), other)
    ensures Switches(e, was, items, RollOverOut(e, was, now) + compared, list, other, true, true, now)
  {
    var before, first := RollOverSet(e, was, 0, now), RollOverOut(e, was, now);
    SetsRollOver(e, was, 0, now, t);
    Switched(was, before, items, first, compared, LogicalMin(e), Exempt(e), list, other, t, now);
    forall i: nat | i < |items| && IsRollOver(i, LogicalMin(e), Exempt(e)) ensures items[i].value == 0 {
      assert before[i].stamp == now && items[i] == ItemAfter(before[i], SelectorOf(i, LogicalMin(e)), list, other, now);
    }
  }

  /** A list of nothing but ErrorRollOver. */
  lemma RolledSwitches(e: Element, was: seq<Item>, list: seq<Word>, other: seq<Word>, now: Time, t: nat)
    requires |was| <= 0x1_0000_0000 && StampedBy(was, t) && t < now.Ticks()
    requires InForce(was, LogicalMin(e), Exempt(e), list) && Exempt(e) && OnlyErrors(other)
    ensures var items := RollOverSet(e, was, 1, now);
      && StampedBy(items, now.Ticks()) && InForce(items, LogicalMin(e), Exempt(e), list)
      && Switches(e, was, items, RollOverOut(e, was, now), list, other, true, false, now)
  {
    SetsRollOver(e, was, 1, now, t);
  }

  /** No change. */
  lemma NothingSwitches(e: Element, was: seq<Item>, list: seq<Word>, other: seq<Word>, t: nat, now: Time)
    requires |was| <= 0x1_0000_0000 && StampedBy(was, t) && t < now.Ticks() && InForce(was, LogicalMin(e), Exempt(e), list)
    ensures StampedBy(was, now.Ticks()) && Switches(e, was, was, [], list, other, false, false, now)
  {
  }

  lemma FirstIsIn(s: seq<nat>)
    ensures s == [] || s[0] in s
  {
  }

  /** Comparing a list with itself switches nothing. */
  lemma SameListCompared(was: seq<Item>, items: seq<Item>, out: seq<nat>, logicalMin: Word, list: seq<Word>, now: Time)
    requires |was| == |items| <= 0x1_0000_0000 && Compared(was, items, out, logicalMin, list, list, now)
    ensures items == was && out == []
  {
    FirstIsIn(out);
  }

  // ----------------------------------------------------------- one report

  /** The array `h` after a run of reports, the last one not later than `t`: its
      slots are those of one field, and its items are on exactly when their
      selector is in the last accepted list. */
  ghost predicate ArrayCurrent(elements: seq<Element>, h: nat, vals: seq<seq<Word>>, lists: map<nat, seq<Word>>, t: nat)
    requires Slotted(elements) && HandlesArray(elements, h) && Shaped(elements, vals) && |elements| <= 0x1_0000_0000
  {
    assert HasValue(elements, h);
    var e, items := elements[h], Items(elements, h, vals);
    && h in lists && Synced(elements, h, vals)
    && (SlotCount(e) == 0 ==> lists[h] == Selectors(elements, h, vals))
    && InForce(items, LogicalMin(e), Exempt(e), lists[h])
    && StampedBy(items, t) && Stamp(vals[h]).Ticks() <= t
  }

  /** The selectors that a report carries in the slots of an array. */
  ghost function ListOf(elements: seq<Element>, h: nat, report: seq<Byte>): (list: seq<Word>)
    requires Slotted(elements) && HandlesArray(elements, h)
    ensures |list| == elements[h].count
  {
    seq(elements[h].count, i requires 0 <= i < elements[h].count =>
      SelectorHasValue(elements, h, i);
      var d := elements[SelectorCookie(elements[h], h, i)];
      Fresh(d, ReportField(report, d.startBit, d.Width()))[0])
  }

  lemma ListHeld(elements: seq<Element>, h: nat, vals: seq<seq<Word>>, report: seq<Byte>)
    requires Slotted(elements) && HandlesArray(elements, h) && Shaped(elements, vals) && HoldsSlots(elements, h, vals, report)
    ensures Selectors(elements, h, vals) == ListOf(elements, h, report)
  {
    hide SlottedFrom, Fresh;
    forall i: nat | i < elements[h].count ensures Selectors(elements, h, vals)[i] == ListOf(elements, h, report)[i] {
      SelectorHasValue(elements, h, i);
      var c := SelectorCookie(elements[h], h, i);
      if elements[h].count > 1 {
        assert HoldsSlot(elements, h, vals, report, i);
      }
      assert vals[c][HEADER..][0] == vals[c][HEADER];
    }
  }

  /** Without a change the selectors are the same. */
  lemma UnchangedList(elements: seq<Element>, h: nat, was: seq<seq<Word>>, now: seq<seq<Word>>)
    requires Slotted(elements) && HandlesArray(elements, h) && Shaped(elements, was) && Shaped(elements, now)
    requires !ListChanged(elements, h, was, now)
    ensures Selectors(elements, h, now) == Selectors(elements, h, was)
  {
    hide SlottedFrom;
    forall i: nat | i < elements[h].count ensures Selectors(elements, h, now)[i] == Selectors(elements, h, was)[i] {
      SelectorHasValue(elements, h, i);
      if elements[h].count > 1 {
        assert !SlotChanged(elements, h, was, now, i);
        assert was[h + 1 + i][HEADER..][0] == now[h + 1 + i][HEADER..][0];
      } else {
        assert was[h][HEADER..][0] == now[h][HEADER..][0];
      }
    }
  }

  lemma HoldsIsLocal(elements: seq<Element>, h: nat, a: seq<seq<Word>>, b: seq<seq<Word>>, report: seq<Byte>)
    requires Slotted(elements) && HandlesArray(elements, h) && Shaped(elements, a) && Shaped(elements, b)
    requires SameArrayValues(elements, h, a, b)
    ensures HoldsSlots(elements, h, a, report) ==> HoldsSlots(elements, h, b, report)
    ensures SyncedAt(elements, h, a, 0) ==> SyncedAt(elements, h, b, 0)
  {
    hide SlottedFrom, Fresh;
    SameArrayParts(elements, h, a, b);
    forall i: nat | i < SlotCount(elements[h])
      ensures HoldsSlot(elements, h, a, report, i) ==> HoldsSlot(elements, h, b, report, i)
      ensures SlotSynced(elements, h, a, 0, i) ==> SlotSynced(elements, h, b, 0, i)
    {
      assert !SlotChanged(elements, h, a, b, i);
    }
  }

  /** What one report does to the array: each duplicate holds its slot, a list
      that is accepted is saved, and items are switched accordingly. */
  ghost predicate ArrayOutcome(elements: seq<Element>, h: nat, was: seq<seq<Word>>, now: seq<seq<Word>>,
                               lists: map<nat, seq<Word>>, newLists: map<nat, seq<Word>>,
                               report: seq<Byte>, timestamp: Time, out: seq<nat>)
    requires Slotted(elements) && HandlesArray(elements, h) && Shaped(elements, was) && Shaped(elements, now)
    requires h in lists && h in newLists && |elements| <= 0x1_0000_0000
  {
    var list := Selectors(elements, h, now);
    && HoldsSlots(elements, h, now, report)
    && newLists[h] == (if Accepted(elements, h, was, now) then list else lists[h])
    && Switches(elements[h], Items(elements, h, was), Items(elements, h, now), out, lists[h], list,
                ListChanged(elements, h, was, now), Accepted(elements, h, was, now), timestamp)
  }

  /** After reading, handler and duplicates hold the report, whether or not the
      array was processed: if it was not, nothing has changed. */
  lemma SlotsAfterRead(elements: seq<Element>, h: nat, was: seq<seq<Word>>, now: seq<seq<Word>>, report: seq<Byte>, timestamp: Time)
    requires Slotted(elements) && HandlesArray(elements, h) && Shaped(elements, was) && Shaped(elements, now)
    requires Reaches(elements[h], 8 * |report|) && Synced(elements, h, was) && HasValue(elements, h)
    requires var begun := Begun(elements, h, was, report, timestamp);
      var read := if Processes(elements, h, was, begun)
                  then SlotsRead(elements, h, begun, report, Stamp(begun[h]), SlotCount(elements[h])) else begun;
      SameSelectors(elements, h, read, now)
    ensures HoldsSlots(elements, h, now, report) && Synced(elements, h, now)
    ensures ListChanged(elements, h, was, now) ==>
              ReadData(elements[h], was[h][HEADER..], report) != was[h][HEADER..]
  {
    var e := elements[h];
    var g: nat :| SyncedAt(elements, h, was, g);
    var f := ReportField(report, e.startBit, e.Width());
    SlotsInside(elements, h);
    FreshRead(e, was[h][HEADER..], g, report);
    var begun := Begun(elements, h, was, report, timestamp);
    if begun[h][HEADER..] == was[h][HEADER..] {
      FreshInjective(e, f, g);
    }
    forall i: nat | i < SlotCount(e)
      ensures HoldsSlot(elements, h, now, report, i) && SlotSynced(elements, h, now, f, i)
      ensures begun[h][HEADER..] == was[h][HEADER..] ==> !SlotChanged(elements, h, was, now, i)
    {
      SlotAfterRead(elements, h, was, now, report, timestamp, g, i);
    }
    assert SyncedAt(elements, h, now, f);
  }

  lemma SlotAfterRead(elements: seq<Element>, h: nat, was: seq<seq<Word>>, now: seq<seq<Word>>, report: seq<Byte>, timestamp: Time,
                      g: nat, i: nat)
    requires Slotted(elements) && HandlesArray(elements, h) && Shaped(elements, was) && Shaped(elements, now)
    requires Reaches(elements[h], 8 * |report|) && HasValue(elements, h) && i < SlotCount(elements[h])
    requires SyncedAt(elements, h, was, g)
    requires var begun := Begun(elements, h, was, report, timestamp);
      var read := if Processes(elements, h, was, begun)
                  then SlotsRead(elements, h, begun, report, Stamp(begun[h]), SlotCount(elements[h])) else begun;
      !SlotChanged(elements, h, read, now, i)
    requires var begun := Begun(elements, h, was, report, timestamp);
      begun[h][HEADER..] == was[h][HEADER..] ==> g == ReportField(report, elements[h].startBit, elements[h].Width())
    ensures HoldsSlot(elements, h, now, report, i)
    ensures SlotSynced(elements, h, now, ReportField(report, elements[h].startBit, elements[h].Width()), i)
    ensures Begun(elements, h, was, report, timestamp)[h][HEADER..] == was[h][HEADER..] ==> !SlotChanged(elements, h, was, now, i)
  {
    hide SlottedFrom, ReadData, Fresh, BegunValue;
    SlotInArray(elements, h, i);
    SlotReached(elements, h, i, report);
    SlotOfReport(elements, h, i, report);
    var begun, c := Begun(elements, h, was, report, timestamp), h + 1 + i;
    var d := elements[c];
    assert SlotSynced(elements, h, was, g, i) && begun[c] == was[c];
    FreshRead(d, was[c][HEADER..], Field(g, d.startBit - elements[h].startBit, d.Width()), report);
  }

  /** Begin and End of a handler touch no item and no duplicate. */
  lemma AroundProcessing(elements: seq<Element>, h: nat, was: seq<seq<Word>>, now: seq<seq<Word>>, report: seq<Byte>, timestamp: Time)
    requires Slotted(elements) && HandlesArray(elements, h) && Shaped(elements, was) && Shaped(elements, now)
    requires Reaches(elements[h], 8 * |report|) && HasValue(elements, h)
    requires var begun := Begun(elements, h, was, report, timestamp); now[h] == EndedValue(begun[h], timestamp)
    ensures var begun := Begun(elements, h, was, report, timestamp);
      var mid := now[h := begun[h]];
      && Shaped(elements, mid) && SameSelectors(elements, h, mid, now)
      && Items(elements, h, begun) == Items(elements, h, was) && Items(elements, h, mid) == Items(elements, h, now)
      && forall c: nat :: c < |elements| && c != h ==> begun[c] == was[c] && mid[c] == now[c]
  {
    hide SlottedFrom, BegunValue, EndedValue, Reaches;
    var begun := Begun(elements, h, was, report, timestamp);
    var mid := now[h := begun[h]];
    ItemsUntouched(elements, h, begun, was);
    ItemsUntouched(elements, h, mid, now);
    forall i: nat | i < SlotCount(elements[h]) ensures !SlotChanged(elements, h, mid, now, i) {
      SlotInArray(elements, h, i);
    }
  }

  /** Processing leaves the selectors as the duplicates read them, and reading
      them touches no item. */
  lemma DuringProcessing(elements: seq<Element>, h: nat, was: seq<seq<Word>>, now: seq<seq<Word>>,
                         lists: map<nat, seq<Word>>, newLists: map<nat, seq<Word>>, report: seq<Byte>, out: seq<nat>)
    requires Slotted(elements) && HandlesArray(elements, h) && Shaped(elements, was) && Shaped(elements, now)
    requires h in lists && Reaches(elements[h], 8 * |report|) && |elements| <= 0x1_0000_0000
    requires ArrayProcessed(elements, h, was, now, lists, newLists, report, out)
    ensures HasValue(elements, h)
    ensures var read := SlotsRead(elements, h, was, report, Stamp(was[h]), SlotCount(elements[h]));
      && SameSelectors(elements, h, read, now) && Selectors(elements, h, read) == Selectors(elements, h, now)
      && Items(elements, h, read) == Items(elements, h, was)
  {
    hide SlottedFrom, Reaches, ReadValue, Items, Compared, OnlyErrors, SlotsChanged, Selectors, RollOverSet, RollOverOut;
    var read := SlotsRead(elements, h, was, report, Stamp(was[h]), SlotCount(elements[h]));
    ItemsUntouched(elements, h, read, was);
    if now == read {
      NoItemsChanged(elements, h, read);
    }
    ItemsKeepSelectors(elements, h, read, now);
    forall i: nat | i < SlotCount(elements[h]) ensures !SlotChanged(elements, h, read, now, i) {
      SlotInArray(elements, h, i);
    }
  }

  lemma SameSelectorsMore(elements: seq<Element>, h: nat, a: seq<seq<Word>>, b: seq<seq<Word>>, c: seq<seq<Word>>)
    requires Slotted(elements) && HandlesArray(elements, h) && Shaped(elements, a) && Shaped(elements, b) && Shaped(elements, c)
    requires SameSelectors(elements, h, a, b) && SameSelectors(elements, h, b, c)
    ensures SameSelectors(elements, h, a, c)
  {
    forall i: nat | i < SlotCount(elements[h]) ensures !SlotChanged(elements, h, a, c, i) {
      assert !SlotChanged(elements, h, a, b, i) && !SlotChanged(elements, h, b, c, i);
    }
  }

  /** What has changed does not depend on where it is looked at. */
  lemma SameChange(elements: seq<Element>, h: nat, a: seq<seq<Word>>, was: seq<seq<Word>>, b: seq<seq<Word>>, now: seq<seq<Word>>)
    requires Slotted(elements) && HandlesArray(elements, h)
    requires Shaped(elements, a) && Shaped(elements, b) && Shaped(elements, was) && Shaped(elements, now)
    requires forall c: nat :: c < |elements| && c != h ==> a[c] == was[c]
    requires SameSelectors(elements, h, b, now)
    ensures var n := SlotCount(elements[h]); SlotsChanged(elements, h, a, b, n) <==> SlotsChanged(elements, h, was, now, n)
  {
    forall i: nat | i < SlotCount(elements[h])
      ensures SlotChanged(elements, h, a, b, i) <==> SlotChanged(elements, h, was, now, i)
    {
      SlotInArray(elements, h, i);
      assert !SlotChanged(elements, h, b, now, i);
    }
  }

  /** One report through an array handler, later than all before: the duplicates
      hold their slots, and the items are on exactly when their selector is in
      the last accepted list. */
  lemma ReadKeepsCurrent(elements: seq<Element>, h: nat, was: seq<seq<Word>>, now: seq<seq<Word>>,
                         lists: map<nat, seq<Word>>, newLists: map<nat, seq<Word>>,
                         report: seq<Byte>, timestamp: Time, out: seq<nat>, t: nat)
    requires Slotted(elements) && HandlesArray(elements, h) && Shaped(elements, was) && Shaped(elements, now)
    requires |elements| <= 0x1_0000_0000 && Reaches(elements[h], 8 * |report|)
    requires ArrayCurrent(elements, h, was, lists, t) && t < timestamp.Ticks()
    requires ArrayRead(elements, h, was, now, lists, newLists, report, timestamp, out)
    ensures ArrayCurrent(elements, h, now, newLists, timestamp.Ticks())
    ensures ArrayOutcome(elements, h, was, now, lists, newLists, report, timestamp, out)
  {
    hide SlottedFrom, BegunValue, EndedValue, Reaches, ReadData, ReadValue, SlotsRead, Items, Selectors, Synced, SameSelectors,
         ArrayProcessed, InForce, StampedBy, Switches, HoldsSlots, SlotsChanged, OnlyErrors;
    assert HasValue(elements, h);
    var e := elements[h];
    var begun := Begun(elements, h, was, report, timestamp);
    var mid := now[h := begun[h]];
    AroundProcessing(elements, h, was, now, report, timestamp);
    if Processes(elements, h, was, begun) {
      var read := SlotsRead(elements, h, begun, report, Stamp(begun[h]), SlotCount(e));
      DuringProcessing(elements, h, begun, mid, lists, newLists, report, out);
      SameSelectorsMore(elements, h, read, mid, now);
      SlotsAfterRead(elements, h, was, now, report, timestamp);
      SelectorsByData(elements, h, mid, now);
      SameChange(elements, h, begun, was, read, now);
      ProcessedKeepsCurrent(elements, h, was, begun, mid, now, lists, newLists, report, timestamp, out, t);
    } else {
      SlotsAfterRead(elements, h, was, now, report, timestamp);
      SkippedKeepsCurrent(elements, h, was, now, lists, report, timestamp, t);
    }
  }

  lemma SkippedKeepsCurrent(elements: seq<Element>, h: nat, was: seq<seq<Word>>, now: seq<seq<Word>>, lists: map<nat, seq<Word>>,
                            report: seq<Byte>, timestamp: Time, t: nat)
    requires Slotted(elements) && HandlesArray(elements, h) && Shaped(elements, was) && Shaped(elements, now)
    requires |elements| <= 0x1_0000_0000 && Reaches(elements[h], 8 * |report|) && HasValue(elements, h)
    requires ArrayCurrent(elements, h, was, lists, t) && t < timestamp.Ticks()
    requires HoldsSlots(elements, h, now, report) && Synced(elements, h, now)
    requires var begun := Begun(elements, h, was, report, timestamp);
      && now == begun[h := EndedValue(begun[h], timestamp)] && begun[h][HEADER..] == was[h][HEADER..]
    ensures ArrayCurrent(elements, h, now, lists, timestamp.Ticks())
    ensures ArrayOutcome(elements, h, was, now, lists, lists, report, timestamp, [])
  {
    hide SlottedFrom, BegunValue, EndedValue, Reaches, ReadData, Synced, InForce, HoldsSlots, OnlyErrors;
    var e := elements[h];
    ItemsUntouched(elements, h, now, was);
    forall i: nat | i < SlotCount(e) ensures !SlotChanged(elements, h, was, now, i) {
      SlotInArray(elements, h, i);
    }
    SelectorsByData(elements, h, was, now);
    NothingSwitches(e, Items(elements, h, was), lists[h], Selectors(elements, h, now), t, timestamp);
  }

  lemma ProcessedKeepsCurrent(elements: seq<Element>, h: nat, was: seq<seq<Word>>, begun: seq<seq<Word>>, mid: seq<seq<Word>>,
                              now: seq<seq<Word>>, lists: map<nat, seq<Word>>, newLists: map<nat, seq<Word>>,
                              report: seq<Byte>, timestamp: Time, out: seq<nat>, t: nat)
    requires Slotted(elements) && HandlesArray(elements, h) && HasValue(elements, h)
    requires Shaped(elements, was) && Shaped(elements, mid) && Shaped(elements, now)
    requires |elements| <= 0x1_0000_0000 && Reaches(elements[h], 8 * |report|)
    requires ArrayCurrent(elements, h, was, lists, t) && t < timestamp.Ticks()
    requires begun == Begun(elements, h, was, report, timestamp) && now[h] == EndedValue(begun[h], timestamp)
    requires ArrayProcessed(elements, h, begun, mid, lists, newLists, report, out)
    requires HoldsSlots(elements, h, now, report) && Synced(elements, h, now)
    requires Items(elements, h, begun) == Items(elements, h, was) && Items(elements, h, mid) == Items(elements, h, now)
    requires var read := SlotsRead(elements, h, begun, report, Stamp(begun[h]), SlotCount(elements[h]));
      && Items(elements, h, read) == Items(elements, h, begun)
      && Selectors(elements, h, read) == Selectors(elements, h, mid) == Selectors(elements, h, now)
      && (SlotsChanged(elements, h, begun, read, SlotCount(elements[h])) <==> SlotsChanged(elements, h, was, now, SlotCount(elements[h])))
    requires ListChanged(elements, h, was, now) ==> ReadData(elements[h], was[h][HEADER..], report) != was[h][HEADER..]
    ensures ArrayCurrent(elements, h, now, newLists, timestamp.Ticks())
    ensures ArrayOutcome(elements, h, was, now, lists, newLists, report, timestamp, out)
  {
    hide SlottedFrom, BegunValue, EndedValue, Reaches, ReadData, SlotsRead, Items, Synced, InForce, StampedBy, HoldsSlots,
         SlotsChanged, OnlyErrors, Compared, RollOverSet, RollOverOut, Switches, ItemsOnly;
    var e, items, after := elements[h], Items(elements, h, was), Items(elements, h, now);
    var list, stamp := Selectors(elements, h, now), Stamp(begun[h]);
    assert ListChanged(elements, h, was, now) ==> stamp == timestamp;
    if !ListChanged(elements, h, was, now) {
      if SlotCount(e) == 0 {
        NoSlotsRead(elements, h, begun, report, stamp);
        UnchangedAlone(elements, h, was, begun, mid, lists, newLists, report, out, list);
      }
      NothingSwitches(e, items, lists[h], list, t, timestamp);
    } else if Exempt(e) && OnlyErrors(list) {
      RolledSwitches(e, items, lists[h], list, timestamp, t);
    } else {
      var first := RollOverOut(e, items, timestamp);
      assert out == first + out[|first|..];
      AcceptedSwitches(e, items, after, out[|first|..], lists[h], list, timestamp, t);
    }
  }

  /** A handler of one slot that was processed without a change. */
  lemma UnchangedAlone(elements: seq<Element>, h: nat, was: seq<seq<Word>>, begun: seq<seq<Word>>, mid: seq<seq<Word>>,
                       lists: map<nat, seq<Word>>, newLists: map<nat, seq<Word>>, report: seq<Byte>, out: seq<nat>, list: seq<Word>)
    requires Slotted(elements) && HandlesArray(elements, h) && HasValue(elements, h) && SlotCount(elements[h]) == 0
    requires Shaped(elements, was) && Shaped(elements, begun) && Shaped(elements, mid)
    requires |elements| <= 0x1_0000_0000 && Reaches(elements[h], 8 * |report|) && h in lists
    requires ArrayProcessed(elements, h, begun, mid, lists, newLists, report, out)
    requires begun[h][HEADER..] == was[h][HEADER..] && lists[h] == Selectors(elements, h, was)
    requires SlotsRead(elements, h, begun, report, Stamp(begun[h]), 0) == begun
    requires list == Selectors(elements, h, begun)
    ensures Items(elements, h, mid) == Items(elements, h, begun) && out == [] && newLists == lists && list == lists[h]
  {
    SelectorsByData(elements, h, was, begun);
    SameListCompared(Items(elements, h, begun), Items(elements, h, mid), out, LogicalMin(elements[h]), list, Stamp(begun[h]));
  }

  // --------------------------------------------------- arrays and the others

  /** What is said of one array depends on the values of that array alone. */
  ghost predicate SameArrayValues(elements: seq<Element>, h: nat, a: seq<seq<Word>>, b: seq<seq<Word>>)
    requires h < |elements| && Shaped(elements, a) && Shaped(elements, b)
  {
    forall c: nat :: c < |elements| && InArray(elements, h, c) ==> a[c] == b[c]
  }

  lemma SameArrayParts(elements: seq<Element>, h: nat, a: seq<seq<Word>>, b: seq<seq<Word>>)
    requires Slotted(elements) && HandlesArray(elements, h) && Shaped(elements, a) && Shaped(elements, b)
    requires SameArrayValues(elements, h, a, b)
    ensures HasValue(elements, h) && a[h] == b[h]
    ensures Items(elements, h, a) == Items(elements, h, b) && Selectors(elements, h, a) == Selectors(elements, h, b)
    ensures forall i: nat :: i < SlotCount(elements[h]) ==> !SlotChanged(elements, h, a, b, i)
  {
    forall i: nat | i < SlotCount(elements[h]) ensures !SlotChanged(elements, h, a, b, i) {
      SlotInArray(elements, h, i);
      assert InArray(elements, h, h + 1 + i);
    }
    assert InArray(elements, h, h);
    ItemsUntouched(elements, h, a, b);
    SelectorsByData(elements, h, a, b);
  }

  lemma CurrentIsLocal(elements: seq<Element>, h: nat, a: seq<seq<Word>>, b: seq<seq<Word>>,
                       lists: map<nat, seq<Word>>, others: map<nat, seq<Word>>, t: nat, u: nat)
    requires Slotted(elements) && HandlesArray(elements, h) && Shaped(elements, a) && Shaped(elements, b)
    requires |elements| <= 0x1_0000_0000 && SameArrayValues(elements, h, a, b) && t <= u
    requires ArrayCurrent(elements, h, a, lists, t) && h in others && others[h] == lists[h]
    ensures ArrayCurrent(elements, h, b, others, u)
  {
    hide SlottedFrom, Fresh, Items, Selectors, InForce;
    SameArrayParts(elements, h, a, b);
    var g: nat :| SyncedAt(elements, h, a, g);
    forall i: nat | i < SlotCount(elements[h]) ensures SlotSynced(elements, h, b, g, i) {
      assert SlotSynced(elements, h, a, g, i) && !SlotChanged(elements, h, a, b, i);
    }
    assert SyncedAt(elements, h, b, g);
  }

  lemma OutcomeIsLocal(elements: seq<Element>, h: nat, was: seq<seq<Word>>, now: seq<seq<Word>>,
                       lists: map<nat, seq<Word>>, newLists: map<nat, seq<Word>>,
                       first: seq<seq<Word>>, last: seq<seq<Word>>, firstLists: map<nat, seq<Word>>, lastLists: map<nat, seq<Word>>,
                       report: seq<Byte>, timestamp: Time, out: seq<nat>)
    requires Slotted(elements) && HandlesArray(elements, h) && |elements| <= 0x1_0000_0000
    requires Shaped(elements, was) && Shaped(elements, now) && Shaped(elements, first) && Shaped(elements, last)
    requires SameArrayValues(elements, h, was, first) && SameArrayValues(elements, h, now, last)
    requires h in lists && h in firstLists && lists[h] == firstLists[h]
    requires h in newLists && h in lastLists && newLists[h] == lastLists[h]
    requires ArrayOutcome(elements, h, was, now, lists, newLists, report, timestamp, out)
    ensures ArrayOutcome(elements, h, first, last, firstLists, lastLists, report, timestamp, out)
  {
    hide SlottedFrom, Fresh, Items, Selectors, Switches, OnlyErrors;
    SameArrayParts(elements, h, was, first);
    SameArrayParts(elements, h, now, last);
    forall i: nat | i < SlotCount(elements[h])
      ensures SlotChanged(elements, h, was, now, i) <==> SlotChanged(elements, h, first, last, i)
      ensures HoldsSlot(elements, h, last, report, i)
    {
      assert !SlotChanged(elements, h, was, first, i) && !SlotChanged(elements, h, now, last, i);
      assert HoldsSlot(elements, h, now, report, i);
    }
  }

  // -------------------------------------------------------- before any report

  lemma FieldOfZero(s: nat, n: nat)
    ensures Field(0, s, n) == 0
  {
    LowZero(s);
    LowZero(n);
  }

  lemma FreshZero(e: Element)
    ensures Fresh(e, 0) == Zeros(DataWords(e))
  {
    var words := WordCount(e.Width());
    var s := StoredWords(Zeros(words), 0, e.Width(), false, e.IsSigned());
    forall k | 0 <= k < words ensures s[k] == 0 {
      FieldOfZero(32 * k, Min(32, e.Width() - 32 * k));
    }
    assert s == Zeros(words);
  }

  /** Every array of a new buffer is in force: all zero, no list accepted. */
  lemma InitiallyCurrent(elements: seq<Element>, h: nat, vals: seq<seq<Word>>, lists: map<nat, seq<Word>>)
    requires Slotted(elements) && HandlesArray(elements, h) && Shaped(elements, vals) && |elements| <= 0x1_0000_0000
    requires forall c: nat :: HasValue(elements, c) ==> vals[c] == Initial(elements[c], c)
    requires h in lists && lists[h] == seq(elements[h].count, i => 0)
    ensures ArrayCurrent(elements, h, vals, lists, 0)
    ensures SyncedAt(elements, h, vals, 0) && Selectors(elements, h, vals) == Zeros(elements[h].count)
    ensures forall i :: 0 <= i < |Items(elements, h, vals)| ==> Items(elements, h, vals)[i].value == 0
  {
    hide SlottedFrom, Fresh, Initial, Items;
    assert HasValue(elements, h);
    forall c: nat | HasValue(elements, c)
      ensures vals[c][HEADER..] == Fresh(elements[c], 0) && ItemOf(vals[c]) == Item(0, Time(0, 0), 0)
    {
      InitialValue(elements[c], c);
    }
    forall i: nat | i < SlotCount(elements[h]) ensures SlotSynced(elements, h, vals, 0, i) {
      SlotInArray(elements, h, i);
      FieldOfZero(elements[h + 1 + i].startBit - elements[h].startBit, elements[h + 1 + i].Width());
    }
    assert SyncedAt(elements, h, vals, 0);
    forall i: nat | i < elements[h].count ensures Selectors(elements, h, vals)[i] == 0 {
      SelectorHasValue(elements, h, i);
      assert vals[SelectorCookie(elements[h], h, i)][HEADER] == ItemOf(vals[SelectorCookie(elements[h], h, i)]).value;
    }
    forall i: nat | i < |ItemsOf(elements, h)| ensures Items(elements, h, vals)[i] == Item(0, Time(0, 0), 0) {
      ItemsAt(elements, h, vals, i);
    }
  }

  lemma InitialValue(e: Element, c: nat)
    ensures Initial(e, c)[HEADER..] == Fresh(e, 0) && ItemOf(Initial(e, c)) == Item(0, Time(0, 0), 0)
    ensures Stamp(Initial(e, c)) == Time(0, 0)
  {
    FreshZero(e);
  }
}
