/**
 Reading a report into the element values, and making a report from them.
 */
module ElementReports {
  import opened Numbers
  import opened BitCodec
  import opened ElementContainer
  import opened ElementValues
  import opened ElementReading
  import opened ArrayReports
  import opened ArraysInForce
  import opened Options

  // ------------------------------------------------------ one step of a walk

  /** A report on its way through the elements. */
  datatype Arrival = Arrival(reportID: Byte, reportType: ReportType, report: seq<Byte>, timestamp: Time, notInterrupt: bool)
  {
    function Bits(): nat { 8 * |report| }
  }

  /** The report is shorter than the report size that this element keeps. */
  predicate TooShort(e: Element, reportBits: nat) {
    !e.variable && !e.variableReport && e.reportSize != 0 && reportBits < e.reportSize
  }

  predicate IsNullOf(e: Element, reportID: Byte) {
    e.kind == InputNull && e.reportID == reportID
  }

  /** An element of the report, other than an item, is read when the report
      reaches it; report handlers only take interrupt reports. */
  predicate Takes(e: Element, a: Arrival) {
    Reaches(e, a.Bits()) && !(e.interrupt && a.notInterrupt)
  }

  /** A keyboard modifier is passed over while the roll-over element is set and
      has the time of this very report. */
  ghost predicate Blocked(elements: seq<Element>, rollOver: Option<nat>, vals: seq<seq<Word>>, c: nat, timestamp: Time)
    requires c < |elements| && Shaped(elements, vals) && KnownRollOver(elements, rollOver)
  {
    elements[c].IsModifier() && rollOver.Some?
    && (assert HasValue(elements, rollOver.value);
        IsRolledOver(elements[rollOver.value], vals[rollOver.value], timestamp))
  }

  /** getValue reads a value of more than 32 bits as zero. */
  predicate IsRolledOver(e: Element, value: seq<Word>, timestamp: Time)
    requires |value| > HEADER
  {
    e.Width() <= 32 && value[HEADER] != 0 && Stamp(value) == timestamp
  }

  /** Where the walk goes; a report that is too short ends it. */
  function NextOf(elements: seq<Element>, c: nat, a: Arrival): Option<nat>
    requires c < |elements|
  {
    var e := elements[c];
    if !IsNullOf(e, a.reportID) && e.reportID == a.reportID && TooShort(e, a.Bits()) then None
    else Step(elements, c, a.reportID)
  }

  /** An array handler that is read in a report on its chain. */
  predicate ReadsArray(elements: seq<Element>, h: nat, a: Arrival) {
    HandlesArray(elements, h) && elements[h].reportID == a.reportID && !TooShort(elements[h], a.Bits()) && Takes(elements[h], a)
  }

  /** An element that handles no array is read. */
  ghost predicate ReadsValue(elements: seq<Element>, rollOver: Option<nat>, vals: seq<seq<Word>>, c: nat, a: Arrival)
    requires c < |elements| && Shaped(elements, vals) && KnownRollOver(elements, rollOver)
  {
    var e := elements[c];
    && !IsNullOf(e, a.reportID) && e.reportID == a.reportID && !TooShort(e, a.Bits()) && Takes(e, a)
    && !IsItem(elements, c) && !HandlesArray(elements, c) && !Blocked(elements, rollOver, vals, c, a.timestamp)
  }

  /** The state of a container: the values of all elements, the selector lists of
      the array handlers, and the elements that are pending. */
  datatype State = State(vals: seq<seq<Word>>, lists: map<nat, seq<Word>>, pending: set<nat>)

  ghost predicate IsState(elements: seq<Element>, s: State) {
    Shaped(elements, s.vals) && KeepsSelectors(elements, s.lists)
  }

  ghost function StateOf(v: ElementValues): (s: State)
    requires v.Valid()
    reads v, v.memory
    ensures IsState(v.elements, s)
  {
    State(Values(v), v.oldSelectors, v.pending)
  }

  /** The elements of a container, as reports find them. */
  ghost predicate IsContainer(elements: seq<Element>, rollOver: Option<nat>) {
    Slotted(elements) && Grouped(elements) && KnownRollOver(elements, rollOver) && |elements| <= 0x1_0000_0000
  }

  /** The turn of one element of the chain. */
  ghost predicate Turn(elements: seq<Element>, rollOver: Option<nat>, c: nat, a: Arrival, was: State, now: State, out: seq<nat>)
    requires IsContainer(elements, rollOver) && HasValue(elements, c) && IsState(elements, was) && IsState(elements, now)
  {
    if ReadsArray(elements, c, a) then
      && ArrayRead(elements, c, was.vals, now.vals, was.lists, now.lists, a.report, a.timestamp, out)
      && now.pending == was.pending - Settled(elements, c, was.vals, Begun(elements, c, was.vals, a.report, a.timestamp))
    else
      && out == []
      && now == if IsNullOf(elements[c], a.reportID) then was.(vals := was.vals[c := WithStamp(was.vals[c], a.timestamp)])
                else if ReadsValue(elements, rollOver, was.vals, c, a) then
                  was.(vals := was.vals[c := ReadValue(elements[c], was.vals[c], a.report, a.timestamp)], pending := was.pending - {c})
                else was
  }

  method IsBlocked(v: ElementValues, c: nat, timestamp: Time) returns (blocked: bool)
    requires v.Valid() && HasValue(v.elements, c)
    ensures blocked <==> Blocked(v.elements, v.rollOver, Values(v), c, timestamp)
  {
    blocked := false;
    if v.elements[c].IsModifier() && v.rollOver.Some? {
      var word := ReadWord(v, v.rollOver.value);
      var stamp := ReadStamp(v, v.rollOver.value);
      blocked := v.elements[v.rollOver.value].Width() <= 32 && word != 0 && stamp == timestamp;
    }
  }

  /** processReport of one element of the chain. */
  method ProcessElement(v: ElementValues, c: nat, a: Arrival)
    returns (changed: bool, next: Option<nat>, error: bool, out: seq<nat>)
    requires v.Valid() && HasValue(v.elements, c)
    modifies v`pending, v`oldSelectors, v.memory
    ensures v.Valid() && Turn(v.elements, v.rollOver, c, a, old(StateOf(v)), StateOf(v), out)
    ensures changed == (!IsNullOf(v.elements[c], a.reportID) && Values(v)[c][HEADER..] != old(Values(v)[c])[HEADER..])
    ensures next == NextOf(v.elements, c, a)
    ensures error <==> !IsNullOf(v.elements[c], a.reportID) && v.elements[c].reportID == a.reportID && TooShort(v.elements[c], a.Bits())
  {
    assert v.elements[c].interrupt ==> !v.elements[c].isArray;
    hide Tiled, Linked, Headed, Grouped, SlottedFrom, ReadValue, ReadData, Reaches, WithStamp, ArrayRead;
    var e := v.elements[c];
    changed, error, next, out := false, false, e.next, [];
    if e.kind == InputNull && e.reportID == a.reportID {
      StampValue(v, c, a.timestamp);
      next := None;
    } else if e.reportID != a.reportID {
    } else if TooShort(e, a.Bits()) {
      next, error := None, true;
    } else if e.interrupt && a.notInterrupt {
    } else if IsItem(v.elements, c) {
      next := e.handler;
    } else if Reaches(e, a.Bits()) {
      changed, out := ReadReached(v, c, a);
    }
  }

  /** The rest of processReport, for an element that the report reaches. */
  method ReadReached(v: ElementValues, c: nat, a: Arrival) returns (changed: bool, out: seq<nat>)
    requires v.Valid() && HasValue(v.elements, c) && !IsNullOf(v.elements[c], a.reportID) && v.elements[c].reportID == a.reportID
    requires !TooShort(v.elements[c], a.Bits()) && Takes(v.elements[c], a) && !IsItem(v.elements, c)
    modifies v`pending, v`oldSelectors, v.memory
    ensures v.Valid() && Turn(v.elements, v.rollOver, c, a, old(StateOf(v)), StateOf(v), out)
    ensures changed == (Values(v)[c][HEADER..] != old(Values(v)[c])[HEADER..])
  {
    hide Tiled, Linked, Headed, Grouped, SlottedFrom, ReadValue, ReadData, Reaches, ArrayRead, Settled;
    changed, out := false, [];
    if HandlesArray(v.elements, c) {
      changed, out := ReadArray(v, c, a.report, a.timestamp);
    } else {
      var blocked := IsBlocked(v, c, a.timestamp);
      if !blocked {
        changed := ReadElement(v, c, a.report, a.timestamp);
      }
    }
  }

  // ---------------------------------------------------- the walk of a report

  /** No element of the report finds it too short. */
  ghost predicate LongEnough(elements: seq<Element>, a: Arrival) {
    forall c: nat :: c < |elements| && elements[c].In(a.reportID, a.reportType) ==> !TooShort(elements[c], a.Bits())
  }

  /** The handler, a duplicate or an item of an array. */
  predicate OfArray(elements: seq<Element>, c: nat)
    requires c < |elements|
  {
    IsData(elements[c].kind) && elements[c].isArray
  }

  /** In whose turn the value of an element is written. */
  function Writer(elements: seq<Element>, c: nat): nat
    requires c < |elements|
  {
    if OfArray(elements, c) && elements[c].handler.Some? then elements[c].handler.value else c
  }

  /** A keyboard modifier is passed over: the walk goes down, so it meets what the
      report made of the roll-over element if that element, or the handler of its
      array, was registered after the modifier, and otherwise what was there
      before. */
  ghost predicate PassedOver(elements: seq<Element>, rollOver: Option<nat>, c: nat, timestamp: Time,
                             was: seq<seq<Word>>, now: seq<seq<Word>>)
    requires c < |elements| && Shaped(elements, was) && Shaped(elements, now) && KnownRollOver(elements, rollOver)
  {
    elements[c].IsModifier() && rollOver.Some?
    && (assert HasValue(elements, rollOver.value);
        IsRolledOver(elements[rollOver.value],
                     if Writer(elements, rollOver.value) > c then now[rollOver.value] else was[rollOver.value], timestamp))
  }

  /** A NULL element of the report. */
  predicate IsNull(elements: seq<Element>, a: Arrival, c: nat) {
    c < |elements| && elements[c].In(a.reportID, a.reportType) && elements[c].kind == InputNull
  }

  /** The NULL element at which the walk ends: the last one registered. */
  ghost predicate IsLastNull(elements: seq<Element>, a: Arrival, c: nat) {
    IsNull(elements, a, c) && forall d: nat :: d > c ==> !IsNull(elements, a, d)
  }

  /** What one report does to an element that is of no array: an element of the
      report that it reaches is read and no longer pending, but for a keyboard
      modifier that is passed over; the last NULL element of the report gets its
      time; any other element keeps its value. */
  ghost predicate Received(elements: seq<Element>, rollOver: Option<nat>, c: nat, a: Arrival, was: State, now: State)
    requires IsContainer(elements, rollOver) && HasValue(elements, c) && IsState(elements, was) && IsState(elements, now)
  {
    if Wanted(elements, a.reportID, a.reportType, c) && Takes(elements[c], a)
       && !PassedOver(elements, rollOver, c, a.timestamp, was.vals, now.vals)
    then now.vals[c] == ReadValue(elements[c], was.vals[c], a.report, a.timestamp) && c !in now.pending
    else
      && (c in now.pending <==> c in was.pending)
      && now.vals[c] == if IsLastNull(elements, a, c) then WithStamp(was.vals[c], a.timestamp) else was.vals[c]
  }

  /** The array is one of this report, and the report reaches it. */
  predicate ArrayTakes(elements: seq<Element>, h: nat, a: Arrival) {
    HandlesArray(elements, h) && elements[h].In(a.reportID, a.reportType) && Takes(elements[h], a)
  }

  /** What one report does to an array of its own, when it is later than `t`, the
      last report before. */
  ghost predicate ArrayReceived(elements: seq<Element>, h: nat, a: Arrival, was: State, now: State, out: seq<nat>, t: nat)
    requires Slotted(elements) && |elements| <= 0x1_0000_0000 && IsState(elements, was) && IsState(elements, now)
    requires HandlesArray(elements, h) && Reaches(elements[h], a.Bits())
  {
    assert HasValue(elements, h);
    && now.vals[h] == ReadValue(elements[h], was.vals[h], a.report, a.timestamp) && h !in now.pending
    && (ArrayCurrent(elements, h, was.vals, was.lists, t) && t < a.timestamp.Ticks() ==>
          && ArrayCurrent(elements, h, now.vals, now.lists, a.timestamp.Ticks())
          && ArrayOutcome(elements, h, was.vals, now.vals, was.lists, now.lists, a.report, a.timestamp, out))
  }

  /** An array is as it was. */
  ghost predicate ArrayKept(elements: seq<Element>, h: nat, was: State, now: State)
    requires IsState(elements, was) && IsState(elements, now) && HandlesArray(elements, h)
  {
    && SameArrayValues(elements, h, was.vals, now.vals) && now.lists[h] == was.lists[h]
    && forall c: nat :: c < |elements| && InArray(elements, h, c) ==> (c in now.pending <==> c in was.pending)
  }

  /** The state of a walk after the turns of `done`. */
  ghost predicate Midwalk(elements: seq<Element>, rollOver: Option<nat>, a: Arrival, was: State, now: State,
                          outs: map<nat, seq<nat>>, done: seq<nat>, t: nat)
    requires IsContainer(elements, rollOver) && IsState(elements, was) && IsState(elements, now)
  {
    && (forall c: nat :: HasValue(elements, c) && !OfArray(elements, c) ==> ValueMidwalk(elements, rollOver, a, was, now, done, c))
    && (forall h: nat :: HandlesArray(elements, h) ==> ArrayMidwalk(elements, a, was, now, outs, done, t, h))
  }

  ghost predicate ValueMidwalk(elements: seq<Element>, rollOver: Option<nat>, a: Arrival, was: State, now: State, done: seq<nat>, c: nat)
    requires IsContainer(elements, rollOver) && HasValue(elements, c) && IsState(elements, was) && IsState(elements, now)
  {
    if c in done then Received(elements, rollOver, c, a, was, now)
    else now.vals[c] == was.vals[c] && (c in now.pending <==> c in was.pending)
  }

  ghost predicate ArrayMidwalk(elements: seq<Element>, a: Arrival, was: State, now: State, outs: map<nat, seq<nat>>,
                               done: seq<nat>, t: nat, h: nat)
    requires Slotted(elements) && |elements| <= 0x1_0000_0000 && HandlesArray(elements, h)
    requires IsState(elements, was) && IsState(elements, now)
  {
    if h in done && ArrayTakes(elements, h, a) then h in outs && ArrayReceived(elements, h, a, was, now, outs[h], t)
    else ArrayKept(elements, h, was, now) && h !in outs
  }

  /** Every array element belongs to the array of its handler, and to no other. */
  lemma ArrayOf(elements: seq<Element>, c: nat)
    requires Slotted(elements) && Grouped(elements) && c < |elements| && OfArray(elements, c)
    ensures elements[c].handler.Some?
    ensures var h := elements[c].handler.value; HandlesArray(elements, h) && SameReport(elements[h], elements[c]) && InArray(elements, h, c)
  {
    assert 0 + c == c;
    if elements[c].handler != Some(c) {
      assert IsItem(elements, c) && Handles(elements, elements[c].handler.value, c);
    }
  }

  lemma InOneArray(elements: seq<Element>, h: nat, c: nat)
    requires Slotted(elements) && HandlesArray(elements, h) && c < |elements| && InArray(elements, h, c)
    ensures OfArray(elements, c) && elements[c].handler == Some(h)
  {
    SlotsInside(elements, h);
    if h < c <= h + SlotCount(elements[h]) {
      SlotInArray(elements, h, c - h - 1);
      SelectorHasValue(elements, h, c - h - 1);
    }
  }

  /** What the turn of an element leaves alone: everything but its own value and,
      for an array handler, its array. */
  ghost predicate LeavesOthers(elements: seq<Element>, c: nat, was: State, now: State)
    requires IsState(elements, was) && IsState(elements, now)
  {
    && (forall d: nat :: d < |elements| && Writer(elements, d) != c ==>
          now.vals[d] == was.vals[d] && (d in now.pending <==> d in was.pending))
    && (forall h: nat :: HandlesArray(elements, h) && h != c ==> now.lists[h] == was.lists[h])
  }

  lemma TurnLeavesOthers(elements: seq<Element>, rollOver: Option<nat>, c: nat, a: Arrival, was: State, now: State, out: seq<nat>)
    requires IsContainer(elements, rollOver) && HasValue(elements, c) && IsState(elements, was) && IsState(elements, now)
    requires Turn(elements, rollOver, c, a, was, now, out)
    ensures LeavesOthers(elements, c, was, now)
    ensures OfArray(elements, c) && !ReadsArray(elements, c, a) ==> now == was
  {
    hide ReadValue, WithStamp, ArrayRead, Blocked, Reaches, SlottedFrom, Grouped;
    if ReadsArray(elements, c, a) {
      ReadKeepsOthers(elements, c, was.vals, now.vals, was.lists, now.lists, a.report, a.timestamp, out);
      forall d: nat | d < |elements| && Writer(elements, d) != c
        ensures now.vals[d] == was.vals[d] && (d in now.pending <==> d in was.pending)
      {
        if InArray(elements, c, d) {
          InOneArray(elements, c, d);
        }
      }
    } else if OfArray(elements, c) {
      assert IsItem(elements, c) || HandlesArray(elements, c);
    }
  }

  lemma NothingWalked(elements: seq<Element>, rollOver: Option<nat>, a: Arrival, s: State, t: nat)
    requires IsContainer(elements, rollOver) && IsState(elements, s)
    ensures Midwalk(elements, rollOver, a, s, s, map[], [], t)
  {
  }

  /** What has had no turn is as it was. */
  ghost predicate RestKept(elements: seq<Element>, was: State, now: State, done: seq<nat>)
    requires IsState(elements, was) && IsState(elements, now)
  {
    forall r: nat :: HasValue(elements, r) && Writer(elements, r) !in done ==> now.vals[r] == was.vals[r]
  }

  lemma MidwalkKeepsRest(elements: seq<Element>, rollOver: Option<nat>, a: Arrival, was: State, now: State,
                         outs: map<nat, seq<nat>>, done: seq<nat>, t: nat)
    requires IsContainer(elements, rollOver) && IsState(elements, was) && IsState(elements, now)
    requires Midwalk(elements, rollOver, a, was, now, outs, done, t)
    ensures RestKept(elements, was, now, done)
  {
    hide SlottedFrom, Grouped, Received, ArrayReceived;
    forall r: nat | HasValue(elements, r) && Writer(elements, r) !in done ensures now.vals[r] == was.vals[r] {
      if OfArray(elements, r) {
        ArrayOf(elements, r);
        assert ArrayMidwalk(elements, a, was, now, outs, done, t, elements[r].handler.value);
      } else {
        assert ValueMidwalk(elements, rollOver, a, was, now, done, r);
      }
    }
  }

  /** One more turn: elements outside arrays. */
  lemma ValueTurn(elements: seq<Element>, rollOver: Option<nat>, a: Arrival, was: State, before: State, now: State, out: seq<nat>,
                  done: seq<nat>, c: nat, d: nat)
    requires IsContainer(elements, rollOver) && HasValue(elements, c) && HasValue(elements, d) && !OfArray(elements, d)
    requires IsState(elements, was) && IsState(elements, before) && IsState(elements, now)
    requires LongEnough(elements, a) && OnChain(elements, Some(c), a.reportID, a.reportType)
    requires Turn(elements, rollOver, c, a, before, now, out) && LeavesOthers(elements, c, before, now)
    requires AllLater(done, Some(c)) && RestKept(elements, was, before, done)
    requires IsNullOf(elements[c], a.reportID) ==> IsLastNull(elements, a, c)
    requires ValueMidwalk(elements, rollOver, a, was, before, done, d)
    ensures ValueMidwalk(elements, rollOver, a, was, now, done + [c], d)
  {
    hide ReadValue, WithStamp, ArrayRead, Reaches, SlottedFrom, Grouped;
    assert d in done + [c] <==> d == c || d in done;
    assert Writer(elements, d) == d;
    if rollOver.Some? {
      var r := rollOver.value;
      assert HasValue(elements, r);
      if d in done && Writer(elements, r) > d {
        assert now.vals[r] == before.vals[r];
      }
    }
    if d == c {
      assert elements[c].reportID == a.reportID ==> elements[c].In(a.reportID, a.reportType);
      RollOverAt(elements, rollOver, c, a.timestamp, was, before, now, done);
    }
  }

  /** At the turn of a modifier the roll-over element is what PassedOver says. */
  lemma RollOverAt(elements: seq<Element>, rollOver: Option<nat>, c: nat, timestamp: Time, was: State, before: State, now: State,
                   done: seq<nat>)
    requires c < |elements| && !OfArray(elements, c) && KnownRollOver(elements, rollOver)
    requires IsState(elements, was) && IsState(elements, before) && IsState(elements, now) && AllLater(done, Some(c))
    requires RestKept(elements, was, before, done) && LeavesOthers(elements, c, before, now)
    ensures Blocked(elements, rollOver, before.vals, c, timestamp) <==> PassedOver(elements, rollOver, c, timestamp, was.vals, now.vals)
  {
    if rollOver.Some? {
      var r := rollOver.value;
      assert HasValue(elements, r);
      if Writer(elements, r) > c {
        assert now.vals[r] == before.vals[r];
      } else {
        assert forall x <- done :: x > c;
        assert before.vals[r] == was.vals[r];
      }
    }
  }

  /** One more turn: an array. */
  lemma ArrayTurn(elements: seq<Element>, rollOver: Option<nat>, a: Arrival, was: State, before: State, now: State,
                  outs: map<nat, seq<nat>>, out: seq<nat>, done: seq<nat>, c: nat, h: nat, t: nat)
    requires IsContainer(elements, rollOver) && HasValue(elements, c) && HandlesArray(elements, h) && c !in done
    requires IsState(elements, was) && IsState(elements, before) && IsState(elements, now)
    requires LongEnough(elements, a) && OnChain(elements, Some(c), a.reportID, a.reportType)
    requires Turn(elements, rollOver, c, a, before, now, out) && LeavesOthers(elements, c, before, now)
    requires OfArray(elements, c) && !ReadsArray(elements, c, a) ==> now == before
    requires ArrayMidwalk(elements, a, was, before, outs, done, t, h)
    ensures ArrayMidwalk(elements, a, was, now, if ReadsArray(elements, c, a) then outs[c := out] else outs, done + [c], t, h)
  {
    hide ReadValue, WithStamp, Reaches, SlottedFrom, Grouped, ArrayRead, ArrayOutcome, ArrayCurrent, Blocked;
    assert h in done + [c] <==> h == c || h in done;
    if h != c {
      forall d: nat | d < |elements| && InArray(elements, h, d)
        ensures now.vals[d] == before.vals[d] && (d in now.pending <==> d in before.pending)
      {
        InOneArray(elements, h, d);
      }
      if h in done && ArrayTakes(elements, h, a) {
        ReceivedIsLocal(elements, h, a, was, before, now, outs[h], t);
      }
    } else {
      assert elements[c].reportID == a.reportID ==> elements[c].In(a.reportID, a.reportType);
      if ReadsArray(elements, c, a) {
        ArrayReadInWalk(elements, c, a, was, before, now, out, t);
      }
    }
  }

  lemma ReceivedIsLocal(elements: seq<Element>, h: nat, a: Arrival, was: State, before: State, now: State, out: seq<nat>, t: nat)
    requires Slotted(elements) && HandlesArray(elements, h) && |elements| <= 0x1_0000_0000 && Reaches(elements[h], a.Bits())
    requires IsState(elements, was) && IsState(elements, before) && IsState(elements, now)
    requires ArrayKept(elements, h, before, now) && ArrayReceived(elements, h, a, was, before, out, t)
    ensures ArrayReceived(elements, h, a, was, now, out, t)
  {
    hide SlottedFrom, ReadValue, Reaches, ArrayCurrent, ArrayOutcome;
    assert InArray(elements, h, h);
    if ArrayCurrent(elements, h, was.vals, was.lists, t) && t < a.timestamp.Ticks() {
      CurrentIsLocal(elements, h, before.vals, now.vals, before.lists, now.lists, a.timestamp.Ticks(), a.timestamp.Ticks());
      OutcomeIsLocal(elements, h, was.vals, before.vals, was.lists, before.lists, was.vals, now.vals, was.lists, now.lists,
                     a.report, a.timestamp, out);
    }
  }

  lemma ArrayReadInWalk(elements: seq<Element>, h: nat, a: Arrival, was: State, before: State, now: State, out: seq<nat>, t: nat)
    requires Slotted(elements) && HandlesArray(elements, h) && HasValue(elements, h) && |elements| <= 0x1_0000_0000
    requires IsState(elements, was) && IsState(elements, before) && IsState(elements, now)
    requires Reaches(elements[h], a.Bits()) && ArrayKept(elements, h, was, before)
    requires ArrayRead(elements, h, before.vals, now.vals, before.lists, now.lists, a.report, a.timestamp, out)
    requires h !in now.pending
    ensures ArrayReceived(elements, h, a, was, now, out, t)
  {
    hide SlottedFrom, BegunValue, EndedValue, Reaches, ArrayProcessed, ArrayCurrent, ArrayOutcome;
    assert InArray(elements, h, h);
    assert before.vals[h] == was.vals[h];
    assert now.vals[h] == ReadValue(elements[h], was.vals[h], a.report, a.timestamp);
    if ArrayCurrent(elements, h, was.vals, was.lists, t) && t < a.timestamp.Ticks() {
      CurrentIsLocal(elements, h, was.vals, before.vals, was.lists, before.lists, t, t);
      ReadKeepsCurrent(elements, h, before.vals, now.vals, before.lists, now.lists, a.report, a.timestamp, out, t);
      OutcomeIsLocal(elements, h, before.vals, now.vals, before.lists, now.lists, was.vals, now.vals, was.lists, now.lists,
                     a.report, a.timestamp, out);
    }
  }

  /** One more turn of the walk, of a plain element or of a whole array. */
  lemma MidwalkNext(elements: seq<Element>, rollOver: Option<nat>, a: Arrival, was: State, before: State, now: State,
                    outs: map<nat, seq<nat>>, out: seq<nat>, done: seq<nat>, c: nat, t: nat)
    requires IsContainer(elements, rollOver) && HasValue(elements, c) && AllLater(done, Some(c))
    requires IsState(elements, was) && IsState(elements, before) && IsState(elements, now)
    requires LongEnough(elements, a) && OnChain(elements, Some(c), a.reportID, a.reportType)
    requires Turn(elements, rollOver, c, a, before, now, out)
    requires IsNullOf(elements[c], a.reportID) ==> IsLastNull(elements, a, c)
    requires Midwalk(elements, rollOver, a, was, before, outs, done, t)
    ensures Midwalk(elements, rollOver, a, was, now, if ReadsArray(elements, c, a) then outs[c := out] else outs, done + [c], t)
  {
    hide SlottedFrom, Turn, ValueMidwalk, ArrayMidwalk, Grouped, LongEnough, LeavesOthers, RestKept, IsLastNull;
    TurnLeavesOthers(elements, rollOver, c, a, before, now, out);
    MidwalkKeepsRest(elements, rollOver, a, was, before, outs, done, t);
    forall d: nat | HasValue(elements, d) && !OfArray(elements, d) ensures ValueMidwalk(elements, rollOver, a, was, now, done + [c], d) {
      ValueTurn(elements, rollOver, a, was, before, now, out, done, c, d);
    }
    forall h: nat | HandlesArray(elements, h)
      ensures ArrayMidwalk(elements, a, was, now, if ReadsArray(elements, c, a) then outs[c := out] else outs, done + [c], t, h)
    {
      ArrayTurn(elements, rollOver, a, was, before, now, outs, out, done, c, h, t);
    }
  }

  /** Every array is in force, by reports not later than `t`. */
  ghost predicate AllCurrent(elements: seq<Element>, s: State, t: nat)
    requires Slotted(elements) && |elements| <= 0x1_0000_0000 && IsState(elements, s)
  {
    forall h: nat :: HandlesArray(elements, h) ==> ArrayCurrent(elements, h, s.vals, s.lists, t)
  }

  /** What a report that is long enough does to a container. `outs` lists, for
      each array of the report, the items that are enqueued. */
  ghost predicate Processed(elements: seq<Element>, rollOver: Option<nat>, a: Arrival, was: State, now: State,
                            outs: map<nat, seq<nat>>, t: nat)
    requires IsContainer(elements, rollOver) && IsState(elements, was) && IsState(elements, now)
  {
    && (forall c: nat :: HasValue(elements, c) && !OfArray(elements, c) ==> Received(elements, rollOver, c, a, was, now))
    && (forall h: nat :: HandlesArray(elements, h) ==>
          if ArrayTakes(elements, h, a) then h in outs && ArrayReceived(elements, h, a, was, now, outs[h], t)
          else ArrayKept(elements, h, was, now))
    && (AllCurrent(elements, was, t) && t < a.timestamp.Ticks() ==> AllCurrent(elements, now, a.timestamp.Ticks()))
  }

  /** processReport of the container, on a report long enough: every element of
      the report is read, once, whatever else its chain holds, but for modifiers
      that are passed over. If all arrays were in force by reports up to `t`, and
      this one is later, they are again: each array of the report has its slots in
      its duplicates and its items switched, and the others are as they were. */
  method ProcessReport(v: ElementValues, a: Arrival, ghost t: nat) returns (changed: bool, error: bool, ghost outs: map<nat, seq<nat>>)
    requires v.Valid() && LongEnough(v.elements, a)
    modifies v`pending, v`oldSelectors, v.memory
    ensures v.Valid() && !error && Processed(v.elements, v.rollOver, a, old(StateOf(v)), StateOf(v), outs, t)
  {
    hide Tiled, Linked, Headed, Grouped, SlottedFrom, Midwalk, Turn, ArrayReceived, Received, Processed, IsState, NullsRight, IsLastNull;
    changed, error, outs := false, false, map[];
    ghost var was := StateOf(v);
    var at := Head(v.heads, Slot(a.reportID), a.reportType);
    ghost var done: seq<nat> := [];
    AllFromHead(v.elements, v.heads, a.reportID, a.reportType);
    NothingWalked(v.elements, v.rollOver, a, was, t);
    NullsFromHead(v.elements, v.heads, a);
    while at.Some?
      invariant v.Valid() && !error && OnChain(v.elements, at, a.reportID, a.reportType)
      invariant Midwalk(v.elements, v.rollOver, a, was, StateOf(v), outs, done, t)
      invariant AllLater(done, at) && NoneLeft(v.elements, a.reportID, a.reportType, done, at)
      invariant NullsRight(v.elements, a, done, at)
      decreases Upto(at)
    {
      var c := at.value;
      ghost var before := StateOf(v);
      NullsNext(v.elements, a, done, c);
      StepSkipsNothing(v.elements, c, a.reportID, a.reportType);
      StepIsNext(v.elements, c, a);
      var turned, late;
      ghost var out;
      turned, at, late, out := ProcessElement(v, c, a);
      MidwalkNext(v.elements, v.rollOver, a, was, before, StateOf(v), outs, out, done, c, t);
      WalkOn(v.elements, a.reportID, a.reportType, done, c, at);
      changed, error := changed || turned, error || late;
      outs := if ReadsArray(v.elements, c, a) then outs[c := out] else outs;
      done := done + [c];
    }
    WalkDone(v.elements, v.rollOver, a, was, StateOf(v), outs, done, t);
  }

  /** The walk meets no NULL element of the report before the last one registered,
      and ends there. */
  ghost predicate NullsRight(elements: seq<Element>, a: Arrival, done: seq<nat>, at: Option<nat>) {
    if at.Some? then forall c: nat :: IsNull(elements, a, c) ==> c !in done && c <= at.value
    else forall c: nat :: IsNull(elements, a, c) ==> (c in done <==> IsLastNull(elements, a, c))
  }

  lemma NullsFromHead(elements: seq<Element>, heads: Heads, a: Arrival)
    requires Headed(elements, heads)
    ensures NullsRight(elements, a, [], Head(heads, Slot(a.reportID), a.reportType))
  {
    var at := Head(heads, Slot(a.reportID), a.reportType);
    assert at == Before(elements, |elements|, Slot(a.reportID), a.reportType);
    forall c: nat | IsNull(elements, a, c) ensures at.Some? && c <= at.value {
      assert InChain(elements[c], Slot(a.reportID), a.reportType);
    }
  }

  /** A step of the walk ends at a NULL element of the report, and comes to the last
      one registered before any other. */
  lemma NullsNext(elements: seq<Element>, a: Arrival, done: seq<nat>, c: nat)
    requires Linked(elements) && Grouped(elements) && OnChain(elements, Some(c), a.reportID, a.reportType)
    requires NullsRight(elements, a, done, Some(c))
    ensures IsNullOf(elements[c], a.reportID) ==> IsLastNull(elements, a, c)
    ensures NullsRight(elements, a, done + [c], Step(elements, c, a.reportID))
  {
    var e, n := elements[c], Step(elements, c, a.reportID);
    assert forall d: nat :: d in done + [c] <==> d == c || d in done;
    if IsNullOf(e, a.reportID) {
      assert IsNull(elements, a, c);
    } else {
      forall d: nat | IsNull(elements, a, d) ensures n.Some? && d <= n.value {
        assert d < c && SameSlot(elements, d, a);
        if e.reportID == a.reportID && IsItem(elements, c) {
          assert Handles(elements, e.handler.value, c) && SameReport(e, elements[d]);
        } else {
          assert e.next == Before(elements, c, Slot(e.reportID), a.reportType);
        }
      }
    }
  }

  predicate SameSlot(elements: seq<Element>, d: nat, a: Arrival) {
    d < |elements| && InChain(elements[d], Slot(a.reportID), a.reportType)
  }

  lemma StepIsNext(elements: seq<Element>, c: nat, a: Arrival)
    requires LongEnough(elements, a) && OnChain(elements, Some(c), a.reportID, a.reportType)
    ensures NextOf(elements, c, a) == Step(elements, c, a.reportID)
    ensures !(!IsNullOf(elements[c], a.reportID) && elements[c].reportID == a.reportID && TooShort(elements[c], a.Bits()))
  {
    if elements[c].reportID == a.reportID {
      assert elements[c].In(a.reportID, a.reportType);
    }
  }

  /** At the end of the walk every element of the report has had its turn. */
  lemma WalkDone(elements: seq<Element>, rollOver: Option<nat>, a: Arrival, was: State, now: State,
                 outs: map<nat, seq<nat>>, done: seq<nat>, t: nat)
    requires IsContainer(elements, rollOver) && IsState(elements, was) && IsState(elements, now)
    requires Midwalk(elements, rollOver, a, was, now, outs, done, t)
    requires NoneLeft(elements, a.reportID, a.reportType, done, None) && NullsRight(elements, a, done, None)
    ensures Processed(elements, rollOver, a, was, now, outs, t)
  {
    hide SlottedFrom, Grouped, ArrayCurrent, ArrayOutcome, ReadValue, Reaches, WithStamp, PassedOver;
    forall c: nat | HasValue(elements, c) && !OfArray(elements, c) ensures Received(elements, rollOver, c, a, was, now) {
      assert ValueMidwalk(elements, rollOver, a, was, now, done, c);
    }
    forall h: nat | HandlesArray(elements, h)
      ensures ArrayTakes(elements, h, a) ==> h in done
      ensures ArrayMidwalk(elements, a, was, now, outs, done, t, h)
    {
      if ArrayTakes(elements, h, a) {
        assert Wanted(elements, a.reportID, a.reportType, h);
      }
    }
    if AllCurrent(elements, was, t) && t < a.timestamp.Ticks() {
      forall h: nat | HandlesArray(elements, h) ensures ArrayCurrent(elements, h, now.vals, now.lists, a.timestamp.Ticks()) {
        if !ArrayTakes(elements, h, a) {
          CurrentIsLocal(elements, h, was.vals, now.vals, was.lists, now.lists, t, a.timestamp.Ticks());
        }
      }
    }
  }

  /** The walk goes down: what is done lies above what is to come. */
  ghost predicate AllLater(done: seq<nat>, at: Option<nat>) {
    forall d <- done :: d >= Upto(at)
  }

  /** Every wanted element is done or to come. */
  ghost predicate NoneLeft(elements: seq<Element>, reportID: Byte, reportType: ReportType, done: seq<nat>, at: Option<nat>) {
    forall c: nat :: Wanted(elements, reportID, reportType, c) ==> c in done || c < Upto(at)
  }

  lemma AllFromHead(elements: seq<Element>, heads: Heads, reportID: Byte, reportType: ReportType)
    requires Linked(elements) && Headed(elements, heads) && Grouped(elements)
    ensures var at := Head(heads, Slot(reportID), reportType);
      OnChain(elements, at, reportID, reportType) && NoneLeft(elements, reportID, reportType, [], at)
  {
    var at := Head(heads, Slot(reportID), reportType);
    assert at == Before(elements, |elements|, Slot(reportID), reportType);
    forall c: nat | Wanted(elements, reportID, reportType, c) ensures c < Upto(at) {
      assert InChain(elements[c], Slot(reportID), reportType);
    }
  }

  lemma WalkOn(elements: seq<Element>, reportID: Byte, reportType: ReportType, done: seq<nat>, c: nat, n: Option<nat>)
    requires AllLater(done, Some(c)) && NoneLeft(elements, reportID, reportType, done, Some(c)) && (n.Some? ==> n.value < c)
    requires forall d: nat :: d < c && (n.Some? ==> d > n.value) ==> !Wanted(elements, reportID, reportType, d)
    ensures AllLater(done + [c], n) && NoneLeft(elements, reportID, reportType, done + [c], n)
  {
    assert forall d: nat :: d in done + [c] <==> d == c || d in done;
  }

  // -------------------------------------------------------- making a report

  lemma FieldBelow(x: nat, m: nat, s: nat, n: nat)
    requires s + n <= m
    ensures Field(Low(x, m), s, n) == Field(x, s, n)
  {
    InsideLow(x, m, s);
    InsideLow(Above(x, s), m - s, n);
  }

  lemma {:induction false} NumberOfZeros(bytes: seq<Byte>)
    requires forall i :: 0 <= i < |bytes| ==> bytes[i] == 0
    ensures Number(bytes, 8) == 0
  {
    if bytes != [] {
      NumberOfZeros(bytes[1..]);
      ShlSum(0, 0, 8);
    }
  }

  /** A field inside the first bytes of a buffer is one of those bytes. */
  lemma FieldOfPrefix(bytes: seq<Byte>, n: nat, s: nat, b: nat)
    requires n <= |bytes| && s + b <= 8 * n
    ensures ReportField(bytes[..n], s, b) == ReportField(bytes, s, b)
  {
    Pow2Values();
    NumberTake(bytes, 8, n);
    FieldBelow(Number(bytes, 8), 8 * n, s, b);
  }

  /** bzero */
  method Clear(report: array<Byte>, n: nat)
    requires n <= report.Length
    modifies report
    ensures forall s: nat, b: nat :: s + b <= 8 * n ==> ReportField(report[..], s, b) == 0
  {
    for i := 0 to n
      invariant forall j :: 0 <= j < i ==> report[j] == 0
    {
      report[i] := 0;
    }
    NumberOfZeros(report[..n]);
    assert report[..][..n] == report[..n];
    forall s: nat, b: nat | s + b <= 8 * n ensures ReportField(report[..], s, b) == 0 {
      FieldOfPrefix(report[..], n, s, b);
      FieldOfZero(s, b);
    }
  }

  /** The values tile the buffer. */
  ghost predicate InBuffer(elements: seq<Element>, location: Locations, words: seq<Word>) {
    Tiled(elements, location, |words|)
  }

  /** The data of a value as one number. */
  function DataNumber(value: seq<Word>): nat
    requires |value| > HEADER
  {
    Number(value[HEADER..], 32)
  }

  /** A report whose elements are ordinary fields: not array items, not handlers,
      apart from each other, inside the report; its size is kept by the element
      registered last. */
  ghost predicate Plain(elements: seq<Element>, reportID: Byte, reportType: ReportType, size: nat) {
    && size > 0
    && (forall c: nat :: c < |elements| && elements[c].In(reportID, reportType) ==>
          && IsData(elements[c].kind) && !elements[c].isArray && elements[c].startBit + elements[c].Width() <= 8 * (size / 8)
          && elements[c].reportSize == if Latest(elements, |elements|, reportID, reportType) == Some(c) then size else 0)
    && (forall c: nat, d: nat :: c < d < |elements| && elements[c].In(reportID, reportType) && elements[d].In(reportID, reportType) ==>
          Apart(elements[c].startBit, elements[c].Width(), elements[d].startBit, elements[d].Width()))
  }

  // ------------------------------------ ordinary reports, by the descriptor

  /** The fields that a descriptor gives a report are no arrays, lie inside the
      whole bytes of its size, and are apart from each other. */
  predicate PlainFields(fields: seq<Element>, size: nat) {
    && size > 0
    && (forall i :: 0 <= i < |fields| ==> !fields[i].isArray && fields[i].startBit + fields[i].Width() <= 8 * (size / 8))
    && (forall i, j :: 0 <= i < j < |fields| ==>
          Apart(fields[i].startBit, fields[i].Width(), fields[j].startBit, fields[j].Width()))
  }

  /** In the elements made of any descriptor, an output or feature report is
      ordinary exactly when the descriptor gives it such fields; and it has an
      element just when it has a field. */
  lemma PlainIffFields(d: Descriptor, made: seq<Element>, elements: seq<Element>, heads: Heads, i: nat, reportType: ReportType)
    requires ParsedWell(d) && Unlinked(made) == Made(d) && elements == SizedBy(made, d.reports)
    requires Linked(elements) && Headed(elements, heads) && Grouped(elements)
    requires i < |d.reports| && reportType != InputReport
    ensures var r := d.reports[i];
      var size, fields := BitsOf(r, reportType), ReportFields(d, r.reportID, reportType);
      && (Plain(elements, r.reportID, reportType, size) <==> PlainFields(fields, size))
      && (Latest(elements, |elements|, r.reportID, reportType).Some? <==> fields != [])
  {
    hide Linked, Headed, Grouped, Made, SizedBy, ParsedWell, Plain, PlainFields, Latest, ReportFields, Wanted;
    var r := d.reports[i];
    var fields := ReportFields(d, r.reportID, reportType);
    var v := MadeWalk(d, made, elements, heads, r.reportID, reportType);
    forall c: nat | c < |elements| && elements[c].In(r.reportID, reportType)
      ensures elements[c].reportSize == if Latest(elements, |elements|, r.reportID, reportType) == Some(c) then BitsOf(r, reportType) else 0
    {
      MadeUnsized(d, made, elements, i, reportType, c);
    }
    PlainByFields(made, elements, v, fields, r.reportID, reportType, BitsOf(r, reportType));
    LatestOfShape(made, elements, |made|, r.reportID, reportType);
    SameLength(made, elements);
    LatestIfTaken(made, v, fields, r.reportID, reportType);
  }

  lemma LatestIfTaken(made: seq<Element>, v: seq<nat>, fields: seq<Element>, reportID: Byte, reportType: ReportType)
    requires Grouped(made) && TakesInTurn(made, v, fields) && reportType != InputReport
    requires forall c: nat :: c in v <==> Wanted(made, reportID, reportType, c)
    ensures Latest(made, |made|, reportID, reportType).Some? <==> fields != []
  {
    var l := Latest(made, |made|, reportID, reportType);
    if fields == [] && l.Some? {
      NoArrays(made, v, fields, reportID, reportType, l.value);
    }
    if fields != [] {
      assert v[0] in v;
    }
  }

  /** The walk of the elements before the sizes are set. */
  lemma MadeWalk(d: Descriptor, made: seq<Element>, elements: seq<Element>, heads: Heads, reportID: Byte, reportType: ReportType)
    returns (v: seq<nat>)
    requires Unlinked(made) == Made(d) && elements == SizedBy(made, d.reports)
    requires Linked(elements) && Headed(elements, heads) && Grouped(elements)
    ensures SameShape(made, elements) && Grouped(made) && Descending(v)
    ensures TakesInTurn(made, v, ReportFields(d, reportID, reportType))
    ensures forall c: nat :: c in v <==> Wanted(made, reportID, reportType, c)
  {
    assert SameShape(elements, made);
    ShapeKeepsLinks(elements, made, heads);
    ShapeKeepsGroups(elements, made);
    WalkIsComplete(made, heads, reportID, reportType);
    WalkTakesDescriptor(d, made, heads, reportID, reportType);
    v := Walk(made, Head(heads, Slot(reportID), reportType), reportID, reportType);
  }

  /** Output and feature elements are made without a size. */
  lemma MadeUnsized(d: Descriptor, made: seq<Element>, elements: seq<Element>, i: nat, reportType: ReportType, c: nat)
    requires ParsedWell(d) && Unlinked(made) == Made(d) && elements == SizedBy(made, d.reports)
    requires i < |d.reports| && reportType != InputReport
    requires c < |elements| && elements[c].In(d.reports[i].reportID, reportType)
    ensures elements[c].reportSize
            == if Latest(elements, |elements|, d.reports[i].reportID, reportType) == Some(c) then BitsOf(d.reports[i], reportType) else 0
  {
    hide Latest, SizedBy;
    assert Shape(elements[c]) == Shape(made[c]);
    SizesAre(made, d.reports, i, c, reportType);
    LatestOfShape(made, elements, |made|, d.reports[i].reportID, reportType);
    MadeSizes(d);
    assert Unlinked(made)[c].reportSize == made[c].reportSize && Unlinked(made)[c].kind == made[c].kind;
  }

  predicate Unsized(made: seq<Element>) {
    forall c :: 0 <= c < |made| && (made[c].kind == OutputData || made[c].kind == FeatureData) ==> made[c].reportSize == 0
  }

  lemma MadeSizes(d: Descriptor)
    ensures Unsized(Made(d))
  {
    hide MadeByButtons, MadeByValues, MadeByReports, MadeByNulls, MadeByCollections;
    var first := MadeByCollections(d.collections);
    var nulls := first + MadeByNulls(d.reports, |first|);
    var inputs := nulls + MadeByButtons(InputData, d.inputButtons, |nulls|, map[]);
    var outputs := inputs + MadeByButtons(OutputData, d.outputButtons, |inputs|, map[]);
    CollectionsUnsized(d.collections);
    NullsUnsized(d.reports, |first|);
    ButtonsUnsized(InputData, d.inputButtons, |nulls|, map[]);
    ButtonsUnsized(OutputData, d.outputButtons, |inputs|, map[]);
    ButtonsUnsized(FeatureData, d.featureButtons, |outputs|, map[]);
    ValuesUnsized(InputData, d.inputValues);
    ValuesUnsized(OutputData, d.outputValues);
    ValuesUnsized(FeatureData, d.featureValues);
    ReportsUnsized(d.reports);
  }

  lemma CollectionsUnsized(collections: seq<(nat, nat)>)
    ensures Unsized(MadeByCollections(collections))
  {
  }

  lemma {:induction false} NullsUnsized(reports: seq<ReportSizes>, n: nat)
    ensures Unsized(MadeByNulls(reports, n))
  {
    if reports != [] {
      NullsUnsized(reports[..|reports| - 1], n);
    }
  }

  lemma {:induction false} ReportsUnsized(reports: seq<ReportSizes>)
    ensures Unsized(MadeByReports(reports))
  {
    if reports != [] {
      ReportsUnsized(reports[..|reports| - 1]);
    }
  }

  lemma WithSubElementsUnsized(e: Element)
    requires e.reportSize == 0
    ensures Unsized(WithSubElements(e))
  {
    var s := SubElements(e, e.StartingRangeIndex(), e.RangeCount());
    forall i | 0 <= i < |s| ensures s[i].reportSize == 0 {
      assert s[i] == SubElement(e, e.StartingRangeIndex() + i);
    }
  }

  lemma {:induction false} ValuesUnsized(kind: Kind, values: seq<Value>)
    ensures Unsized(MadeByValues(kind, values))
    decreases |values|
  {
    hide WithSubElements;
    if values != [] {
      ValuesUnsized(kind, values[..|values| - 1]);
      WithSubElementsUnsized(NewValue(kind, values[|values| - 1]));
    }
  }

  lemma ButtonUnsized(kind: Kind, b: Button, parent: nat, n: nat, arrays: Arrays)
    ensures Unsized(MadeByButton(kind, b, parent, n, arrays))
  {
    hide WithSubElements;
    var e := NewButton(kind, b);
    WithSubElementsUnsized(e);
    WithSubElementsUnsized(NewHandler(e, n));
    WithSubElementsUnsized(AsItem(e, n));
    var key := ArrayKey(parent, kind, b.startBit, b.reportID);
    if key in arrays {
      WithSubElementsUnsized(AsItem(e, arrays[key]));
    }
  }

  lemma {:induction false} ButtonsUnsized(kind: Kind, buttons: seq<Placed>, n: nat, arrays: Arrays)
    ensures Unsized(MadeByButtons(kind, buttons, n, arrays))
    decreases |buttons|
  {
    hide MadeByButton, ArraysAfter;
    if buttons != [] {
      var p := buttons[0];
      var made := MadeByButton(kind, p.button, p.parent, n, arrays);
      ButtonUnsized(kind, p.button, p.parent, n, arrays);
      ButtonsUnsized(kind, buttons[1..], n + |made|, ArraysAfter(kind, p.button, p.parent, n, arrays));
    }
  }

  lemma ItemHasHandler(made: seq<Element>, reportID: Byte, reportType: ReportType, c: nat)
    requires Grouped(made) && c < |made| && made[c].In(reportID, reportType) && reportType != InputReport
    ensures IsItem(made, c) ==>
              exists h: nat :: h < |made| && made[h].isArray && Wanted(made, reportID, reportType, h)
  {
    if IsItem(made, c) {
      assert Handles(made, made[c].handler.value, c);
    }
  }

  /** No element of the report is an array item without a handler among its fields. */
  lemma NoArrays(made: seq<Element>, v: seq<nat>, fields: seq<Element>, reportID: Byte, reportType: ReportType, c: nat)
    requires Grouped(made) && TakesInTurn(made, v, fields) && reportType != InputReport
    requires forall d: nat :: d in v <==> Wanted(made, reportID, reportType, d)
    requires c < |made| && made[c].In(reportID, reportType)
    requires forall i :: 0 <= i < |fields| ==> !fields[i].isArray
    ensures c in v
  {
    forall d: nat | d in v ensures d < |made| && !made[d].isArray {
      var j :| 0 <= j < |v| && v[j] == d;
      assert Bare(made[d]) == fields[|v| - 1 - j];
    }
    ItemHasHandler(made, reportID, reportType, c);
  }

  /** An element that the walk takes, and its field. */
  lemma FieldOf(made: seq<Element>, elements: seq<Element>, v: seq<nat>, fields: seq<Element>, c: nat) returns (i: nat)
    requires SameShape(made, elements) && TakesInTurn(made, v, fields) && c in v
    ensures i < |fields| && c < |elements| && v[|v| - 1 - i] == c
    ensures elements[c].isArray == fields[i].isArray && elements[c].startBit == fields[i].startBit
            && elements[c].Width() == fields[i].Width()
  {
    var j :| 0 <= j < |v| && v[j] == c;
    i := |v| - 1 - j;
    assert Shape(elements[c]) == Shape(made[c]) && Bare(made[c]) == fields[i];
    SameField(made[c], elements[c]);
    SameField(made[c], fields[i]);
  }

  lemma SameField(a: Element, b: Element)
    requires Shape(a) == Shape(b) || Bare(a) == Bare(b) || Bare(a) == b
    ensures a.isArray == b.isArray && a.startBit == b.startBit && a.bits == b.bits && a.count == b.count
    ensures a.Width() == b.Width()
  {
  }

  lemma PlainByFields(made: seq<Element>, elements: seq<Element>, v: seq<nat>, fields: seq<Element>,
                      reportID: Byte, reportType: ReportType, size: nat)
    requires SameShape(made, elements) && Grouped(made) && Descending(v) && TakesInTurn(made, v, fields)
    requires forall c: nat :: c in v <==> Wanted(made, reportID, reportType, c)
    requires reportType != InputReport
    requires forall c: nat :: c < |elements| && elements[c].In(reportID, reportType) ==>
               elements[c].reportSize == if Latest(elements, |elements|, reportID, reportType) == Some(c) then size else 0
    ensures Plain(elements, reportID, reportType, size) <==> PlainFields(fields, size)
  {
    hide Bare, Shape, Latest;
    forall c: nat | c < |elements|
      ensures elements[c].In(reportID, reportType) <==> made[c].In(reportID, reportType)
    {
      SameKind(made, elements, c);
    }
    if PlainFields(fields, size) {
      FieldsMakePlain(made, elements, v, fields, reportID, reportType, size);
    }
    if Plain(elements, reportID, reportType, size) {
      PlainMakesFields(made, elements, v, fields, reportID, reportType, size);
    }
  }

  lemma SameKind(made: seq<Element>, elements: seq<Element>, c: nat)
    requires SameShape(made, elements) && c < |elements|
    ensures elements[c].kind == made[c].kind && elements[c].reportID == made[c].reportID
  {
    assert Shape(elements[c]) == Shape(made[c]);
  }

  lemma FieldsMakePlain(made: seq<Element>, elements: seq<Element>, v: seq<nat>, fields: seq<Element>,
                        reportID: Byte, reportType: ReportType, size: nat)
    requires SameShape(made, elements) && Grouped(made) && Descending(v) && TakesInTurn(made, v, fields)
    requires forall c: nat :: c in v <==> Wanted(made, reportID, reportType, c)
    requires forall c: nat :: c < |elements| ==> (elements[c].In(reportID, reportType) <==> made[c].In(reportID, reportType))
    requires reportType != InputReport && PlainFields(fields, size)
    requires forall c: nat :: c < |elements| && elements[c].In(reportID, reportType) ==>
               elements[c].reportSize == if Latest(elements, |elements|, reportID, reportType) == Some(c) then size else 0
    ensures Plain(elements, reportID, reportType, size)
  {
    hide Bare, Shape, Latest, SameShape, Grouped, TakesInTurn;
    forall c: nat | c < |elements| && elements[c].In(reportID, reportType)
      ensures c in v && IsData(elements[c].kind) && !elements[c].isArray
              && elements[c].startBit + elements[c].Width() <= 8 * (size / 8)
    {
      SameLength(made, elements);
      NoArrays(made, v, fields, reportID, reportType, c);
      var i := FieldOf(made, elements, v, fields, c);
    }
    forall c: nat, d: nat | c < d < |elements| && elements[c].In(reportID, reportType) && elements[d].In(reportID, reportType)
      ensures Apart(elements[c].startBit, elements[c].Width(), elements[d].startBit, elements[d].Width())
    {
      var i := FieldOf(made, elements, v, fields, c);
      var j := FieldOf(made, elements, v, fields, d);
      TakesAll(made, v, fields);
      Places(v, i, j);
    }
  }

  lemma Places(v: seq<nat>, i: nat, j: nat)
    requires Descending(v) && i < |v| && j < |v|
    ensures i < j <==> v[|v| - 1 - i] < v[|v| - 1 - j]
  {
    if i < j {
      assert v[|v| - 1 - j] > v[|v| - 1 - i];
    } else if j < i {
      assert v[|v| - 1 - i] > v[|v| - 1 - j];
    }
  }

  lemma SameLength(made: seq<Element>, elements: seq<Element>)
    requires SameShape(made, elements)
    ensures |made| == |elements|
  {
  }

  lemma TakesAll(made: seq<Element>, v: seq<nat>, fields: seq<Element>)
    requires TakesInTurn(made, v, fields)
    ensures |v| == |fields|
  {
  }

  lemma PlainMakesFields(made: seq<Element>, elements: seq<Element>, v: seq<nat>, fields: seq<Element>,
                         reportID: Byte, reportType: ReportType, size: nat)
    requires SameShape(made, elements) && Descending(v) && TakesInTurn(made, v, fields)
    requires forall c: nat :: c in v <==> Wanted(made, reportID, reportType, c)
    requires forall c: nat :: c < |elements| ==> (elements[c].In(reportID, reportType) <==> made[c].In(reportID, reportType))
    requires Plain(elements, reportID, reportType, size)
    ensures PlainFields(fields, size)
  {
    hide Bare, Shape, Latest, SameShape, TakesInTurn;
    TakesAll(made, v, fields);
    SameLength(made, elements);
    forall i | 0 <= i < |fields|
      ensures !fields[i].isArray && fields[i].startBit + fields[i].Width() <= 8 * (size / 8)
      ensures var c := v[|v| - 1 - i];
              && c < |elements| && elements[c].In(reportID, reportType)
              && elements[c].startBit == fields[i].startBit && elements[c].Width() == fields[i].Width()
    {
      var c := v[|v| - 1 - i];
      assert c in v;
      var k := FieldOf(made, elements, v, fields, c);
      Places(v, i, k);
      Places(v, k, i);
    }
    forall i, j | 0 <= i < j < |fields|
      ensures Apart(fields[i].startBit, fields[i].Width(), fields[j].startBit, fields[j].Width())
    {
      assert v[|v| - 1 - j] > v[|v| - 1 - i];
    }
  }

  /** The field of an element has been written over. */
  ghost predicate Wrote(e: Element, value: seq<Word>, before: seq<Byte>, after: seq<Byte>)
    requires |value| > HEADER && |before| == |after|
  {
    Number(after, 8) == ReplaceField(Number(before, 8), e.startBit, e.Width(),
                                     WrittenField(ReportField(before, e.startBit, e.Width()), DataNumber(value), e.startBit, e.Width()))
  }

  ghost predicate Cleared(bytes: seq<Byte>, n: nat) {
    forall s: nat, b: nat :: s + b <= 8 * n ==> ReportField(bytes, s, b) == 0
  }

  predicate Distinguished(v: ElementValues, report: array<Byte>)
    reads v
  {
    var buffer: object := v.memory;
    buffer != report
  }

  /** createReport of one ordinary element of the report that is pending: clears
      the report first if it keeps the report size (`mid` is the report then), and
      writes its field if the report has it. */
  method CreateElement(v: ElementValues, c: nat, report: array<Byte>, length: nat) returns (newLength: nat, ghost mid: seq<Byte>)
    requires v.Valid() && HasValue(v.elements, c) && Distinguished(v, report)
    requires c in v.pending && IsData(v.elements[c].kind) && !v.elements[c].isArray
    requires v.elements[c].reportSize / 8 <= report.Length && length <= report.Length
    modifies v`pending, report
    ensures var e := v.elements[c];
      && newLength == (if e.reportSize != 0 then e.reportSize / 8 else length)
      && |mid| == report.Length && (if e.reportSize != 0 then Cleared(mid, newLength) else mid == old(report[..]))
      && (if e.startBit + e.Width() <= 8 * newLength then
            Wrote(e, Part(v.memory[..], v.location, v.elements, c), mid, report[..]) && v.pending == old(v.pending) - {c}
          else report[..] == mid && v.pending == old(v.pending))
  {
    var e := v.elements[c];
    newLength := length;
    if e.reportSize != 0 {
      newLength := e.reportSize / 8;
      Clear(report, newLength);
    }
    mid := report[..];
    if newLength * 8 < e.startBit + e.Width() {
      return;
    }
    var value := Part(v.memory[..], v.location, v.elements, c);
    WordsFit(e.Width(), e.Width());
    WriteReportBits(value[HEADER..], report, e.Width(), e.startBit);
    v.pending := v.pending - {c};
  }

  /** What the report holds when the elements of `done` have been written. */
  ghost predicate Composed(elements: seq<Element>, location: Locations, words: seq<Word>, reportID: Byte, reportType: ReportType,
                           size: nat, done: seq<nat>, bytes: seq<Byte>)
    requires InBuffer(elements, location, words)
  {
    && (forall c: nat :: c < |elements| && elements[c].In(reportID, reportType) && c in done ==>
                           Holds(elements, location, words, c, bytes))
    && (forall s: nat, b: nat :: s + b <= 8 * (size / 8) && Unclaimed(elements, reportID, reportType, done, s, b) ==>
                                   ReportField(bytes, s, b) == 0)
  }

  /** The field of `c` holds its value, as far as the writer writes it. */
  ghost predicate Holds(elements: seq<Element>, location: Locations, words: seq<Word>, c: nat, bytes: seq<Byte>)
    requires HasValue(elements, c) && Fits(elements, location, |words|, c)
  {
    var e := elements[c];
    ReportField(bytes, e.startBit, e.Width())
    == WrittenField(0, DataNumber(Part(words, location, elements, c)), e.startBit, e.Width())
  }

  /** The bits belong to no element of the report among `done`. */
  ghost predicate Unclaimed(elements: seq<Element>, reportID: Byte, reportType: ReportType, done: seq<nat>, s: nat, b: nat) {
    forall c: nat :: c < |elements| && elements[c].In(reportID, reportType) && c in done ==>
                       Apart(s, b, elements[c].startBit, elements[c].Width())
  }

  lemma ComposedNext(elements: seq<Element>, location: Locations, words: seq<Word>, reportID: Byte, reportType: ReportType,
                     size: nat, done: seq<nat>, before: seq<Byte>, after: seq<Byte>, c: nat)
    requires InBuffer(elements, location, words) && Plain(elements, reportID, reportType, size) && |before| == |after|
    requires c < |elements| && elements[c].In(reportID, reportType) && c !in done
    requires Composed(elements, location, words, reportID, reportType, size, done, before)
    requires Wrote(elements[c], Part(words, location, elements, c), before, after)
    ensures Composed(elements, location, words, reportID, reportType, size, done + [c], after)
  {
    var e, value := elements[c], Part(words, location, elements, c);
    assert forall d: nat :: d in done + [c] <==> d == c || d in done;
    forall d: nat | d < |elements| && elements[d].In(reportID, reportType) && d != c
      ensures Apart(elements[d].startBit, elements[d].Width(), e.startBit, e.Width())
      ensures Apart(e.startBit, e.Width(), elements[d].startBit, elements[d].Width())
    {
      if c < d {
        assert elements[c].In(reportID, reportType) && elements[d].In(reportID, reportType);
      }
    }
    assert Unclaimed(elements, reportID, reportType, done, e.startBit, e.Width());
    forall d: nat | d < |elements| && elements[d].In(reportID, reportType) && d in done + [c]
      ensures Holds(elements, location, words, d, after)
    {
      if d == c {
        WriteFrame(Number(before, 8), DataNumber(value), e.startBit, e.Width(), e.startBit + e.Width(), 0);
      } else {
        assert Holds(elements, location, words, d, before);
        WriteFrame(Number(before, 8), DataNumber(value), e.startBit, e.Width(), elements[d].startBit, elements[d].Width());
      }
    }
    forall s: nat, b: nat | s + b <= 8 * (size / 8) && Unclaimed(elements, reportID, reportType, done + [c], s, b)
      ensures ReportField(after, s, b) == 0
    {
      assert c in done + [c];
      assert Unclaimed(elements, reportID, reportType, done, s, b);
      WriteFrame(Number(before, 8), DataNumber(value), e.startBit, e.Width(), s, b);
    }
  }

  /** Nothing of the report has been visited before its last element. */
  lemma ComposedStart(elements: seq<Element>, location: Locations, words: seq<Word>, reportID: Byte, reportType: ReportType,
                      size: nat, done: seq<nat>, bytes: seq<Byte>)
    requires InBuffer(elements, location, words) && Cleared(bytes, size / 8)
    requires forall d <- done :: d < |elements| ==> !elements[d].In(reportID, reportType)
    ensures Composed(elements, location, words, reportID, reportType, size, done, bytes)
  {
  }

  /** How far the making of a report has come: nothing before its last element,
      everything written since. */
  ghost predicate Underway(elements: seq<Element>, location: Locations, words: seq<Word>, reportID: Byte, reportType: ReportType,
                           size: nat, done: seq<nat>, bytes: seq<Byte>, length: nat, bufferLength: nat)
    requires InBuffer(elements, location, words)
  {
    match Latest(elements, |elements|, reportID, reportType)
    case None => length == bufferLength
    case Some(l) =>
      if l in done then length == size / 8 && Composed(elements, location, words, reportID, reportType, size, done, bytes)
      else length == bufferLength && NotBegun(elements, reportID, reportType, done)
  }

  ghost predicate NotBegun(elements: seq<Element>, reportID: Byte, reportType: ReportType, done: seq<nat>) {
    forall d <- done :: d < |elements| ==> !elements[d].In(reportID, reportType)
  }

  lemma UnderwayNext(elements: seq<Element>, location: Locations, words: seq<Word>, reportID: Byte, reportType: ReportType, size: nat,
                     done: seq<nat>, before: seq<Byte>, mid: seq<Byte>, after: seq<Byte>, length: nat, bufferLength: nat, c: nat)
    requires InBuffer(elements, location, words) && Plain(elements, reportID, reportType, size)
    requires c < |elements| && elements[c].In(reportID, reportType) && AllLater(done, Some(c))
    requires NoneLeft(elements, reportID, reportType, done, Some(c))
    requires Underway(elements, location, words, reportID, reportType, size, done, before, length, bufferLength)
    requires |mid| == |after|
    requires if elements[c].reportSize != 0 then Cleared(mid, elements[c].reportSize / 8) else mid == before
    requires Wrote(elements[c], Part(words, location, elements, c), mid, after)
    ensures var newLength := if elements[c].reportSize != 0 then elements[c].reportSize / 8 else length;
      && newLength == size / 8
      && Underway(elements, location, words, reportID, reportType, size, done + [c], after, newLength, bufferLength)
  {
    var l := Latest(elements, |elements|, reportID, reportType).value;
    assert Wanted(elements, reportID, reportType, l);
    if l !in done {
      assert l == c;
      ComposedStart(elements, location, words, reportID, reportType, size, done, mid);
    } else {
      assert l > c;
    }
    ComposedNext(elements, location, words, reportID, reportType, size, done, mid, after, c);
    assert forall d: nat :: d in done + [c] <==> d == c || d in done;
  }

  /** The element that keeps the report size is the first to be written. */
  lemma UnderwayLength(elements: seq<Element>, location: Locations, words: seq<Word>, reportID: Byte, reportType: ReportType, size: nat,
                       done: seq<nat>, bytes: seq<Byte>, length: nat, bufferLength: nat, c: nat)
    requires InBuffer(elements, location, words) && Plain(elements, reportID, reportType, size)
    requires c < |elements| && elements[c].In(reportID, reportType) && NoneLeft(elements, reportID, reportType, done, Some(c))
    requires Underway(elements, location, words, reportID, reportType, size, done, bytes, length, bufferLength)
    ensures elements[c].reportSize == size || (elements[c].reportSize == 0 && length == size / 8)
    ensures elements[c].startBit + elements[c].Width() <= 8 * (size / 8)
  {
    var l := Latest(elements, |elements|, reportID, reportType).value;
    assert Wanted(elements, reportID, reportType, l);
  }

  lemma UnderwayPast(elements: seq<Element>, location: Locations, words: seq<Word>, reportID: Byte, reportType: ReportType, size: nat,
                     done: seq<nat>, bytes: seq<Byte>, length: nat, bufferLength: nat, c: nat)
    requires InBuffer(elements, location, words)
    requires c < |elements| && !elements[c].In(reportID, reportType)
    requires Underway(elements, location, words, reportID, reportType, size, done, bytes, length, bufferLength)
    ensures Underway(elements, location, words, reportID, reportType, size, done + [c], bytes, length, bufferLength)
  {
    assert forall d: nat :: d in done + [c] <==> d == c || d in done;
    if Latest(elements, |elements|, reportID, reportType).Some? && Latest(elements, |elements|, reportID, reportType).value in done {
      forall s: nat, b: nat | Unclaimed(elements, reportID, reportType, done + [c], s, b)
        ensures Unclaimed(elements, reportID, reportType, done, s, b)
      {
      }
    }
  }

  /** createReport of the container, for a report of ordinary elements that are
      all pending: every field of the report holds its element's value, every
      other bit is zero, and the elements are idle. */
  method CreateReport(v: ElementValues, reportID: Byte, reportType: ReportType, report: array<Byte>, bufferLength: nat, ghost size: nat)
    returns (length: nat)
    requires v.Valid() && Distinguished(v, report) && Plain(v.elements, reportID, reportType, size)
    requires size / 8 <= report.Length && bufferLength <= report.Length
    requires forall c: nat :: c < |v.elements| && v.elements[c].In(reportID, reportType) ==> c in v.pending
    modifies v`pending, report
    ensures Latest(v.elements, |v.elements|, reportID, reportType).Some? ==>
              && length == size / 8
              && (forall c: nat :: c < |v.elements| && v.elements[c].In(reportID, reportType) ==>
                                     Holds(v.elements, v.location, v.memory[..], c, report[..]))
              && (forall s: nat, b: nat :: s + b <= 8 * length && Free(v.elements, reportID, reportType, s, b) ==>
                                             ReportField(report[..], s, b) == 0)
    ensures forall c: nat :: c in v.pending <==> c in old(v.pending) && !(c < |v.elements| && v.elements[c].In(reportID, reportType))
  {
    hide Tiled, Linked, Headed, Grouped, Composed, Wrote, Cleared, NoneLeft;
    length := bufferLength;
    ghost var words, done: seq<nat> := v.memory[..], [];
    var at := Head(v.heads, Slot(reportID), reportType);
    AllFromHead(v.elements, v.heads, reportID, reportType);
    while at.Some?
      invariant OnChain(v.elements, at, reportID, reportType) && length <= report.Length
      invariant AllLater(done, at) && NoneLeft(v.elements, reportID, reportType, done, at)
      invariant Underway(v.elements, v.location, words, reportID, reportType, size, done, report[..], length, bufferLength)
      invariant forall c: nat :: c in v.pending <==>
                  c in old(v.pending) && !(c in done && c < |v.elements| && v.elements[c].In(reportID, reportType))
      decreases Upto(at)
    {
      var c := at.value;
      var e := v.elements[c];
      PlainStep(v.elements, c, reportID, reportType, size);
      if e.reportID == reportID {
        ghost var before, mid := report[..], report[..];
        ghost var was := length;
        UnderwayLength(v.elements, v.location, words, reportID, reportType, size, done, before, length, bufferLength, c);
        length, mid := CreateElement(v, c, report, length);
        UnderwayNext(v.elements, v.location, words, reportID, reportType, size, done, before, mid, report[..], was, bufferLength, c);
      } else {
        UnderwayPast(v.elements, v.location, words, reportID, reportType, size, done, report[..], length, bufferLength, c);
      }
      WalkOn(v.elements, reportID, reportType, done, c, e.next);
      done := done + [c];
      at := e.next;
    }
    ReportDone(v.elements, v.location, words, reportID, reportType, size, done, report[..], length, bufferLength);
  }

  /** The bits belong to no element of the report. */
  ghost predicate Free(elements: seq<Element>, reportID: Byte, reportType: ReportType, s: nat, b: nat) {
    forall c: nat :: c < |elements| && elements[c].In(reportID, reportType) ==>
                       Apart(s, b, elements[c].startBit, elements[c].Width())
  }

  /** In a report of ordinary elements the chain is followed link by link. */
  lemma PlainStep(elements: seq<Element>, c: nat, reportID: Byte, reportType: ReportType, size: nat)
    requires Linked(elements) && Grouped(elements) && OnChain(elements, Some(c), reportID, reportType)
    requires Plain(elements, reportID, reportType, size)
    ensures var n := elements[c].next;
      && OnChain(elements, n, reportID, reportType) && (n.Some? ==> n.value < c)
      && forall d: nat :: d < c && (n.Some? ==> d > n.value) ==> !Wanted(elements, reportID, reportType, d)
    ensures elements[c].reportID == reportID ==> elements[c].In(reportID, reportType)
    ensures elements[c].In(reportID, reportType) ==>
              elements[c].startBit + elements[c].Width() <= 8 * (size / 8)
              && (elements[c].reportSize == size || elements[c].reportSize == 0)
  {
    StepSkipsNothing(elements, c, reportID, reportType);
    if elements[c].reportID == reportID {
      assert elements[c].In(reportID, reportType);
    }
  }

  lemma ReportDone(elements: seq<Element>, location: Locations, words: seq<Word>, reportID: Byte, reportType: ReportType, size: nat,
                   done: seq<nat>, bytes: seq<Byte>, length: nat, bufferLength: nat)
    requires InBuffer(elements, location, words) && Plain(elements, reportID, reportType, size)
    requires NoneLeft(elements, reportID, reportType, done, None)
    requires Underway(elements, location, words, reportID, reportType, size, done, bytes, length, bufferLength)
    ensures forall c: nat :: c < |elements| && elements[c].In(reportID, reportType) ==> c in done
    ensures Latest(elements, |elements|, reportID, reportType).Some? ==>
              && length == size / 8
              && (forall c: nat :: c < |elements| && elements[c].In(reportID, reportType) ==> Holds(elements, location, words, c, bytes))
              && (forall s: nat, b: nat :: s + b <= 8 * length && Free(elements, reportID, reportType, s, b) ==>
                                             ReportField(bytes, s, b) == 0)
  {
    forall c: nat | c < |elements| && elements[c].In(reportID, reportType) ensures c in done {
      assert Wanted(elements, reportID, reportType, c);
    }
    forall s: nat, b: nat | Free(elements, reportID, reportType, s, b) ensures Unclaimed(elements, reportID, reportType, done, s, b) {
    }
  }

  // -------------------------------------------------------- the round trip

  /** The data is a value that fits the width of the element, in the form in
      which reading stores it: sign-extended to a word, or with no bit beyond. */
  predicate Canonical(e: Element, data: seq<Word>)
    requires |data| == DataWords(e)
  {
    if e.IsSigned() && 0 < e.Width() < 32 then
      Parts(data[0], e.Width());
      data[0] == SignExtended(Low(data[0], e.Width()), e.Width())
    else Number(data, 32) < Pow2(e.Width())
  }

  /** For a signed element: the two's complement value is in range. */
  lemma CanonicalSignedIff(x: Word, n: nat)
    requires 0 < n < 32
    ensures Low(x, n) < Pow2(n)
    ensures x == SignExtended(Low(x, n), n) <==> AsSigned(x) + Pow2(n - 1) >= 0 && AsSigned(x) < Pow2(n - 1)
  {
    Parts(x, n);
    Pow2Values();
    Pow2Monotone(n, 31);
    Pow2Monotone(n - 1, 31);
    assert Pow2(32) == 2 * Pow2(31);
    if AsSigned(x) >= 0 {
      if x < Pow2(n - 1) {
        LowOfSmall(x, n);
      }
    } else if x >= Pow2(32) - Pow2(n - 1) {
      HighOnes(x, n);
    }
  }

  /** A word at most 2^(n-1) below 2^32 has ones from bit n upwards. */
  lemma HighOnes(x: Word, n: nat)
    requires 0 < n < 32 && x >= Pow2(32) - Pow2(n - 1)
    ensures Low(x, n) == x - (Pow2(32) - Pow2(n))
  {
    var ones := Pow2(32 - n) - 1;
    ShlSum(Pow2(32 - n), 1, n);
    ShlPow2(n);
    ShlPow2(32 - n);
    ShlShl(1, 32 - n, n);
    ShlPow2(32);
    Pow2Values();
    Unique(x, n, x - (Pow2(32) - Pow2(n)), ones);
  }

  lemma WordsOfWidth(e: Element)
    ensures 32 * (DataWords(e) - 1) <= e.Width() && (e.Width() > 0 ==> WordCount(e.Width()) == DataWords(e))
  {
  }

  /** The memory copy leaves the bits beyond the field alone, and an element of no
      width has no other bits; they are zero. */
  predicate UnusedZero(e: Element, data: seq<Word>)
    requires |data| == DataWords(e)
  {
    WordsOfWidth(e);
    e.Width() == 0 || CopiedByBytes(e.startBit, e.Width(), e.IsSigned()) ==>
      Above(data[|data| - 1], e.Width() - 32 * (|data| - 1)) == 0
  }

  /** Reading back the field of a canonical value restores it. */
  lemma DataRestored(e: Element, data: seq<Word>, old_: seq<Word>)
    requires e.Width() > 0 && |data| == |old_| == DataWords(e) && Canonical(e, data) && UnusedZero(e, old_)
    ensures |old_| == WordCount(e.Width())
    ensures StoredWords(old_, Low(Number(data, 32), e.Width()), e.Width(),
                        CopiedByBytes(e.startBit, e.Width(), e.IsSigned()), e.IsSigned()) == data
  {
    var n := e.Width();
    var f, copied := Low(Number(data, 32), n), CopiedByBytes(e.startBit, n, e.IsSigned());
    WordsOfWidth(e);
    Parts(Number(data, 32), n);
    if e.IsSigned() && n < 32 {
      OneWord(data);
      LowOfSmall(f, n);
      assert Field(f, 0, n) == f;
      assert StoredWords(old_, f, n, copied, true) == data;
    } else {
      UnsignedRestored(data, old_, n);
      var plain := StoredWords(old_, f, n, false, false);
      if copied {
        CopyAgreesWithLoop(old_, f, n);
      } else {
        assert StoredWords(old_, f, n, copied, e.IsSigned()) == plain;
      }
    }
  }

  lemma OneWord(data: seq<Word>)
    requires |data| == 1
    ensures Number(data, 32) == data[0]
  {
    assert data[1..] == [];
    ShlSum(0, 0, 32);
  }

  lemma UnsignedRestored(data: seq<Word>, old_: seq<Word>, n: nat)
    requires |data| == |old_| == WordCount(n) && Number(data, 32) < Pow2(n)
    ensures StoredWords(old_, Low(Number(data, 32), n), n, false, false) == data
  {
    var f := Low(Number(data, 32), n);
    LowOfSmall(Number(data, 32), n);
    StoredNumber(old_, f, n);
    StoredWordsAreDigits(old_, f, n, false, false);
    Pow2Values();
    NumberInjective(StoredWords(old_, f, n, false, false), data, 32);
  }

  /** An element without width holds zero, whether it is read or not. */
  lemma WidthlessIsZero(e: Element, data: seq<Word>)
    requires e.Width() == 0 && |data| == DataWords(e)
    ensures Canonical(e, data) <==> data == [0]
    ensures UnusedZero(e, data) <==> data == [0]
  {
    OneWord(data);
    Parts(data[0], 0);
  }

  /** A value that was written into a report is read back from it. */
  lemma ValueRestored(e: Element, value: seq<Word>, other: seq<Word>, report: seq<Byte>, timestamp: Time)
    requires !MisWritten(e.startBit, e.Width()) && |value| == |other| == ValueWords(e)
    requires e.startBit + e.Width() <= 8 * |report| && Reaches(e, 8 * |report|)
    requires Canonical(e, value[HEADER..]) && UnusedZero(e, other[HEADER..])
    requires ReportField(report, e.startBit, e.Width()) == WrittenField(0, DataNumber(value), e.startBit, e.Width())
    ensures ReadValue(e, other, report, timestamp)[HEADER..] == value[HEADER..]
  {
    if e.Width() == 0 {
      WidthlessIsZero(e, value[HEADER..]);
      WidthlessIsZero(e, other[HEADER..]);
    } else {
      WriteExactIffShape(e.startBit, e.Width());
      var f := Low(DataNumber(value), e.Width());
      assert WrittenField(0, DataNumber(value), e.startBit, e.Width()) == f;
      WordsOfWidth(e);
      DataRestored(e, value[HEADER..], other[HEADER..]);
      assert other[HEADER..][..DataWords(e)] == other[HEADER..] && other[HEADER..][DataWords(e)..] == [];
    }
  }

  /** The values of a whole report are in form for a round trip. */
  ghost predicate Sendable(elements: seq<Element>, location: Locations, words: seq<Word>, reportID: Byte, reportType: ReportType)
    requires InBuffer(elements, location, words)
  {
    forall c: nat :: c < |elements| && elements[c].In(reportID, reportType) ==>
                       && !MisWritten(elements[c].startBit, elements[c].Width())
                       && Canonical(elements[c], Part(words, location, elements, c)[HEADER..])
  }

  ghost predicate Receptive(elements: seq<Element>, location: Locations, words: seq<Word>, reportID: Byte, reportType: ReportType)
    requires InBuffer(elements, location, words)
  {
    forall c: nat :: c < |elements| && elements[c].In(reportID, reportType) ==>
                       UnusedZero(elements[c], Part(words, location, elements, c)[HEADER..])
  }

  /** createReport drops the bits of a last, incomplete byte, and processReport
      then finds the report too short: it is taken exactly when the report size is
      a number of whole bytes. */
  lemma TakenIffWholeBytes(elements: seq<Element>, a: Arrival, size: nat)
    requires Plain(elements, a.reportID, a.reportType, size) && |a.report| == size / 8
    requires Latest(elements, |elements|, a.reportID, a.reportType).Some?
    requires forall c: nat :: c < |elements| && elements[c].In(a.reportID, a.reportType) ==>
                                !elements[c].variable && !elements[c].variableReport
    ensures LongEnough(elements, a) <==> size % 8 == 0
  {
    var l := Latest(elements, |elements|, a.reportID, a.reportType).value;
    assert elements[l].In(a.reportID, a.reportType) && elements[l].reportSize == size;
    if size % 8 != 0 {
      assert TooShort(elements[l], a.Bits());
    }
  }

  /** createReport and then processReport of the report: the receiver, with the
      same elements, or the sender itself, holds the value that the sender had of
      every element of the report, but for a keyboard modifier that is passed over,
      and its other values are as they were. */
  method RoundTrip(sender: ElementValues, receiver: ElementValues, reportID: Byte, reportType: ReportType,
                   buffer: array<Byte>, timestamp: Time, ghost size: nat)
    requires sender.Valid() && receiver.Valid() && sender.elements == receiver.elements
    requires (sender == receiver <==> sender.memory == receiver.memory) && Distinguished(sender, buffer) && Distinguished(receiver, buffer)
    requires Plain(sender.elements, reportID, reportType, size) && size % 8 == 0 && size / 8 <= buffer.Length
    requires Latest(sender.elements, |sender.elements|, reportID, reportType).Some?
    requires forall c: nat :: c < |sender.elements| && sender.elements[c].In(reportID, reportType) ==>
               c in sender.pending && !sender.elements[c].interrupt
    requires Sendable(sender.elements, sender.location, sender.memory[..], reportID, reportType)
    requires Receptive(receiver.elements, receiver.location, receiver.memory[..], reportID, reportType)
    modifies sender`pending, receiver`pending, receiver`oldSelectors, receiver.memory, buffer
    ensures receiver.Valid()
    ensures forall c: nat :: c < |sender.elements| && sender.elements[c].In(reportID, reportType) ==>
              HasValue(sender.elements, c)
              && Values(receiver)[c][HEADER..]
                 == if PassedOver(sender.elements, receiver.rollOver, c, timestamp, old(Values(receiver)), Values(receiver))
                    then old(Values(receiver)[c])[HEADER..] else old(Values(sender)[c])[HEADER..]
    ensures forall c: nat :: HasValue(sender.elements, c) && !sender.elements[c].In(reportID, reportType) ==>
              Values(receiver)[c][HEADER..] == old(Values(receiver)[c])[HEADER..]
  {
    hide Linked, Headed, Grouped, SlottedFrom, Tiled, Holds, Sent, Received, ArrayReceived, PassedOver, Canonical, Free, UnusedZero;
    ghost var was, sent, elements := Values(receiver), Values(sender), sender.elements;
    var length := CreateReport(sender, reportID, reportType, buffer, buffer.Length, size);
    ghost var made := buffer[..];
    ghost var before := StateOf(receiver);
    assert before.vals == was && Values(sender) == sent;
    AllSent(elements, sender.location, sender.memory[..], receiver.location, receiver.memory[..], reportID, reportType, made);
    var a := Arrival(reportID, reportType, buffer[..length], timestamp, false);
    assert LongEnough(receiver.elements, a);
    var changed, error;
    ghost var outs;
    changed, error, outs := ProcessReport(receiver, a, 0);
    AllArrive(elements, receiver.rollOver, a, size, made, sent, before, StateOf(receiver), outs);
  }

  /** The value of an element of the report, as it was sent and as it is met. */
  ghost predicate Sent(elements: seq<Element>, c: nat, value: seq<Word>, was: seq<Word>, made: seq<Byte>)
    requires HasValue(elements, c) && |value| == |was| == ValueWords(elements[c])
  {
    var e := elements[c];
    && !MisWritten(e.startBit, e.Width()) && Canonical(e, value[HEADER..]) && UnusedZero(e, was[HEADER..])
    && ReportField(made, e.startBit, e.Width()) == WrittenField(0, DataNumber(value), e.startBit, e.Width())
  }

  lemma AllSent(elements: seq<Element>, here: Locations, words: seq<Word>, there: Locations, others: seq<Word>,
                reportID: Byte, reportType: ReportType, made: seq<Byte>)
    requires InBuffer(elements, here, words) && InBuffer(elements, there, others)
    requires Sendable(elements, here, words, reportID, reportType) && Receptive(elements, there, others, reportID, reportType)
    requires forall c: nat :: c < |elements| && elements[c].In(reportID, reportType) ==> Holds(elements, here, words, c, made)
    ensures forall c: nat :: c < |elements| && elements[c].In(reportID, reportType) ==>
              Sent(elements, c, ValuesIn(elements, here, words)[c], ValuesIn(elements, there, others)[c], made)
  {
    forall c: nat | c < |elements| && elements[c].In(reportID, reportType)
      ensures Sent(elements, c, ValuesIn(elements, here, words)[c], ValuesIn(elements, there, others)[c], made)
    {
      assert ValuesIn(elements, here, words)[c] == Part(words, here, elements, c);
      assert ValuesIn(elements, there, others)[c] == Part(others, there, elements, c);
      assert Holds(elements, here, words, c, made);
    }
  }

  lemma AllArrive(elements: seq<Element>, rollOver: Option<nat>, a: Arrival, size: nat, made: seq<Byte>,
                  sent: seq<seq<Word>>, was: State, now: State, outs: map<nat, seq<nat>>)
    requires IsContainer(elements, rollOver) && Shaped(elements, sent) && IsState(elements, was) && IsState(elements, now)
    requires Plain(elements, a.reportID, a.reportType, size) && size / 8 <= |made| && a.report == made[..size / 8] && !a.notInterrupt
    requires forall c: nat :: c < |elements| && elements[c].In(a.reportID, a.reportType) ==> Sent(elements, c, sent[c], was.vals[c], made)
    requires Processed(elements, rollOver, a, was, now, outs, 0)
    ensures forall c: nat :: HasValue(elements, c) ==>
              now.vals[c][HEADER..]
              == if !elements[c].In(a.reportID, a.reportType) || PassedOver(elements, rollOver, c, a.timestamp, was.vals, now.vals)
                 then was.vals[c][HEADER..] else sent[c][HEADER..]
  {
    hide SlottedFrom, Grouped, Sent, Received, PassedOver;
    forall c: nat | HasValue(elements, c)
      ensures now.vals[c][HEADER..]
              == if !elements[c].In(a.reportID, a.reportType) || PassedOver(elements, rollOver, c, a.timestamp, was.vals, now.vals)
                 then was.vals[c][HEADER..] else sent[c][HEADER..]
    {
      if OfArray(elements, c) {
        ArrayOf(elements, c);
        assert !ArrayTakes(elements, elements[c].handler.value, a);
        assert !elements[c].In(a.reportID, a.reportType);
      } else {
        Arrives(elements, rollOver, c, a, size, made, sent[c], was, now);
      }
    }
  }

  lemma Arrives(elements: seq<Element>, rollOver: Option<nat>, c: nat, a: Arrival, size: nat, made: seq<Byte>,
                value: seq<Word>, was: State, now: State)
    requires IsContainer(elements, rollOver) && HasValue(elements, c) && IsState(elements, was) && IsState(elements, now)
    requires |value| == ValueWords(elements[c])
    requires Plain(elements, a.reportID, a.reportType, size) && size / 8 <= |made| && a.report == made[..size / 8] && !a.notInterrupt
    requires Received(elements, rollOver, c, a, was, now)
    requires elements[c].In(a.reportID, a.reportType) ==> Sent(elements, c, value, was.vals[c], made)
    ensures now.vals[c][HEADER..]
            == if !elements[c].In(a.reportID, a.reportType) || PassedOver(elements, rollOver, c, a.timestamp, was.vals, now.vals)
               then was.vals[c][HEADER..] else value[HEADER..]
  {
    hide ReadValue, PassedOver, SlottedFrom, Grouped;
    var e := elements[c];
    if e.In(a.reportID, a.reportType) {
      FieldOfPrefix(made, size / 8, e.startBit, e.Width());
      assert Wanted(elements, a.reportID, a.reportType, c);
      if Takes(e, a) {
        ValueRestored(e, value, was.vals[c], a.report, a.timestamp);
      } else {
        assert e.Width() == 0;
        WidthlessIsZero(e, value[HEADER..]);
        WidthlessIsZero(e, was.vals[c][HEADER..]);
      }
    }
  }
}
