/**
 IOHIDElementContainer: registration of elements into the report-handler
 chains, construction of button, value, array and handler elements, and the
 layout of the element values in one buffer.

 An element is known by its cookie, its index in the container; a pointer to an
 element is its cookie.
 */
module ElementContainer {
  import opened Numbers
  import opened Options

  datatype ReportType = InputReport | OutputReport | FeatureReport

  datatype Kind = InputData | InputNull | OutputData | FeatureData | Collection

  /** getReportType */
  function TypeOf(kind: Kind): Option<ReportType> {
    match kind
    case InputData => Some(InputReport)
    case InputNull => Some(InputReport)
    case OutputData => Some(OutputReport)
    case FeatureData => Some(FeatureReport)
    case Collection => None
  }

  const KEYBOARD_PAGE: nat := 7
  const ERROR_ROLL_OVER: nat := 1
  const LEFT_CONTROL: nat := 0xE0
  const RIGHT_GUI: nat := 0xE7
  const SLOTS: nat := 8

  /** `handler` is the array report handler, `next` the next element of the chain. */
  datatype Element = Element(
    kind: Kind, reportID: Byte, usagePage: nat, usage: nat, usageMin: nat, usageMax: nat,
    isArray: bool, isRelative: bool, variable: bool, variableReport: bool, interrupt: bool,
    startBit: nat, bits: nat, count: nat, reportSize: nat, logicalMin: int, logicalMax: int,
    handler: Option<nat>, next: Option<nat>)
  {
    /** Bits of the element's field. */
    function Width(): nat { bits * count }

    predicate In(reportID: Byte, reportType: ReportType) {
      this.reportID == reportID && TypeOf(kind) == Some(reportType)
    }

    predicate IsSigned() { logicalMin < 0 || logicalMax < 0 }

    /** getRangeCount, in 32 bits. */
    function RangeCount(): nat {
      if count > 1 then count else (usageMax - usageMin + 1) % 0x1_0000_0000
    }

    /** getStartingRangeIndex */
    function StartingRangeIndex(): nat {
      if count > 1 then 0 else 1
    }

    predicate IsModifier() {
      usagePage == KEYBOARD_PAGE && LEFT_CONTROL <= usage <= RIGHT_GUI
    }
  }

  function Slot(reportID: nat): nat {
    reportID % SLOTS
  }

  // ----------------------------------------------------------------- chains

  /** The element takes part in the chain of a slot and a report type. */
  predicate InChain(e: Element, slot: nat, reportType: ReportType) {
    TypeOf(e.kind) == Some(reportType) && Slot(e.reportID) == slot
  }

  /** The last element of a chain among the first `c`. */
  function Before(elements: seq<Element>, c: nat, slot: nat, reportType: ReportType): (p: Option<nat>)
    requires c <= |elements|
    ensures p.Some? ==> p.value < c && InChain(elements[p.value], slot, reportType)
    ensures forall d: nat :: d < c && (p.Some? ==> d > p.value) ==> !InChain(elements[d], slot, reportType)
  {
    if c == 0 then None
    else if InChain(elements[c - 1], slot, reportType) then Some(c - 1)
    else Before(elements, c - 1, slot, reportType)
  }

  lemma {:induction false} BeforeOfPrefix(elements: seq<Element>, e: Element, c: nat, slot: nat, reportType: ReportType)
    requires c <= |elements|
    ensures Before(elements + [e], c, slot, reportType) == Before(elements, c, slot, reportType)
  {
    if c > 0 {
      BeforeOfPrefix(elements, e, c - 1, slot, reportType);
    }
  }

  /** Every element leads to the element registered before it in its chain. */
  ghost predicate Linked(elements: seq<Element>) {
    forall c: nat, t :: c < |elements| && TypeOf(elements[c].kind) == Some(t) ==>
                          elements[c].next == Before(elements, c, Slot(elements[c].reportID), t)
  }

  type Heads = map<(nat, ReportType), nat>

  function Head(heads: Heads, slot: nat, reportType: ReportType): Option<nat> {
    if (slot, reportType) in heads then Some(heads[(slot, reportType)]) else None
  }

  /** Every chain starts at the element registered last. */
  ghost predicate Headed(elements: seq<Element>, heads: Heads) {
    forall slot, t :: Head(heads, slot, t) == Before(elements, |elements|, slot, t)
  }

  // ----------------------------------------------------------------- groups

  predicate IsData(kind: Kind) {
    kind == InputData || kind == OutputData || kind == FeatureData
  }

  /** An array element that is not the report handler of its array. Collections
      and NULL elements have no flags, which reads as array, but the walks stop
      at them before they ask. */
  predicate IsItem(elements: seq<Element>, c: nat)
    requires c < |elements|
  {
    IsData(elements[c].kind) && elements[c].isArray && elements[c].handler != Some(c)
  }

  /** Same report ID and report type. */
  predicate SameReport(e: Element, f: Element) {
    e.reportID == f.reportID && TypeOf(e.kind) == TypeOf(f.kind)
  }

  /** `h` handles the array that `c` belongs to. */
  predicate Handles(elements: seq<Element>, h: nat, c: nat)
    requires c < |elements|
  {
    && h < c && elements[h].isArray && elements[h].handler == Some(h) && elements[c].handler == Some(h)
    && SameReport(elements[h], elements[c]) && IsData(elements[h].kind) && IsData(elements[c].kind)
  }

  /** Of the report of `h`, only items of `h` have been registered after it. */
  ghost predicate Open(elements: seq<Element>, h: nat)
    requires h < |elements|
  {
    forall d: nat :: h < d < |elements| && SameReport(elements[h], elements[d]) ==>
                       IsItem(elements, d) && elements[d].handler == Some(h)
  }

  /** The items of an array follow its handler without other elements of the
      report between them, nothing of a report precedes its NULL element, and a
      report handler is no array. */
  ghost predicate Grouped(elements: seq<Element>) {
    && (forall c: nat :: c < |elements| && elements[c].interrupt ==> !elements[c].isArray)
    && (forall c: nat :: c < |elements| && IsItem(elements, c) ==>
                           elements[c].handler.Some? && Handles(elements, elements[c].handler.value, c))
    && (forall c: nat, d: nat :: c < |elements| && d < c && IsItem(elements, c) && elements[c].handler.Some?
                                 && elements[c].handler.value < d && SameReport(elements[c], elements[d]) ==>
                                   IsItem(elements, d))
    && (forall c: nat, d: nat :: c < |elements| && d < c && elements[c].kind == InputNull && SameReport(elements[c], elements[d]) ==>
                                   elements[d].kind == InputNull)
  }

  /** registerElement on the element list and the chain heads. */
  function Registered(elements: seq<Element>, heads: Heads, e: Element): (seq<Element>, Heads)
  {
    match TypeOf(e.kind)
    case None => (elements + [e], heads)
    case Some(t) =>
      var slot := Slot(e.reportID);
      (elements + [e.(next := if (slot, t) in heads then Some(heads[(slot, t)]) else e.next)],
       heads[(slot, t) := |elements|])
  }

  lemma RegisterKeepsLinks(elements: seq<Element>, heads: Heads, e: Element)
    requires Linked(elements) && Headed(elements, heads) && e.next == None
    ensures Linked(Registered(elements, heads, e).0)
  {
    var all := Registered(elements, heads, e).0;
    var f := all[|elements|];
    assert all == elements + [f];
    forall c: nat, t | c < |all| && TypeOf(all[c].kind) == Some(t)
      ensures all[c].next == Before(all, c, Slot(all[c].reportID), t)
    {
      BeforeOfPrefix(elements, f, c, Slot(all[c].reportID), t);
      if c == |elements| {
        assert Head(heads, Slot(e.reportID), t) == Before(elements, c, Slot(e.reportID), t);
      }
    }
  }

  lemma RegisterKeepsHeads(elements: seq<Element>, heads: Heads, e: Element)
    requires Headed(elements, heads)
    ensures var r := Registered(elements, heads, e); Headed(r.0, r.1)
  {
    var r := Registered(elements, heads, e);
    var f := r.0[|elements|];
    assert r.0 == elements + [f];
    forall slot, t ensures Head(r.1, slot, t) == Before(r.0, |r.0|, slot, t) {
      BeforeOfPrefix(elements, f, |elements|, slot, t);
      assert Head(heads, slot, t) == Before(elements, |elements|, slot, t);
    }
  }

  /** What may be registered next: an item of an open array, or anything else;
      a NULL element only before the input elements of its report. */
  ghost predicate MayFollow(elements: seq<Element>, e: Element) {
    && (e.interrupt ==> !e.isArray)
    && (IsData(e.kind) && e.isArray && e.handler != Some(|elements|) ==>
          && e.handler.Some? && e.handler.value < |elements|
          && IsData(elements[e.handler.value].kind) && elements[e.handler.value].isArray
          && elements[e.handler.value].handler == e.handler
          && SameReport(elements[e.handler.value], e) && Open(elements, e.handler.value))
    && (e.kind == InputNull ==>
          forall d: nat :: d < |elements| && SameReport(e, elements[d]) ==> elements[d].kind == InputNull)
  }

  lemma AppendKeepsGroups(elements: seq<Element>, e: Element)
    requires Grouped(elements) && MayFollow(elements, e)
    ensures Grouped(elements + [e])
  {
    var es := elements + [e];
    forall c: nat | c < |es| && IsItem(es, c) ensures es[c].handler.Some? && Handles(es, es[c].handler.value, c) {
      if c < |elements| {
        assert IsItem(elements, c);
      }
    }
    forall c: nat, d: nat | c < |es| && d < c && IsItem(es, c) && es[c].handler.Some? && es[c].handler.value < d && SameReport(es[c], es[d])
      ensures IsItem(es, d)
    {
      if c < |elements| {
        assert IsItem(elements, c) && SameReport(elements[c], elements[d]);
        assert IsItem(elements, d);
      } else {
        assert SameReport(elements[e.handler.value], elements[d]);
        assert IsItem(elements, d);
      }
    }
    forall c: nat, d: nat | c < |es| && d < c && es[c].kind == InputNull && SameReport(es[c], es[d])
      ensures es[d].kind == InputNull
    {
      if c < |elements| {
        assert SameReport(elements[c], elements[d]);
      }
    }
  }

  // -------------------------------------------------------- the chain walk

  /** An element that a report of this ID and type is read into. */
  predicate Wanted(elements: seq<Element>, reportID: Byte, reportType: ReportType, c: nat) {
    c < |elements| && elements[c].In(reportID, reportType) && elements[c].kind != InputNull && !IsItem(elements, c)
  }

  /** Where the walk goes from an element, when the report is long enough: a
      NULL element of the report ends it, other reports are passed over, and an
      item leads to the handler of its array. */
  function Step(elements: seq<Element>, c: nat, reportID: Byte): Option<nat>
    requires c < |elements|
  {
    var e := elements[c];
    if e.kind == InputNull && e.reportID == reportID then None
    else if e.reportID == reportID && IsItem(elements, c) then e.handler
    else e.next
  }

  /** The element is on the chain that the report takes. */
  predicate OnChain(elements: seq<Element>, at: Option<nat>, reportID: Byte, reportType: ReportType) {
    at.Some? ==> at.value < |elements| && InChain(elements[at.value], Slot(reportID), reportType)
  }

  /** A step goes down the chain and passes over nothing that is wanted. */
  lemma StepSkipsNothing(elements: seq<Element>, c: nat, reportID: Byte, reportType: ReportType)
    requires Linked(elements) && Grouped(elements) && OnChain(elements, Some(c), reportID, reportType)
    ensures var n := Step(elements, c, reportID);
      && OnChain(elements, n, reportID, reportType)
      && (n.Some? ==> n.value < c)
      && forall d: nat :: d < c && (n.Some? ==> d > n.value) ==> !Wanted(elements, reportID, reportType, d)
  {
    var e, n := elements[c], Step(elements, c, reportID);
    assert e.next == Before(elements, c, Slot(e.reportID), reportType);
    if e.kind == InputNull && e.reportID == reportID {
      forall d: nat | d < c ensures !Wanted(elements, reportID, reportType, d) {
        if elements[d].In(reportID, reportType) {
          assert SameReport(e, elements[d]);
        }
      }
    } else if e.reportID == reportID && IsItem(elements, c) {
      assert Handles(elements, e.handler.value, c);
      forall d: nat | d < c && d > e.handler.value ensures !Wanted(elements, reportID, reportType, d) {
        if elements[d].In(reportID, reportType) {
          assert SameReport(e, elements[d]);
        }
      }
    } else {
      forall d: nat | d < c && (n.Some? ==> d > n.value) ensures !Wanted(elements, reportID, reportType, d) {
        assert !InChain(elements[d], Slot(e.reportID), reportType);
      }
    }
  }

  /** The elements that take a report, in the order of the walk. */
  ghost function Walk(elements: seq<Element>, at: Option<nat>, reportID: Byte, reportType: ReportType): (v: seq<nat>)
    requires Linked(elements) && Grouped(elements) && OnChain(elements, at, reportID, reportType)
    decreases if at.Some? then at.value + 1 else 0
  {
    if at.None? then []
    else
      StepSkipsNothing(elements, at.value, reportID, reportType);
      var rest := Walk(elements, Step(elements, at.value, reportID), reportID, reportType);
      if Wanted(elements, reportID, reportType, at.value) then [at.value] + rest else rest
  }

  ghost predicate Descending(v: seq<nat>) {
    forall i, j :: 0 <= i < j < |v| ==> v[i] > v[j]
  }

  lemma DescendingCons(c: nat, rest: seq<nat>)
    requires Descending(rest) && forall d <- rest :: d < c
    ensures Descending([c] + rest)
  {
    var v := [c] + rest;
    forall i, j | 0 <= i < j < |v| ensures v[i] > v[j] {
      assert v[j] == rest[j - 1] && rest[j - 1] in rest;
      if i > 0 {
        assert v[i] == rest[i - 1];
      }
    }
  }

  /** From any element of the chain, the walk takes each wanted element that is
      not later exactly once, in descending order. */
  lemma {:induction false} WalkFrom(elements: seq<Element>, at: Option<nat>, reportID: Byte, reportType: ReportType)
    requires Linked(elements) && Grouped(elements) && OnChain(elements, at, reportID, reportType)
    ensures var v := Walk(elements, at, reportID, reportType);
      && Descending(v)
      && forall c: nat :: c in v <==> Wanted(elements, reportID, reportType, c) && at.Some? && c <= at.value
    decreases if at.Some? then at.value + 1 else 0
  {
    if at.Some? {
      var n := Step(elements, at.value, reportID);
      StepSkipsNothing(elements, at.value, reportID, reportType);
      WalkFrom(elements, n, reportID, reportType);
      var rest := Walk(elements, n, reportID, reportType);
      assert forall d: nat :: d in [at.value] + rest <==> d == at.value || d in rest;
      DescendingCons(at.value, rest);
    }
  }

  /** A whole walk takes each element of the report that is not an array item,
      and each array handler, exactly once. */
  lemma WalkIsComplete(elements: seq<Element>, heads: Heads, reportID: Byte, reportType: ReportType)
    requires Linked(elements) && Headed(elements, heads) && Grouped(elements)
    ensures var at := Head(heads, Slot(reportID), reportType);
      && OnChain(elements, at, reportID, reportType)
      && var v := Walk(elements, at, reportID, reportType);
      && Descending(v)
      && forall c: nat :: c in v <==> Wanted(elements, reportID, reportType, c)
  {
    var at := Head(heads, Slot(reportID), reportType);
    assert at == Before(elements, |elements|, Slot(reportID), reportType);
    WalkFrom(elements, at, reportID, reportType);
    forall c: nat | Wanted(elements, reportID, reportType, c) ensures at.Some? && c <= at.value {
      assert InChain(elements[c], Slot(reportID), reportType);
    }
  }

  // ----------------------------------------------------------- construction

  /** The key under which a collection keeps an array handler. */
  datatype ArrayKey = ArrayKey(parent: nat, kind: Kind, startBit: nat, reportID: Byte)

  type Arrays = map<ArrayKey, nat>

  /** Every known array handler is one. */
  ghost predicate KnownArrays(elements: seq<Element>, arrays: Arrays) {
    forall k <- arrays :: arrays[k] < |elements| && IsHandler(elements, arrays[k], k)
  }

  predicate IsHandler(elements: seq<Element>, h: nat, k: ArrayKey)
    requires h < |elements|
  {
    && elements[h].isArray && elements[h].handler == Some(h)
    && elements[h].kind == k.kind && elements[h].startBit == k.startBit && elements[h].reportID == k.reportID
  }

  /** One button capability of the descriptor parser. */
  datatype Button = Button(
    reportID: Byte, startBit: nat, isArray: bool, isRelative: bool, isRange: bool, usagePage: nat, usageMin: nat, usageMax: nat,
    arrayBits: nat, arrayCount: nat, arrayMin: int, arrayMax: int)

  /** One value capability of the descriptor parser. */
  datatype Value = Value(
    reportID: Byte, startBit: nat, isRelative: bool, isRange: bool, usagePage: nat, usageMin: nat, usageMax: nat,
    bitSize: nat, reportCount: nat, logicalMin: int, logicalMax: int, vendorPayload: bool)

  /** buttonElement before it meets its parent. */
  function NewButton(kind: Kind, b: Button): Element {
    var usageMax := if b.isRange then b.usageMax else b.usageMin;
    if b.isArray then
      Element(kind, b.reportID, b.usagePage, b.usageMin, b.usageMin,
              if b.isRange && b.usagePage == KEYBOARD_PAGE && usageMax < LEFT_CONTROL - 1 then LEFT_CONTROL - 1 else usageMax,
              true, b.isRelative, false, false, false, b.startBit, b.arrayBits, b.arrayCount, 0, b.arrayMin, b.arrayMax, None, None)
    else
      Element(kind, b.reportID, b.usagePage, b.usageMin, b.usageMin, usageMax,
              false, b.isRelative, false, false, false, b.startBit, 1, 1, 0, 0, 1, None, None)
  }

  /** valueElement: the values of one usage become one wide element. */
  function NewValue(kind: Kind, v: Value): Element {
    var count := if v.isRange && v.reportCount != 0 then 1 else v.reportCount;
    Element(kind, v.reportID, v.usagePage, v.usageMin, v.usageMin, if v.isRange then v.usageMax else v.usageMin,
            false, v.isRelative, v.vendorPayload, false, false, v.startBit,
            if count > 1 then v.bitSize * count else v.bitSize, if count > 1 then 1 else count, 0,
            v.logicalMin, v.logicalMax, None, None)
  }

  /** arrayHandlerElement for a child, at cookie `h`. */
  function NewHandler(child: Element, h: nat): Element {
    child.(usage := 0xFFFF_FFFF, usageMin := 0xFFFF, usageMax := 0xFFFF, variable := false, variableReport := false,
           interrupt := false, reportSize := 0, handler := Some(h), next := None)
  }

  /** addChildElement's change to an array element. */
  function AsItem(e: Element, h: nat): Element {
    e.(handler := Some(h), bits := 1, count := 1, logicalMin := 0, logicalMax := 1)
  }

  /** newSubElement; the range index is 16 bits wide. */
  function SubElement(e: Element, index: nat): (s: Element)
    ensures s.kind == e.kind && s.reportID == e.reportID
  {
    var i := index % 0x1_0000;
    e.(usage := if e.usageMin == e.usageMax then e.usageMin else e.usageMin + i,
       startBit := if e.isArray && e.bits == 1 then e.startBit else e.startBit + i * e.bits,
       count := 1, variable := false, variableReport := false, interrupt := false, reportSize := 0, next := None)
  }

  /** The sub-elements `start` to `end` of an element. */
  function SubElements(e: Element, start: nat, end: nat): (s: seq<Element>)
    ensures |s| == if start <= end then end - start else 0
    ensures forall i :: 0 <= i < |s| ==> s[i].kind == e.kind && s[i].reportID == e.reportID
  {
    var s := seq(if start <= end then end - start else 0, i requires i >= 0 => SubElement(e, start + i));
    assert forall i :: 0 <= i < |s| ==> s[i] == SubElement(e, start + i);
    s
  }

  /** An element and the rest of its range, or the duplicates of a handler. */
  function WithSubElements(e: Element): (s: seq<Element>)
    ensures |s| > 0 && s[0] == e
    ensures forall i :: 0 <= i < |s| ==> s[i].kind == e.kind && s[i].reportID == e.reportID
  {
    [e] + SubElements(e, e.StartingRangeIndex(), e.RangeCount())
  }

  /** The elements without their chain links. */
  function Unlinked(elements: seq<Element>): (s: seq<Element>)
    ensures |s| == |elements|
  {
    seq(|elements|, c requires 0 <= c < |elements| => elements[c].(next := None))
  }

  function NewNull(reportID: Byte): Element {
    Element(InputNull, reportID, 0, 0, 0, 0, true, false, false, false, false, 0, 0, 1, 0, 0, 0, None, None)
  }

  function NewReportHandler(reportID: Byte, bits: nat): Element {
    Element(InputData, reportID, 0, 0, 0, 0, false, true, false, false, true, 0, bits, 1, bits, 0, 0, None, None)
  }

  function NewCollection(usagePage: nat, usage: nat): Element {
    Element(Collection, 0, usagePage, usage, usage, usage, true, false, false, false, false, 0, 0, 1, 0, 0, 0, None, None)
  }

  /** Only elements have been added, and those before are as they were. */
  predicate Extends(old_: seq<Element>, now: seq<Element>) {
    |old_| <= |now| && now[..|old_|] == old_
  }

  /** Exactly the elements `made` have been added, in this order. */
  ghost predicate Adds(old_: seq<Element>, now: seq<Element>, made: seq<Element>) {
    Extends(old_, now) && Unlinked(now) == Unlinked(old_) + made
  }

  lemma AddsNothing(elements: seq<Element>)
    ensures Adds(elements, elements, [])
  {
  }

  lemma AddsOne(before: seq<Element>, now: seq<Element>, e: Element)
    requires Extends(before, now) && |now| == |before| + 1 && now[|before|].(next := None) == e
    ensures Adds(before, now, [e])
  {
    assert forall c: nat :: c < |before| ==> now[c] == now[..|before|][c];
    assert Unlinked(now) == Unlinked(before) + [e];
  }

  lemma AddsMore(a: seq<Element>, b: seq<Element>, c: seq<Element>, m: seq<Element>, n: seq<Element>)
    requires Adds(a, b, m) && Adds(b, c, n)
    ensures Adds(a, c, m + n)
  {
    ExtendsMore(a, b, c);
    assert Unlinked(a) + m + n == Unlinked(a) + (m + n);
  }

  lemma AddedAt(before: seq<Element>, now: seq<Element>, made: seq<Element>, i: nat)
    requires Adds(before, now, made) && i < |made|
    ensures |now| == |before| + |made| && now[|before| + i].(next := None) == made[i]
  {
    assert |Unlinked(now)| == |Unlinked(before) + made|;
    assert Unlinked(now)[|before| + i] == (Unlinked(before) + made)[|before| + i];
  }

  /** All elements from `from` on belong to a report and a kind. */
  ghost predicate AddedTo(elements: seq<Element>, from: nat, kind: Kind, reportID: Byte) {
    forall c: nat :: from <= c < |elements| ==> elements[c].kind == kind && elements[c].reportID == reportID
  }

  lemma ExtendsMore(a: seq<Element>, b: seq<Element>, c: seq<Element>)
    requires Extends(a, b) && Extends(b, c)
    ensures Extends(a, c)
  {
    assert c[..|a|] == c[..|b|][..|a|];
  }

  lemma KnownStays(elements: seq<Element>, more: seq<Element>, arrays: Arrays)
    requires KnownArrays(elements, arrays) && Extends(elements, more)
    ensures KnownArrays(more, arrays)
  {
    forall k | k in arrays ensures arrays[k] < |more| && IsHandler(more, arrays[k], k) {
      assert more[arrays[k]] == more[..|elements|][arrays[k]];
    }
  }

  lemma OpenStays(elements: seq<Element>, e: Element, h: nat)
    requires h < |elements| && Open(elements, h) && IsData(e.kind) && e.isArray && e.handler == Some(h)
    ensures Open(elements + [e], h)
  {
    var es := elements + [e];
    forall d: nat | h < d < |es| && SameReport(es[h], es[d]) ensures IsItem(es, d) && es[d].handler == Some(h) {
      if d < |elements| {
        assert SameReport(elements[h], elements[d]);
        assert IsItem(elements, d);
      }
    }
  }

  /** Every chain holds the elements of its slot and type, latest first, with the
      items of each array together, right after its handler. */
  ghost predicate Chained(elements: seq<Element>, heads: Heads, arrays: Arrays) {
    Linked(elements) && Headed(elements, heads) && Grouped(elements) && KnownArrays(elements, arrays)
  }

  lemma ChainedKnown(elements: seq<Element>, heads: Heads, arrays: Arrays)
    requires Chained(elements, heads, arrays)
    ensures KnownArrays(elements, arrays)
  {
  }

  predicate KnownRollOver(elements: seq<Element>, rollOver: Option<nat>) {
    rollOver.Some? ==> rollOver.value < |elements| && TypeOf(elements[rollOver.value].kind).Some?
  }

  lemma RegisterKeeps(elements: seq<Element>, heads: Heads, arrays: Arrays, e: Element)
    requires Chained(elements, heads, arrays) && e.next == None && MayFollow(elements, e)
    ensures var r := Registered(elements, heads, e);
      Chained(r.0, r.1, arrays) && Extends(elements, r.0) && r.0[|elements|] == e.(next := r.0[|elements|].next)
  {
    var all := Registered(elements, heads, e).0;
    var f := all[|elements|];
    assert all == elements + [f];
    RegisterKeepsLinks(elements, heads, e);
    RegisterKeepsHeads(elements, heads, e);
    AppendKeepsGroups(elements, f);
    KnownStays(elements, all, arrays);
  }

  class IOHIDElementContainer {
    var elements: seq<Element>
    var heads: Heads
    var arrays: Arrays
    var rollOver: Option<nat>

    constructor ()
      ensures Chains() && elements == [] && arrays == map[]
    {
      elements, heads, arrays, rollOver := [], map[], map[], None;
    }

    ghost predicate Chains()
      reads this
    {
      Chained(elements, heads, arrays) && KnownRollOver(elements, rollOver)
    }

    method RegisterElement(e: Element) returns (cookie: nat)
      requires Chains() && e.next == None && MayFollow(elements, e)
      modifies this`elements, this`heads, this`rollOver
      ensures Chains() && cookie == |old(elements)|
      ensures (elements, heads) == Registered(old(elements), old(heads), e)
      ensures rollOver == if TypeOf(e.kind).Some? && e.usagePage == KEYBOARD_PAGE && e.usage == ERROR_ROLL_OVER
                          then Some(cookie) else old(rollOver)
    {
      hide Chained, MayFollow;
      RegisterKeeps(elements, heads, arrays, e);
      cookie := |elements|;
      var element := e;
      var reportType := TypeOf(e.kind);
      if reportType.Some? {
        var slot := Slot(e.reportID);
        if (slot, reportType.value) in heads {
          element := element.(next := Some(heads[(slot, reportType.value)]));
        }
        heads := heads[(slot, reportType.value) := cookie];
        if e.usagePage == KEYBOARD_PAGE && e.usage == ERROR_ROLL_OVER {
          rollOver := Some(cookie);
        }
      }
      elements := elements + [element];
      assert (elements, heads) == Registered(old(elements), old(heads), e);
    }

    /** createSubElements: the rest of a range, or the duplicates of a handler.
        A sub-element of an array item is an item of the same open array, which
        addChildElement leaves as it is. */
    method CreateSubElements(e: Element)
      requires Chains() && IsData(e.kind) && MayHaveItems(elements, e)
      modifies this`elements, this`heads, this`rollOver
      ensures Chains() && MayHaveItems(elements, e)
      ensures Adds(old(elements), elements, SubElements(e, e.StartingRangeIndex(), e.RangeCount()))
    {
      hide Chained, MayHaveItems;
      ghost var first, start := elements, e.StartingRangeIndex();
      var index := e.StartingRangeIndex();
      var count := e.RangeCount();
      AddsNothing(first);
      while index < count
        invariant Chains() && MayHaveItems(elements, e)
        invariant start <= index && (index <= count || index == start)
        invariant Adds(first, elements, SubElements(e, start, index))
      {
        ghost var before := elements;
        SubElementFollows(elements, heads, e, index);
        var c := RegisterElement(SubElement(e, index));
        AddsOne(before, elements, SubElement(e, index));
        AddsMore(first, before, elements, SubElements(e, start, index), [SubElement(e, index)]);
        assert SubElements(e, start, index + 1) == SubElements(e, start, index) + [SubElement(e, index)];
        index := index + 1;
      }
      assert SubElements(e, start, index) == SubElements(e, start, count);
    }

    /** registerElement and createSubElements, one after the other. */
    method RegisterWithSubElements(e: Element)
      requires Chains() && IsData(e.kind) && e.next == None && MayHaveItems(elements, e)
      modifies this`elements, this`heads, this`rollOver
      ensures Chains() && MayHaveItems(elements, e) && Adds(old(elements), elements, WithSubElements(e))
    {
      hide Chained, MayHaveItems;
      ghost var first := elements;
      ItemFollows(elements, heads, e);
      var c := RegisterElement(e);
      ghost var second := elements;
      AddsOne(first, second, e);
      CreateSubElements(e);
      AddsMore(first, second, elements, [e], SubElements(e, e.StartingRangeIndex(), e.RangeCount()));
    }

    /** arrayHandlerElement: the handler, registered first, then one duplicate
        for every slot of the report. */
    method ArrayHandlerElement(child: Element) returns (h: nat)
      requires Chains() && IsData(child.kind) && child.isArray
      modifies this`elements, this`heads, this`rollOver
      ensures Chains() && h == |old(elements)| && MayHaveItems(elements, NewHandler(child, h))
      ensures Adds(old(elements), elements, WithSubElements(NewHandler(child, h)))
    {
      ghost var first := elements;
      var e := NewHandler(child, |elements|);
      h := RegisterElement(e);
      ghost var second := elements;
      HandlerRegistered(second, e, h);
      AddsOne(first, second, e);
      CreateSubElements(e);
      AddsMore(first, second, elements, [e], SubElements(e, e.StartingRangeIndex(), e.RangeCount()));
    }

    /** The array part of addChildElement: the handler of a new array child, made
        on the first child of the array. The descriptor parser lists the usages of
        an array together, so a known array is still open. */
    method HandlerFor(child: Element, parent: nat) returns (h: nat)
      requires Chains() && IsData(child.kind) && child.isArray
      requires var key := ArrayKey(parent, child.kind, child.startBit, child.reportID);
        key in arrays ==> Open(elements, arrays[key])
      modifies this`elements, this`heads, this`arrays, this`rollOver
      ensures Chains()
      ensures var key := ArrayKey(parent, child.kind, child.startBit, child.reportID);
        && h < |elements| && IsHandler(elements, h, key) && Open(elements, h) && arrays == old(arrays)[key := h]
        && if key in old(arrays) then elements == old(elements) && h == old(arrays)[key]
           else h == |old(elements)| && Adds(old(elements), elements, WithSubElements(NewHandler(child, h)))
    {
      var key := ArrayKey(parent, child.kind, child.startBit, child.reportID);
      if key in arrays {
        h := arrays[key];
      } else {
        ghost var first := elements;
        h := ArrayHandlerElement(child);
        AddedAt(first, elements, WithSubElements(NewHandler(child, h)), 0);
        KnownAdded(elements, arrays, key, h);
        arrays := arrays[key := h];
      }
    }

    /** buttonElement below a collection. */
    method ButtonElement(kind: Kind, b: Button, parent: nat)
      requires Chains() && IsData(kind)
      requires var key := ArrayKey(parent, kind, b.startBit, b.reportID);
        b.isArray && key in arrays ==> Open(elements, arrays[key])
      modifies this`elements, this`heads, this`arrays, this`rollOver
      ensures Chains() && Adds(old(elements), elements, MadeByButton(kind, b, parent, |old(elements)|, old(arrays)))
      ensures arrays == ArraysAfter(kind, b, parent, |old(elements)|, old(arrays))
      ensures var key := ArrayKey(parent, kind, b.startBit, b.reportID);
        b.isArray ==> arrays[key] < |elements| && Open(elements, arrays[key])
    {
      hide Chained, WithSubElements, Adds, Open, KnownArrays;
      var e := NewButton(kind, b);
      if e.isArray {
        ArrayItems(e, parent);
        ghost var items := WithSubElements(AsItem(e, arrays[ArrayKey(parent, kind, b.startBit, b.reportID)]));
        assert [] + items == items;
      } else {
        RegisterWithSubElements(e);
      }
    }

    /** A new array child meets its collection, is registered, and spawns the
        items of its range. */
    method ArrayItems(child: Element, parent: nat)
      requires Chains() && IsData(child.kind) && child.isArray && !child.interrupt && child.next == None
      requires var key := ArrayKey(parent, child.kind, child.startBit, child.reportID);
        key in arrays ==> Open(elements, arrays[key])
      modifies this`elements, this`heads, this`arrays, this`rollOver
      ensures Chains()
      ensures var key := ArrayKey(parent, child.kind, child.startBit, child.reportID);
        && arrays == (if key in old(arrays) then old(arrays) else old(arrays)[key := |old(elements)|])
        && arrays[key] < |elements| && Open(elements, arrays[key])
        && Adds(old(elements), elements,
                (if key in old(arrays) then [] else WithSubElements(NewHandler(child, arrays[key])))
                + WithSubElements(AsItem(child, arrays[key])))
    {
      ghost var first := elements;
      var h := HandlerFor(child, parent);
      ghost var second := elements;
      AddsNothing(first);
      RegisterWithSubElements(AsItem(child, h));
      ghost var key := ArrayKey(parent, child.kind, child.startBit, child.reportID);
      AddsMore(first, second, elements, if key in old(arrays) then [] else WithSubElements(NewHandler(child, h)),
               WithSubElements(AsItem(child, h)));
    }

    /** valueElement; the descriptor parser makes no values of array items. */
    method ValueElement(kind: Kind, v: Value)
      requires Chains() && IsData(kind)
      modifies this`elements, this`heads, this`rollOver
      ensures Chains() && Adds(old(elements), elements, WithSubElements(NewValue(kind, v)))
    {
      RegisterWithSubElements(NewValue(kind, v));
    }

    method CollectionElement(usagePage: nat, usage: nat)
      requires Chains()
      modifies this`elements, this`heads, this`rollOver
      ensures Chains() && elements == old(elements) + [NewCollection(usagePage, usage)] && heads == old(heads)
    {
      var c := RegisterElement(NewCollection(usagePage, usage));
    }

    /** reportHandlerElement; none for a report without input. */
    method ReportHandlerElement(reportID: Byte, bits: nat)
      requires Chains()
      modifies this`elements, this`heads, this`rollOver
      ensures Chains() && Adds(old(elements), elements, if bits == 0 then [] else [NewReportHandler(reportID, bits)])
    {
      ghost var first := elements;
      AddsNothing(first);
      if bits != 0 {
        var c := RegisterElement(NewReportHandler(reportID, bits));
        AddsOne(first, elements, NewReportHandler(reportID, bits));
      }
    }

    /** nullElement below the root collection, before the input elements of its
        report. Without flags it reads as an array item, so the collection makes a
        handler for it, which is a NULL element too. */
    method NullElement(reportID: Byte)
      requires Chains() && forall d: nat :: d < |elements| && elements[d].In(reportID, InputReport) ==> elements[d].kind == InputNull
      requires ArrayKey(0, InputNull, 0, reportID) !in arrays
      modifies this`elements, this`heads, this`arrays, this`rollOver
      ensures Chains() && Adds(old(elements), elements, MadeByNull(reportID, |old(elements)|))
      ensures arrays == old(arrays)[ArrayKey(0, InputNull, 0, reportID) := |old(elements)| + 1]
    {
      ghost var first := elements;
      var c := RegisterNulls(reportID);
      var item := AsItem(elements[c], c + 1);
      UpdateNull(elements, heads, arrays, c, item);
      elements := elements[c := item];
      arrays := arrays[ArrayKey(0, InputNull, 0, reportID) := c + 1];
      assert elements[..c] == first;
      assert Unlinked(elements) == Unlinked(first) + MadeByNull(reportID, c);
    }

    /** The NULL element and the handler made for it. */
    method RegisterNulls(reportID: Byte) returns (c: nat)
      requires Chains() && forall d: nat :: d < |elements| && elements[d].In(reportID, InputReport) ==> elements[d].kind == InputNull
      modifies this`elements, this`heads, this`rollOver
      ensures Chains() && c == |old(elements)| && |elements| == c + 2 && Extends(old(elements), elements)
      ensures elements[c].(next := None) == NewNull(reportID)
      ensures elements[c + 1].(next := None) == NewHandler(NewNull(reportID), c + 1)
    {
      ghost var first := elements;
      var child := NewNull(reportID);
      c := RegisterElement(child);
      ghost var second := elements;
      var h := RegisterElement(NewHandler(child, |elements|));
      ExtendsMore(first, second, elements);
      assert elements[c] == elements[..|second|][c];
    }

    /** setReportSize: the size is kept by the first element of the report in its
        chain. With an element of variable size in an input or feature report, that
        element knows the report to be variable, and so does the report handler. */
    method SetReportSize(reportID: Byte, reportType: ReportType, bits: nat)
      requires Chains()
      modifies this`elements
      ensures Chains() && elements == Sized(old(elements), reportID, reportType, bits)
    {
      hide Chained, Latest, FirstHandler, HasVariable, Shape;
      ghost var was := elements;
      var variableReport := false;
      if reportType != OutputReport {
        variableReport := FindVariable(reportID, reportType);
        if variableReport && reportType == InputReport {
          MarkHandler(reportID);
        }
      }
      LatestOfShape(was, elements, |was|, reportID, reportType);
      ghost var marked := elements;
      var head := FirstOfReport(reportID, reportType);
      if head.Some? {
        var e := elements[head.value];
        ResizedShape(elements, head.value, bits, e.variableReport || variableReport);
        elements := elements[head.value := e.(reportSize := bits, variableReport := e.variableReport || variableReport)];
      }
      ShapeKeeps(marked, elements, heads, arrays);
    }

    method FindVariable(reportID: Byte, reportType: ReportType) returns (found: bool)
      ensures found <==> HasVariable(elements, reportID, reportType)
    {
      for i := 0 to |elements|
        invariant forall c: nat :: c < i ==> !(elements[c].In(reportID, reportType) && elements[c].variable)
      {
        if elements[i].In(reportID, reportType) && elements[i].variable {
          return true;
        }
      }
      found := false;
    }

    /** The first report handler of the report; _inputReportElements lists the
        elements with the interrupt flag in the order of their cookies. */
    method MarkHandler(reportID: Byte)
      requires Chains()
      modifies this`elements
      ensures Chains() && elements == Marked(old(elements), reportID)
    {
      hide Chained;
      ghost var was := elements;
      var j := 0;
      while j < |elements| && !(elements[j].interrupt && elements[j].reportID == reportID)
        invariant j <= |elements| && FirstHandler(elements, 0, reportID) == FirstHandler(elements, j, reportID)
      {
        j := j + 1;
      }
      if j < |elements| {
        elements := elements[j := elements[j].(variable := true, variableReport := true)];
      }
      ShapeKeeps(was, elements, heads, arrays);
    }

    /** getReportCountAndSizes */
    method GetReportCountAndSizes(reports: seq<ReportSizes>)
      requires Chains()
      modifies this`elements
      ensures Chains() && elements == SizedBy(old(elements), reports)
    {
      hide Chained, Sized;
      ghost var was := elements;
      for i := 0 to |reports|
        invariant Chains() && elements == SizedBy(was, reports[..i])
      {
        SetReportSize(reports[i].reportID, InputReport, reports[i].inputBits);
        SetReportSize(reports[i].reportID, OutputReport, reports[i].outputBits);
        SetReportSize(reports[i].reportID, FeatureReport, reports[i].featureBits);
        assert reports[..i + 1][..i] == reports[..i];
      }
      assert reports[..|reports|] == reports;
    }

    /** The search down the chain for an element of the report. */
    method FirstOfReport(reportID: Byte, reportType: ReportType) returns (head: Option<nat>)
      requires Chains()
      ensures head == Latest(elements, |elements|, reportID, reportType)
    {
      hide Linked, Headed, Grouped, KnownArrays, KnownRollOver;
      head := Head(heads, Slot(reportID), reportType);
      HeadIs(elements, heads, reportID, reportType);
      while head.Some? && elements[head.value].reportID != reportID
        invariant OnChain(elements, head, reportID, reportType)
        invariant Latest(elements, Upto(head), reportID, reportType) == Latest(elements, |elements|, reportID, reportType)
        decreases Upto(head)
      {
        NextIs(elements, head.value, reportID, reportType);
        head := elements[head.value].next;
      }
    }

    // -------------------------------------------------- the whole hierarchy

    method CreateButtonElements(kind: Kind, buttons: seq<Placed>)
      requires Chains() && IsData(kind) && Contiguous(kind, buttons) && forall k <- arrays :: k.kind != kind
      modifies this`elements, this`heads, this`arrays, this`rollOver
      ensures Chains() && Adds(old(elements), elements, MadeByButtons(kind, buttons, |old(elements)|, map[]))
      ensures forall k <- arrays :: k in old(arrays) || k.kind == kind
    {
      hide Chained, Contiguous, Adds, ButtonsDone;
      ghost var first, known, made := elements, arrays, [];
      ghost var own: Arrays := map[];
      NoButtonsDone(kind, buttons, elements, arrays);
      for i := 0 to |buttons|
        invariant Chains() && ButtonsDone(kind, buttons, i, first, known, elements, arrays, made, own)
      {
        ghost var before, were := elements, arrays;
        ghost var b, parent := buttons[i].button, buttons[i].parent;
        StillOpen(kind, buttons, i, elements, arrays, made, own, first, known);
        ChainedKnown(elements, heads, arrays);
        ButtonElement(kind, buttons[i].button, buttons[i].parent);
        NextButtonDone(kind, buttons, i, first, known, before, were, elements, heads, arrays, made, own);
        made, own := made + MadeByButton(kind, b, parent, |before|, were), ArraysAfter(kind, b, parent, |before|, own);
      }
      AllButtonsDone(kind, buttons, first, known, elements, arrays, made, own);
    }

    method CreateValueElements(kind: Kind, values: seq<Value>)
      requires Chains() && IsData(kind)
      modifies this`elements, this`heads, this`rollOver
      ensures Chains() && Adds(old(elements), elements, MadeByValues(kind, values))
    {
      ghost var first := elements;
      AddsNothing(first);
      for i := 0 to |values|
        invariant Chains() && Adds(first, elements, MadeByValues(kind, values[..i]))
      {
        ghost var before := elements;
        ValueElement(kind, values[i]);
        AddsMore(first, before, elements, MadeByValues(kind, values[..i]), WithSubElements(NewValue(kind, values[i])));
        assert values[..i + 1][..i] == values[..i];
      }
      assert values[..|values|] == values;
    }

    /** createElementHierarchy up to the values: collections, NULL elements,
        buttons, values, report handlers, in this order. */
    method CreateElementHierarchy(d: Descriptor)
      requires elements == [] && arrays == map[] && Chains() && ParsedWell(d)
      modifies this`elements, this`heads, this`arrays, this`rollOver
      ensures Chains() && Unlinked(elements) == Made(d)
    {
      hide Chained, MadeByButtons, MadeByValues, MadeByReports, MadeByNulls, MadeByCollections;
      CreateCollectionElements(d.collections);
      CreateNullElements(d);
      CreateButtonElements(InputData, d.inputButtons);
      CreateButtonElements(OutputData, d.outputButtons);
      CreateButtonElements(FeatureData, d.featureButtons);
      CreateValueElements(InputData, d.inputValues);
      CreateValueElements(OutputData, d.outputValues);
      CreateValueElements(FeatureData, d.featureValues);
      CreateReportHandlerElements(d.reports);
    }

    /** init, up to the values. */
    method Init(d: Descriptor) returns (ghost made: seq<Element>)
      requires elements == [] && arrays == map[] && Chains() && ParsedWell(d)
      modifies this`elements, this`heads, this`arrays, this`rollOver
      ensures Chains() && Unlinked(made) == Made(d) && elements == SizedBy(made, d.reports) && Slotted(elements)
    {
      CreateElementHierarchy(d);
      made := elements;
      GetReportCountAndSizes(d.reports);
      SizedSlotted(d, made, elements);
    }

    method CreateCollectionElements(collections: seq<(nat, nat)>)
      requires elements == [] && Chains()
      modifies this`elements, this`heads, this`rollOver
      ensures Chains() && Unlinked(elements) == MadeByCollections(collections)
      ensures forall c: nat :: c < |elements| ==> elements[c].kind == Collection
    {
      for i := 0 to |collections|
        invariant Chains() && |elements| == i
        invariant forall c: nat :: c < i ==> elements[c] == NewCollection(collections[c].0, collections[c].1)
      {
        CollectionElement(collections[i].0, collections[i].1);
      }
    }

    method CreateNullElements(d: Descriptor)
      requires Chains() && ParsedWell(d) && arrays == map[]
      requires forall c: nat :: c < |elements| ==> elements[c].kind == Collection
      modifies this`elements, this`heads, this`arrays, this`rollOver
      ensures Chains() && Adds(old(elements), elements, MadeByNulls(d.reports, |old(elements)|))
      ensures forall k <- arrays :: k.kind == InputNull
    {
      hide Chained, Adds, NullsDone, MadeByNulls, MadeByNull;
      ghost var first := elements;
      NoNullsDone(d, elements);
      for i := 0 to |d.reports|
        invariant Chains() && NullsDone(d, i, first, elements, arrays)
      {
        ghost var before, were := elements, arrays;
        MayAddNull(d, i, first, elements, arrays);
        NullElement(d.reports[i].reportID);
        NextNullDone(d, i, first, before, were, elements, arrays);
      }
      AllNullsDone(d, first, elements, arrays);
    }

    method CreateReportHandlerElements(reports: seq<ReportSizes>)
      requires Chains()
      modifies this`elements, this`heads, this`rollOver
      ensures Chains() && Adds(old(elements), elements, MadeByReports(reports))
    {
      ghost var first := elements;
      AddsNothing(first);
      for i := 0 to |reports|
        invariant Chains() && Adds(first, elements, MadeByReports(reports[..i]))
      {
        ghost var before := elements;
        ReportHandlerElement(reports[i].reportID, reports[i].inputBits);
        AddsMore(first, before, elements, MadeByReports(reports[..i]), MadeByReport(reports[i]));
        assert reports[..i + 1][..i] == reports[..i];
      }
      assert reports[..|reports|] == reports;
    }
  }

  /** A button below a collection, by cookie. */
  datatype Placed = Placed(button: Button, parent: nat)

  datatype ReportSizes = ReportSizes(reportID: Byte, inputBits: nat, outputBits: nat, featureBits: nat)

  /** What the descriptor parser makes of a report descriptor. */
  datatype Descriptor = Descriptor(
    collections: seq<(nat, nat)>, reports: seq<ReportSizes>,
    inputButtons: seq<Placed>, outputButtons: seq<Placed>, featureButtons: seq<Placed>,
    inputValues: seq<Value>, outputValues: seq<Value>, featureValues: seq<Value>)

  // ------------------------------------- the elements of a whole descriptor

  /** The elements that a button makes at cookie `n`, when these arrays are known. */
  function MadeByButton(kind: Kind, b: Button, parent: nat, n: nat, arrays: Arrays): seq<Element> {
    var e, key := NewButton(kind, b), ArrayKey(parent, kind, b.startBit, b.reportID);
    if !b.isArray then WithSubElements(e)
    else if key in arrays then WithSubElements(AsItem(e, arrays[key]))
    else WithSubElements(NewHandler(e, n)) + WithSubElements(AsItem(e, n))
  }

  function ArraysAfter(kind: Kind, b: Button, parent: nat, n: nat, arrays: Arrays): Arrays {
    var key := ArrayKey(parent, kind, b.startBit, b.reportID);
    if b.isArray && key !in arrays then arrays[key := n] else arrays
  }

  function MadeByButtons(kind: Kind, buttons: seq<Placed>, n: nat, arrays: Arrays): seq<Element>
    decreases |buttons|
  {
    if buttons == [] then []
    else
      var p := buttons[0];
      var made := MadeByButton(kind, p.button, p.parent, n, arrays);
      made + MadeByButtons(kind, buttons[1..], n + |made|, ArraysAfter(kind, p.button, p.parent, n, arrays))
  }

  function MadeByValues(kind: Kind, values: seq<Value>): seq<Element> {
    if values == [] then []
    else MadeByValues(kind, values[..|values| - 1]) + WithSubElements(NewValue(kind, values[|values| - 1]))
  }

  function MadeByNull(reportID: Byte, n: nat): seq<Element> {
    [AsItem(NewNull(reportID), n + 1), NewHandler(NewNull(reportID), n + 1)]
  }

  function MadeByNulls(reports: seq<ReportSizes>, n: nat): (made: seq<Element>)
    ensures |made| == 2 * |reports|
  {
    if reports == [] then []
    else
      var last := |reports| - 1;
      MadeByNulls(reports[..last], n) + MadeByNull(reports[last].reportID, n + 2 * last)
  }

  function MadeByReport(r: ReportSizes): seq<Element> {
    if r.inputBits == 0 then [] else [NewReportHandler(r.reportID, r.inputBits)]
  }

  function MadeByReports(reports: seq<ReportSizes>): seq<Element> {
    if reports == [] then [] else MadeByReports(reports[..|reports| - 1]) + MadeByReport(reports[|reports| - 1])
  }

  function MadeByCollections(collections: seq<(nat, nat)>): seq<Element> {
    seq(|collections|, c requires 0 <= c < |collections| => NewCollection(collections[c].0, collections[c].1))
  }

  /** All elements of a descriptor, in the order of their cookies. */
  function Made(d: Descriptor): seq<Element> {
    var first := MadeByCollections(d.collections);
    var nulls := first + MadeByNulls(d.reports, |first|);
    var inputs := nulls + MadeByButtons(InputData, d.inputButtons, |nulls|, map[]);
    var outputs := inputs + MadeByButtons(OutputData, d.outputButtons, |inputs|, map[]);
    var buttons := outputs + MadeByButtons(FeatureData, d.featureButtons, |outputs|, map[]);
    buttons + MadeByValues(InputData, d.inputValues) + MadeByValues(OutputData, d.outputValues)
    + MadeByValues(FeatureData, d.featureValues) + MadeByReports(d.reports)
  }

  /** Of the arrays of a kind, a list of buttons knows its own. */
  ghost predicate OwnArrays(kind: Kind, arrays: Arrays, own: Arrays) {
    forall k: ArrayKey :: k.kind == kind ==> (k in arrays <==> k in own) && (k in own ==> arrays[k] == own[k])
  }

  lemma MadeByOwn(kind: Kind, b: Button, parent: nat, n: nat, arrays: Arrays, own: Arrays)
    requires OwnArrays(kind, arrays, own)
    ensures MadeByButton(kind, b, parent, n, arrays) == MadeByButton(kind, b, parent, n, own)
    ensures OwnArrays(kind, ArraysAfter(kind, b, parent, n, arrays), ArraysAfter(kind, b, parent, n, own))
  {
  }

  lemma MadeByRest(kind: Kind, buttons: seq<Placed>, i: nat, n: nat, own: Arrays)
    requires i < |buttons|
    ensures var b, parent := buttons[i].button, buttons[i].parent;
      var made := MadeByButton(kind, b, parent, n, own);
      MadeByButtons(kind, buttons[i..], n, own)
      == made + MadeByButtons(kind, buttons[i + 1..], n + |made|, ArraysAfter(kind, b, parent, n, own))
  {
    hide MadeByButton, ArraysAfter;
    assert buttons[i..][0] == buttons[i] && buttons[i..][1..] == buttons[i + 1..];
  }

  lemma ButtonAddedTo(kind: Kind, b: Button, parent: nat, before: seq<Element>, arrays: Arrays, now: seq<Element>)
    requires Adds(before, now, MadeByButton(kind, b, parent, |before|, arrays))
    ensures AddedTo(now, |before|, kind, b.reportID)
  {
    var made := MadeByButton(kind, b, parent, |before|, arrays);
    forall c: nat | |before| <= c < |now| ensures now[c].kind == kind && now[c].reportID == b.reportID {
      AddedAt(before, now, made, c - |before|);
      assert now[c].kind == now[c].(next := None).kind && now[c].reportID == now[c].(next := None).reportID;
    }
  }

  // ---------------------------------------------- the slots of an array

  /** An array report handler. */
  predicate HandlesArray(elements: seq<Element>, h: nat) {
    h < |elements| && IsData(elements[h].kind) && elements[h].isArray && elements[h].handler == Some(h)
  }

  /** How many duplicates a handler has; the handler of one slot reads it itself. */
  function SlotCount(e: Element): nat {
    if e.count > 1 then e.count else 0
  }

  /** Where slot `i` starts; selectors of one bit all start with the array. */
  function SlotStart(e: Element, i: nat): nat {
    if e.bits == 1 then e.startBit else e.startBit + (i % 0x1_0000) * e.bits
  }

  /** `d` is the duplicate for slot `i` of the array of `e`. */
  predicate IsSlot(e: Element, d: Element, i: nat) {
    && d.kind == e.kind && d.reportID == e.reportID && d.isArray && d.handler == e.handler && d.isRelative == e.isRelative
    && d.logicalMin == e.logicalMin && d.logicalMax == e.logicalMax
    && d.bits == e.bits && d.count == 1 && d.startBit == SlotStart(e, i)
    && !d.variable && !d.interrupt && !d.IsModifier()
  }

  predicate IsOneBit(e: Element) {
    e.bits == 1 && e.count == 1 && !e.variable
  }

  /** From cookie `n` on: behind every handler come its duplicates, slot by slot,
      and every other array element is one bit, or one of those duplicates. */
  ghost predicate SlottedFrom(made: seq<Element>, n: nat) {
    forall k: nat :: k < |made| && IsData(made[k].kind) && made[k].isArray ==>
                       if made[k].handler == Some(n + k) then SlotsFollow(made, k)
                       else made[k].handler.Some? && (IsOneBit(made[k]) || IsSlotAmong(made, n, k))
  }

  ghost predicate SlotsFollow(made: seq<Element>, k: nat)
    requires k < |made|
  {
    && !made[k].variable && !made[k].IsModifier() && k + SlotCount(made[k]) < |made|
    && forall i: nat :: i < SlotCount(made[k]) ==> SlotAt(made, k, i)
  }

  predicate SlotAt(made: seq<Element>, k: nat, i: nat)
    requires k + 1 + i < |made|
  {
    IsSlot(made[k], made[k + 1 + i], i)
  }

  ghost predicate IsSlotAmong(made: seq<Element>, n: nat, k: nat)
    requires k < |made|
  {
    exists j: nat :: j < k && IsData(made[j].kind) && made[j].isArray && made[j].handler == Some(n + j) == made[k].handler
                     && k <= j + SlotCount(made[j])
  }

  ghost predicate Slotted(elements: seq<Element>) {
    SlottedFrom(elements, 0)
  }

  lemma SlottedSum(a: seq<Element>, b: seq<Element>, n: nat)
    requires SlottedFrom(a, n) && SlottedFrom(b, n + |a|)
    ensures SlottedFrom(a + b, n)
  {
    var c := a + b;
    forall k: nat | k < |c| && IsData(c[k].kind) && c[k].isArray
      ensures if c[k].handler == Some(n + k) then SlotsFollow(c, k)
              else c[k].handler.Some? && (IsOneBit(c[k]) || IsSlotAmong(c, n, k))
    {
      if k < |a| {
        FollowInSum(a, b, n, k);
      } else {
        FollowAfter(a, b, n, k - |a|);
      }
    }
  }

  lemma FollowInSum(a: seq<Element>, b: seq<Element>, n: nat, k: nat)
    requires k < |a| && SlottedFrom(a, n) && IsData(a[k].kind) && a[k].isArray
    ensures if a[k].handler == Some(n + k) then SlotsFollow(a + b, k)
            else a[k].handler.Some? && (IsOneBit(a[k]) || IsSlotAmong(a + b, n, k))
  {
    if a[k].handler == Some(n + k) {
      forall i: nat | i < SlotCount(a[k]) ensures SlotAt(a + b, k, i) {
        assert SlotAt(a, k, i);
      }
    } else if !IsOneBit(a[k]) {
      var j: nat :| j < k && IsData(a[j].kind) && a[j].isArray && a[j].handler == Some(n + j) == a[k].handler
                    && k <= j + SlotCount(a[j]);
      assert (a + b)[j] == a[j];
    }
  }

  lemma FollowAfter(a: seq<Element>, b: seq<Element>, n: nat, k: nat)
    requires k < |b| && SlottedFrom(b, n + |a|) && IsData(b[k].kind) && b[k].isArray
    ensures if b[k].handler == Some(n + |a| + k) then SlotsFollow(a + b, |a| + k)
            else b[k].handler.Some? && (IsOneBit(b[k]) || IsSlotAmong(a + b, n, |a| + k))
  {
    var all, at := a + b, |a| + k;
    if b[k].handler == Some(n + |a| + k) {
      forall i: nat | i < SlotCount(b[k]) ensures SlotAt(all, at, i) {
        assert SlotAt(b, k, i) && all[at + 1 + i] == b[k + 1 + i];
      }
    } else if !IsOneBit(b[k]) {
      var j: nat :| j < k && IsData(b[j].kind) && b[j].isArray && b[j].handler == Some(n + |a| + j) == b[k].handler
                    && k <= j + SlotCount(b[j]);
      assert (a + b)[|a| + j] == b[j];
    }
  }

  /** Elements that are no arrays. */
  lemma PlainSlotted(made: seq<Element>, n: nat)
    requires forall k: nat :: k < |made| ==> !(IsData(made[k].kind) && made[k].isArray)
    ensures SlottedFrom(made, n)
  {
  }

  /** A handler and its duplicates. */
  lemma HandlerSlotted(child: Element, n: nat)
    requires IsData(child.kind) && child.isArray
    ensures SlottedFrom(WithSubElements(NewHandler(child, n)), n)
  {
    var e := NewHandler(child, n);
    var made := WithSubElements(e);
    var subs := SubElements(e, e.StartingRangeIndex(), e.RangeCount());
    assert made == [e] + subs && |subs| == SlotCount(e);
    forall i: nat | i < SlotCount(e) ensures made[1 + i] == SubElement(e, i) && SlotAt(made, 0, i) {
      assert made[1 + i] == subs[i] == SubElement(e, e.StartingRangeIndex() + i);
    }
    assert SlotsFollow(made, 0);
    forall k: nat | 0 < k < |made| ensures made[k].handler == Some(n) && IsSlotAmong(made, n, k) {
      assert made[k] == SubElement(e, k - 1);
      assert made[0].handler == Some(n + 0);
    }
  }

  /** The items of an array that was handled before. */
  lemma ItemsSlotted(e: Element, n: nat)
    requires e.handler.Some? && e.handler.value < n && IsOneBit(e) && e.next == None
    ensures SlottedFrom(WithSubElements(e), n)
  {
    var made := WithSubElements(e);
    var subs := SubElements(e, e.StartingRangeIndex(), e.RangeCount());
    forall k: nat | k < |made| ensures IsOneBit(made[k]) && made[k].handler == e.handler {
      if k > 0 {
        assert made[k] == subs[k - 1] == SubElement(e, e.StartingRangeIndex() + k - 1);
      }
    }
  }

  lemma NoArraySlotted(e: Element, n: nat)
    requires !e.isArray && e.next == None
    ensures SlottedFrom(WithSubElements(e), n)
  {
    SubElementsLike(e);
    PlainSlotted(WithSubElements(e), n);
  }

  lemma ButtonSlotted(kind: Kind, b: Button, parent: nat, n: nat, arrays: Arrays)
    requires IsData(kind) && forall k <- arrays :: arrays[k] < n
    ensures SlottedFrom(MadeByButton(kind, b, parent, n, arrays), n)
  {
    hide SlottedFrom, WithSubElements;
    var e, key := NewButton(kind, b), ArrayKey(parent, kind, b.startBit, b.reportID);
    if !b.isArray {
      NoArraySlotted(e, n);
    } else if key in arrays {
      ItemsSlotted(AsItem(e, arrays[key]), n);
    } else {
      var handlers := WithSubElements(NewHandler(e, n));
      HandlerSlotted(e, n);
      ItemsSlotted(AsItem(e, n), n + |handlers|);
      SlottedSum(handlers, WithSubElements(AsItem(e, n)), n);
    }
  }

  lemma {:induction false} ButtonsSlotted(kind: Kind, buttons: seq<Placed>, n: nat, arrays: Arrays)
    requires IsData(kind) && forall k <- arrays :: arrays[k] < n
    ensures SlottedFrom(MadeByButtons(kind, buttons, n, arrays), n)
    decreases |buttons|
  {
    hide SlottedFrom, MadeByButton, ArraysAfter;
    if buttons == [] {
      PlainSlotted([], n);
    } else {
      var p := buttons[0];
      var made, after := MadeByButton(kind, p.button, p.parent, n, arrays), ArraysAfter(kind, p.button, p.parent, n, arrays);
      ButtonSlotted(kind, p.button, p.parent, n, arrays);
      KeysAfter(kind, p, n, arrays);
      ButtonsSlotted(kind, buttons[1..], n + |made|, after);
      SlottedSum(made, MadeByButtons(kind, buttons[1..], n + |made|, after), n);
    }
  }

  lemma {:induction false} ValuesSlotted(kind: Kind, values: seq<Value>, n: nat)
    ensures SlottedFrom(MadeByValues(kind, values), n)
    decreases |values|
  {
    hide SlottedFrom, WithSubElements;
    if values == [] {
      PlainSlotted([], n);
    } else {
      var most, e := values[..|values| - 1], NewValue(kind, values[|values| - 1]);
      ValuesSlotted(kind, most, n);
      NoArraySlotted(e, n + |MadeByValues(kind, most)|);
      SlottedSum(MadeByValues(kind, most), WithSubElements(e), n);
    }
  }

  lemma {:induction false} NoArrayReports(reports: seq<ReportSizes>)
    ensures forall e <- MadeByReports(reports) :: !e.isArray
    decreases |reports|
  {
    if reports != [] {
      NoArrayReports(reports[..|reports| - 1]);
    }
  }

  lemma {:induction false} OnlyNullElements(reports: seq<ReportSizes>, n: nat)
    ensures forall e <- MadeByNulls(reports, n) :: e.kind == InputNull
    decreases |reports|
  {
    if reports != [] {
      OnlyNullElements(reports[..|reports| - 1], n);
    }
  }

  /** In the elements of every descriptor, arrays have their slots. */
  lemma MadeSlotted(d: Descriptor)
    ensures Slotted(Made(d))
  {
    hide SlottedFrom, MadeByNulls, MadeByButtons, MadeByValues, MadeByReports;
    var first := MadeByCollections(d.collections);
    PlainSlotted(first, 0);
    OnlyNullElements(d.reports, |first|);
    PlainSlotted(MadeByNulls(d.reports, |first|), |first|);
    SlottedSum(first, MadeByNulls(d.reports, |first|), 0);
    var all := first + MadeByNulls(d.reports, |first|);
    all := MoreButtonsSlotted(all, InputData, d.inputButtons);
    all := MoreButtonsSlotted(all, OutputData, d.outputButtons);
    all := MoreButtonsSlotted(all, FeatureData, d.featureButtons);
    all := MoreValuesSlotted(all, InputData, d.inputValues);
    all := MoreValuesSlotted(all, OutputData, d.outputValues);
    all := MoreValuesSlotted(all, FeatureData, d.featureValues);
    NoArrayReports(d.reports);
    PlainSlotted(MadeByReports(d.reports), |all|);
    SlottedSum(all, MadeByReports(d.reports), 0);
  }

  lemma MoreButtonsSlotted(before: seq<Element>, kind: Kind, buttons: seq<Placed>) returns (all: seq<Element>)
    requires IsData(kind) && SlottedFrom(before, 0)
    ensures all == before + MadeByButtons(kind, buttons, |before|, map[]) && SlottedFrom(all, 0)
  {
    hide SlottedFrom, MadeByButtons;
    all := before + MadeByButtons(kind, buttons, |before|, map[]);
    ButtonsSlotted(kind, buttons, |before|, map[]);
    SlottedSum(before, MadeByButtons(kind, buttons, |before|, map[]), 0);
  }

  lemma MoreValuesSlotted(before: seq<Element>, kind: Kind, values: seq<Value>) returns (all: seq<Element>)
    requires SlottedFrom(before, 0)
    ensures all == before + MadeByValues(kind, values) && SlottedFrom(all, 0)
  {
    hide SlottedFrom, MadeByValues;
    all := before + MadeByValues(kind, values);
    ValuesSlotted(kind, values, |before|);
    SlottedSum(before, MadeByValues(kind, values), 0);
  }

  /** What SlottedFrom says of an element, apart from where it is linked, its
      report size, and flags that only report handlers get. */
  function SlotFacts(e: Element): Element {
    e.(next := None, reportSize := 0, variableReport := false)
  }

  lemma SlotsOfSame(a: seq<Element>, b: seq<Element>)
    requires Slotted(a) && |a| == |b|
    requires forall c: nat :: c < |a| && a[c].isArray ==> SlotFacts(b[c]) == SlotFacts(a[c])
    requires forall c: nat :: c < |a| ==> b[c].isArray == a[c].isArray
    ensures Slotted(b)
  {
    forall k: nat | k < |b| && IsData(b[k].kind) && b[k].isArray
      ensures if b[k].handler == Some(0 + k) then SlotsFollow(b, k)
              else b[k].handler.Some? && (IsOneBit(b[k]) || IsSlotAmong(b, 0, k))
    {
      SlotsOfSameAt(a, b, k);
    }
  }

  lemma SlotsOfSameAt(a: seq<Element>, b: seq<Element>, k: nat)
    requires Slotted(a) && |a| == |b| && k < |b| && IsData(b[k].kind) && b[k].isArray
    requires forall c: nat :: c < |a| && a[c].isArray ==> SlotFacts(b[c]) == SlotFacts(a[c])
    requires forall c: nat :: c < |a| ==> b[c].isArray == a[c].isArray
    ensures if b[k].handler == Some(k) then SlotsFollow(b, k)
            else b[k].handler.Some? && (IsOneBit(b[k]) || IsSlotAmong(b, 0, k))
  {
    assert a[k].isArray;
    assert SlotFacts(b[k]) == SlotFacts(a[k]) && 0 + k == k;
    SameSlotFacts(a[k], b[k]);
    if b[k].handler == Some(k) {
      assert a[k].handler == Some(0 + k) && SlotsFollow(a, k);
      forall i: nat | i < SlotCount(b[k]) ensures SlotAt(b, k, i) {
        assert SlotAt(a, k, i) && SlotFacts(b[k + 1 + i]) == SlotFacts(a[k + 1 + i]);
        SameSlotFacts(a[k + 1 + i], b[k + 1 + i]);
      }
    } else if !IsOneBit(b[k]) {
      var j: nat :| j < k && IsData(a[j].kind) && a[j].isArray && a[j].handler == Some(0 + j) == a[k].handler
                    && k <= j + SlotCount(a[j]);
      assert SlotFacts(b[j]) == SlotFacts(a[j]);
      SameSlotFacts(a[j], b[j]);
    }
  }

  lemma SameSlotFacts(a: Element, b: Element)
    requires SlotFacts(a) == SlotFacts(b)
    ensures a.kind == b.kind && a.reportID == b.reportID && a.isArray == b.isArray && a.handler == b.handler
    ensures a.isRelative == b.isRelative && a.logicalMin == b.logicalMin && a.logicalMax == b.logicalMax
    ensures a.bits == b.bits && a.count == b.count && a.startBit == b.startBit && a.variable == b.variable
    ensures a.interrupt == b.interrupt && a.usage == b.usage && a.usagePage == b.usagePage
  {
  }

  // ------------------------------- the walk of a report, by the descriptor

  /** An element apart from where it is registered. */
  function Bare(e: Element): Element {
    e.(handler := None, next := None)
  }

  /** The fields that buttons give a report: each button and the rest of its
      range, and each array once, as the slots its first usage describes. */
  function ButtonFields(kind: Kind, buttons: seq<Placed>, reportID: Byte, seen: set<ArrayKey>): seq<Element>
    decreases |buttons|
  {
    if buttons == [] then []
    else
      var b, key := buttons[0].button, KeyOf(kind, buttons[0]);
      (if b.reportID != reportID || (b.isArray && key in seen) then []
       else if b.isArray then [Bare(NewHandler(NewButton(kind, b), 0))]
       else WithSubElements(NewButton(kind, b)))
      + ButtonFields(kind, buttons[1..], reportID, if b.isArray then seen + {key} else seen)
  }

  function ValueFields(kind: Kind, values: seq<Value>, reportID: Byte): seq<Element> {
    if values == [] then []
    else
      var v := values[|values| - 1];
      ValueFields(kind, values[..|values| - 1], reportID)
      + if v.reportID == reportID then WithSubElements(NewValue(kind, v)) else []
  }

  function HandlerFields(reports: seq<ReportSizes>, reportID: Byte): seq<Element> {
    if reports == [] then []
    else
      var r := reports[|reports| - 1];
      HandlerFields(reports[..|reports| - 1], reportID) + if r.reportID == reportID then MadeByReport(r) else []
  }

  /** Everything that a descriptor says a report is read into. */
  function ReportFields(d: Descriptor, reportID: Byte, reportType: ReportType): seq<Element> {
    match reportType
    case InputReport =>
      ButtonFields(InputData, d.inputButtons, reportID, {}) + ValueFields(InputData, d.inputValues, reportID)
      + HandlerFields(d.reports, reportID)
    case OutputReport =>
      ButtonFields(OutputData, d.outputButtons, reportID, {}) + ValueFields(OutputData, d.outputValues, reportID)
    case FeatureReport =>
      ButtonFields(FeatureData, d.featureButtons, reportID, {}) + ValueFields(FeatureData, d.featureValues, reportID)
  }

  /** The elements `v` are these fields, the last one first. */
  ghost predicate TakesInTurn(elements: seq<Element>, v: seq<nat>, fields: seq<Element>) {
    |v| == |fields| && forall i :: 0 <= i < |v| ==> v[i] < |elements| && Bare(elements[v[i]]) == fields[|v| - 1 - i]
  }

  /** For every descriptor, and every report ID and type: the walk of a report
      takes exactly the fields that the descriptor gives it, each once, the one
      listed last first. */
  lemma WalkTakesDescriptor(d: Descriptor, elements: seq<Element>, heads: Heads, reportID: Byte, reportType: ReportType)
    requires Linked(elements) && Headed(elements, heads) && Grouped(elements) && Unlinked(elements) == Made(d)
    ensures var at := Head(heads, Slot(reportID), reportType);
      && OnChain(elements, at, reportID, reportType)
      && TakesInTurn(elements, Walk(elements, at, reportID, reportType), ReportFields(d, reportID, reportType))
  {
    var at := Head(heads, Slot(reportID), reportType);
    NothingAbove(elements, heads, reportID, reportType);
    hide Linked, Headed, Grouped, InChain, Head, Takers, FieldsAmong, Made, ReportFields, Walk, Wanted, TakesInTurn, Reverse, Bare;
    WalkTakes(elements, at, reportID, reportType);
    TakersSkip(elements, Upto(at), |elements|, reportID, reportType);
    TakersAre(elements, |elements|, reportID, reportType);
    assert Unlinked(elements)[..|elements|] == Made(d);
    MadeFields(d, reportID, reportType);
    TurnedRound(elements, Walk(elements, at, reportID, reportType), Takers(elements, |elements|, reportID, reportType),
                ReportFields(d, reportID, reportType));
  }

  lemma TurnedRound(elements: seq<Element>, v: seq<nat>, w: seq<nat>, fields: seq<Element>)
    requires Reverse(v, w) && |w| == |fields|
    requires forall i :: 0 <= i < |w| ==> w[i] < |elements| && Bare(elements[w[i]]) == fields[i]
    ensures TakesInTurn(elements, v, fields)
  {
  }

  lemma NothingAbove(elements: seq<Element>, heads: Heads, reportID: Byte, reportType: ReportType)
    requires Headed(elements, heads)
    ensures var at := Head(heads, Slot(reportID), reportType);
      && OnChain(elements, at, reportID, reportType)
      && forall c: nat :: Upto(at) <= c < |elements| ==> !Wanted(elements, reportID, reportType, c)
  {
    var at := Head(heads, Slot(reportID), reportType);
    assert at == Before(elements, |elements|, Slot(reportID), reportType);
    forall c: nat | Upto(at) <= c < |elements| ensures !Wanted(elements, reportID, reportType, c) {
      assert !InChain(elements[c], Slot(reportID), reportType);
    }
  }

  /** The element, at cookie `c`, takes reports of this ID and type. */
  predicate TakesReport(e: Element, c: nat, reportID: Byte, reportType: ReportType) {
    e.In(reportID, reportType) && e.kind != InputNull && !(IsData(e.kind) && e.isArray && e.handler != Some(c))
  }

  /** The cookies, up to `n`, of the elements that take a report. */
  function Takers(elements: seq<Element>, n: nat, reportID: Byte, reportType: ReportType): (v: seq<nat>)
    requires n <= |elements|
    ensures forall i :: 0 <= i < |v| ==> v[i] < n
  {
    if n == 0 then []
    else
      Takers(elements, n - 1, reportID, reportType) + if Wanted(elements, reportID, reportType, n - 1) then [n - 1] else []
  }

  lemma {:induction false} TakersSkip(elements: seq<Element>, m: nat, n: nat, reportID: Byte, reportType: ReportType)
    requires m <= n <= |elements| && forall c: nat :: m <= c < n ==> !Wanted(elements, reportID, reportType, c)
    ensures Takers(elements, n, reportID, reportType) == Takers(elements, m, reportID, reportType)
  {
    if m < n {
      TakersSkip(elements, m, n - 1, reportID, reportType);
    }
  }

  predicate Reverse(v: seq<nat>, w: seq<nat>) {
    |v| == |w| && forall i :: 0 <= i < |v| ==> v[i] == w[|w| - 1 - i]
  }

  lemma ReverseCons(x: nat, v: seq<nat>, w: seq<nat>)
    requires Reverse(v, w)
    ensures Reverse([x] + v, w + [x])
  {
  }

  /** The walk takes the takers from the last to the first. */
  lemma {:induction false} WalkTakes(elements: seq<Element>, at: Option<nat>, reportID: Byte, reportType: ReportType)
    requires Linked(elements) && Grouped(elements) && OnChain(elements, at, reportID, reportType)
    ensures Reverse(Walk(elements, at, reportID, reportType), Takers(elements, Upto(at), reportID, reportType))
    decreases Upto(at)
  {
    hide Linked, Grouped, Reverse, Wanted, Step, InChain;
    if at.Some? {
      var n := Step(elements, at.value, reportID);
      StepSkipsNothing(elements, at.value, reportID, reportType);
      WalkTakes(elements, n, reportID, reportType);
      TakersSkip(elements, Upto(n), at.value, reportID, reportType);
      var rest := Walk(elements, n, reportID, reportType);
      if Wanted(elements, reportID, reportType, at.value) {
        ReverseCons(at.value, rest, Takers(elements, at.value, reportID, reportType));
      } else {
        assert Takers(elements, at.value + 1, reportID, reportType) == Takers(elements, at.value, reportID, reportType);
      }
    } else {
      NothingReversed();
    }
  }

  lemma NothingReversed()
    ensures Reverse([], [])
  {
  }

  /** The fields among elements from cookie `from` on. */
  function FieldsAmong(made: seq<Element>, from: nat, reportID: Byte, reportType: ReportType): seq<Element> {
    if made == [] then []
    else
      var last := |made| - 1;
      FieldsAmong(made[..last], from, reportID, reportType)
      + if TakesReport(made[last], from + last, reportID, reportType) then [Bare(made[last])] else []
  }

  lemma {:induction false} TakersAre(elements: seq<Element>, n: nat, reportID: Byte, reportType: ReportType)
    requires n <= |elements|
    ensures var v, fields := Takers(elements, n, reportID, reportType), FieldsAmong(Unlinked(elements)[..n], 0, reportID, reportType);
      |v| == |fields| && forall i :: 0 <= i < |v| ==> Bare(elements[v[i]]) == fields[i]
    decreases n
  {
    if n > 0 {
      TakersAre(elements, n - 1, reportID, reportType);
      var all := Unlinked(elements);
      assert all[..n][..n - 1] == all[..n - 1] && all[..n][n - 1] == all[n - 1];
      assert Wanted(elements, reportID, reportType, n - 1) <==> TakesReport(all[n - 1], n - 1, reportID, reportType);
    }
  }

  lemma {:induction false} FieldsOfSum(a: seq<Element>, b: seq<Element>, from: nat, reportID: Byte, reportType: ReportType)
    ensures FieldsAmong(a + b, from, reportID, reportType)
            == FieldsAmong(a, from, reportID, reportType) + FieldsAmong(b, from + |a|, reportID, reportType)
    decreases |b|
  {
    if b == [] {
      assert a + b == a;
    } else {
      var last := |b| - 1;
      FieldsOfSum(a, b[..last], from, reportID, reportType);
      assert (a + b)[..|a| + last] == a + b[..last];
    }
  }

  /** None of the elements takes the report. */
  lemma {:induction false} NoFields(made: seq<Element>, from: nat, reportID: Byte, reportType: ReportType)
    requires forall i: nat :: i < |made| ==> !TakesReport(made[i], from + i, reportID, reportType)
    ensures FieldsAmong(made, from, reportID, reportType) == []
    decreases |made|
  {
    if made != [] {
      NoFields(made[..|made| - 1], from, reportID, reportType);
    }
  }

  /** All of the elements take the report. */
  lemma {:induction false} AllFields(made: seq<Element>, from: nat, reportID: Byte, reportType: ReportType)
    requires forall i: nat :: i < |made| ==> TakesReport(made[i], from + i, reportID, reportType) && Bare(made[i]) == made[i]
    ensures FieldsAmong(made, from, reportID, reportType) == made
    decreases |made|
  {
    if made != [] {
      var last := |made| - 1;
      AllFields(made[..last], from, reportID, reportType);
      assert made == made[..last] + [made[last]];
    }
  }

  /** An element that is no array, with its range: all of it or nothing. */
  lemma RangeFields(e: Element, from: nat, reportID: Byte, reportType: ReportType)
    requires IsData(e.kind) && !e.isArray && e.handler == None && e.next == None
    ensures FieldsAmong(WithSubElements(e), from, reportID, reportType) == if e.In(reportID, reportType) then WithSubElements(e) else []
  {
    var made := WithSubElements(e);
    SubElementsLike(e);
    if e.In(reportID, reportType) {
      AllFields(made, from, reportID, reportType);
    } else {
      NoFields(made, from, reportID, reportType);
    }
  }

  lemma SubElementsLike(e: Element)
    requires e.next == None
    ensures forall f <- WithSubElements(e) :: f.kind == e.kind && f.reportID == e.reportID && f.isArray == e.isArray
                                              && f.handler == e.handler && f.next == None
  {
    var s := SubElements(e, e.StartingRangeIndex(), e.RangeCount());
    assert WithSubElements(e) == [e] + s;
    forall f | f in s ensures f.kind == e.kind && f.reportID == e.reportID && f.isArray == e.isArray
                              && f.handler == e.handler && f.next == None {
      var i :| 0 <= i < |s| && s[i] == f;
      assert f == SubElement(e, e.StartingRangeIndex() + i);
    }
  }

  /** Items take no report. */
  lemma ItemFields(e: Element, from: nat, reportID: Byte, reportType: ReportType)
    requires IsData(e.kind) && e.isArray && e.handler.Some? && e.handler.value < from && e.next == None
    ensures FieldsAmong(WithSubElements(e), from, reportID, reportType) == []
  {
    SubElementsLike(e);
    NoFields(WithSubElements(e), from, reportID, reportType);
  }

  /** A handler takes the report of its array, its duplicates do not. */
  lemma ArrayFields(child: Element, n: nat, reportID: Byte, reportType: ReportType)
    requires IsData(child.kind) && child.isArray
    ensures FieldsAmong(WithSubElements(NewHandler(child, n)), n, reportID, reportType)
            == if child.In(reportID, reportType) then [Bare(NewHandler(child, 0))] else []
  {
    var h := NewHandler(child, n);
    var made := WithSubElements(h);
    SubElementsLike(h);
    assert made == [h] + made[1..];
    FieldsOfSum([h], made[1..], n, reportID, reportType);
    NoFields(made[1..], n + 1, reportID, reportType);
    assert FieldsAmong([h], n, reportID, reportType) == if TakesReport(h, n, reportID, reportType) then [Bare(h)] else [] by {
      assert [h][..0] == [];
    }
  }

  lemma ButtonField(kind: Kind, p: Placed, n: nat, arrays: Arrays, reportID: Byte, reportType: ReportType)
    requires IsData(kind) && forall k <- arrays :: arrays[k] < n
    ensures var b, key := p.button, KeyOf(kind, p);
      FieldsAmong(MadeByButton(kind, b, p.parent, n, arrays), n, reportID, reportType)
      == if TypeOf(kind) != Some(reportType) || b.reportID != reportID || (b.isArray && key in arrays) then []
         else if b.isArray then [Bare(NewHandler(NewButton(kind, b), 0))]
         else WithSubElements(NewButton(kind, b))
  {
    hide FieldsAmong, WithSubElements;
    var b, key := p.button, KeyOf(kind, p);
    var e := NewButton(kind, b);
    if !b.isArray {
      RangeFields(e, n, reportID, reportType);
    } else if key in arrays {
      ItemFields(AsItem(e, arrays[key]), n, reportID, reportType);
    } else {
      var handlers := WithSubElements(NewHandler(e, n));
      ArrayFields(e, n, reportID, reportType);
      ItemFields(AsItem(e, n), n + |handlers|, reportID, reportType);
      FieldsOfSum(handlers, WithSubElements(AsItem(e, n)), n, reportID, reportType);
    }
  }

  lemma {:induction false} ButtonsFields(kind: Kind, buttons: seq<Placed>, n: nat, arrays: Arrays, reportID: Byte, reportType: ReportType)
    requires IsData(kind) && forall k <- arrays :: arrays[k] < n
    ensures FieldsAmong(MadeByButtons(kind, buttons, n, arrays), n, reportID, reportType)
            == if TypeOf(kind) == Some(reportType) then ButtonFields(kind, buttons, reportID, arrays.Keys) else []
    decreases |buttons|
  {
    hide FieldsAmong, MadeByButton, ArraysAfter, KeyOf;
    if buttons != [] {
      var b, parent := buttons[0].button, buttons[0].parent;
      var made, after := MadeByButton(kind, b, parent, n, arrays), ArraysAfter(kind, b, parent, n, arrays);
      ButtonField(kind, buttons[0], n, arrays, reportID, reportType);
      KeysAfter(kind, buttons[0], n, arrays);
      ButtonsFields(kind, buttons[1..], n + |made|, after, reportID, reportType);
      FieldsOfSum(made, MadeByButtons(kind, buttons[1..], n + |made|, after), n, reportID, reportType);
    } else {
      assert FieldsAmong([], n, reportID, reportType) == [] by {
        NoFields([], n, reportID, reportType);
      }
    }
  }

  lemma KeysAfter(kind: Kind, p: Placed, n: nat, arrays: Arrays)
    requires forall k <- arrays :: arrays[k] < n
    ensures var after, b := ArraysAfter(kind, p.button, p.parent, n, arrays), p.button;
      && after.Keys == (if b.isArray then arrays.Keys + {KeyOf(kind, p)} else arrays.Keys)
      && forall k <- after :: after[k] < n + |MadeByButton(kind, b, p.parent, n, arrays)|
  {
  }

  lemma {:induction false} ValuesFields(kind: Kind, values: seq<Value>, n: nat, reportID: Byte, reportType: ReportType)
    requires IsData(kind)
    ensures FieldsAmong(MadeByValues(kind, values), n, reportID, reportType)
            == if TypeOf(kind) == Some(reportType) then ValueFields(kind, values, reportID) else []
    decreases |values|
  {
    hide FieldsAmong, WithSubElements;
    if values == [] {
      NoFields([], n, reportID, reportType);
    } else {
      var most, e := values[..|values| - 1], NewValue(kind, values[|values| - 1]);
      ValuesFields(kind, most, n, reportID, reportType);
      RangeFields(e, n + |MadeByValues(kind, most)|, reportID, reportType);
      FieldsOfSum(MadeByValues(kind, most), WithSubElements(e), n, reportID, reportType);
    }
  }

  lemma {:induction false} ReportsFields(reports: seq<ReportSizes>, n: nat, reportID: Byte, reportType: ReportType)
    ensures FieldsAmong(MadeByReports(reports), n, reportID, reportType)
            == if reportType == InputReport then HandlerFields(reports, reportID) else []
    decreases |reports|
  {
    if reports != [] {
      var most, last := reports[..|reports| - 1], MadeByReport(reports[|reports| - 1]);
      var before := |MadeByReports(most)|;
      ReportsFields(most, n, reportID, reportType);
      FieldsOfSum(MadeByReports(most), last, n, reportID, reportType);
      if reports[|reports| - 1].reportID == reportID && reportType == InputReport {
        AllFields(last, n + before, reportID, reportType);
      } else {
        NoFields(last, n + before, reportID, reportType);
      }
    }
  }

  lemma {:induction false} NullsFields(reports: seq<ReportSizes>, n: nat, m: nat, reportID: Byte, reportType: ReportType)
    ensures FieldsAmong(MadeByNulls(reports, n), m, reportID, reportType) == []
    decreases |reports|
  {
    hide FieldsAmong, MadeByNull;
    if reports != [] {
      var last := |reports| - 1;
      NullsFields(reports[..last], n, m, reportID, reportType);
      FieldsOfSum(MadeByNulls(reports[..last], n), MadeByNull(reports[last].reportID, n + 2 * last), m, reportID, reportType);
      NullFields(reports[last].reportID, n + 2 * last, m + 2 * last, reportID, reportType);
    } else {
      NoFields([], m, reportID, reportType);
    }
  }

  lemma NullFields(id: Byte, n: nat, m: nat, reportID: Byte, reportType: ReportType)
    ensures FieldsAmong(MadeByNull(id, n), m, reportID, reportType) == []
  {
    NoFields(MadeByNull(id, n), m, reportID, reportType);
  }

  /** The fields of all elements of a descriptor are the fields it gives a report. */
  lemma MadeFields(d: Descriptor, reportID: Byte, reportType: ReportType)
    ensures FieldsAmong(Made(d), 0, reportID, reportType) == ReportFields(d, reportID, reportType)
  {
    hide FieldsAmong, MadeByNulls, MadeByButtons, MadeByValues, MadeByReports, ButtonFields, ValueFields, HandlerFields;
    var first, nulls := MadeByCollections(d.collections), MadeByNulls(d.reports, |MadeByCollections(d.collections)|);
    NoFields(first, 0, reportID, reportType);
    NullsFields(d.reports, |first|, |first|, reportID, reportType);
    FieldsOfSum(first, nulls, 0, reportID, reportType);
    var all := first + nulls;
    all := NextButtons(all, InputData, d.inputButtons, reportID, reportType);
    all := NextButtons(all, OutputData, d.outputButtons, reportID, reportType);
    all := NextButtons(all, FeatureData, d.featureButtons, reportID, reportType);
    all := NextValues(all, InputData, d.inputValues, reportID, reportType);
    all := NextValues(all, OutputData, d.outputValues, reportID, reportType);
    all := NextValues(all, FeatureData, d.featureValues, reportID, reportType);
    ReportsFields(d.reports, |all|, reportID, reportType);
    FieldsOfSum(all, MadeByReports(d.reports), 0, reportID, reportType);
  }

  lemma NextButtons(before: seq<Element>, kind: Kind, buttons: seq<Placed>, reportID: Byte, reportType: ReportType) returns (all: seq<Element>)
    requires IsData(kind)
    ensures all == before + MadeByButtons(kind, buttons, |before|, map[])
    ensures FieldsAmong(all, 0, reportID, reportType)
            == FieldsAmong(before, 0, reportID, reportType)
               + if TypeOf(kind) == Some(reportType) then ButtonFields(kind, buttons, reportID, {}) else []
  {
    hide FieldsAmong, MadeByButtons, ButtonFields;
    var none: Arrays := map[];
    all := before + MadeByButtons(kind, buttons, |before|, none);
    ButtonsFields(kind, buttons, |before|, none, reportID, reportType);
    FieldsOfSum(before, MadeByButtons(kind, buttons, |before|, none), 0, reportID, reportType);
    assert none.Keys == {};
  }

  lemma NextValues(before: seq<Element>, kind: Kind, values: seq<Value>, reportID: Byte, reportType: ReportType) returns (all: seq<Element>)
    requires IsData(kind)
    ensures all == before + MadeByValues(kind, values)
    ensures FieldsAmong(all, 0, reportID, reportType)
            == FieldsAmong(before, 0, reportID, reportType)
               + if TypeOf(kind) == Some(reportType) then ValueFields(kind, values, reportID) else []
  {
    hide FieldsAmong, MadeByValues, ValueFields;
    all := before + MadeByValues(kind, values);
    ValuesFields(kind, values, |before|, reportID, reportType);
    FieldsOfSum(before, MadeByValues(kind, values), 0, reportID, reportType);
  }

  function KeyOf(kind: Kind, p: Placed): ArrayKey {
    ArrayKey(p.parent, kind, p.button.startBit, p.button.reportID)
  }

  /** Between two usages of one array, the report has only usages of that array. */
  ghost predicate Contiguous(kind: Kind, buttons: seq<Placed>) {
    forall i, j :: 0 <= i < j < |buttons| && SameArray(kind, buttons[i], buttons[j]) ==> SoFar(kind, buttons, i, j)
  }

  predicate SameArray(kind: Kind, p: Placed, q: Placed) {
    p.button.isArray && q.button.isArray && KeyOf(kind, p) == KeyOf(kind, q)
  }

  /** Between `i` and `n`, the report of button `i` has only usages of its array. */
  ghost predicate SoFar(kind: Kind, buttons: seq<Placed>, i: nat, n: nat)
    requires i < |buttons| && n <= |buttons|
  {
    forall k :: i < k < n && buttons[k].button.reportID == buttons[i].button.reportID ==>
                  buttons[k].button.isArray && KeyOf(kind, buttons[k]) == KeyOf(kind, buttons[i])
  }

  /** One entry for every report ID, and the usages of an array together. */
  ghost predicate ParsedWell(d: Descriptor) {
    && (forall i, j :: 0 <= i < j < |d.reports| ==> d.reports[i].reportID != d.reports[j].reportID)
    && Contiguous(InputData, d.inputButtons) && Contiguous(OutputData, d.outputButtons) && Contiguous(FeatureData, d.featureButtons)
  }

  ghost predicate ListedBefore(kind: Kind, buttons: seq<Placed>, n: nat, key: ArrayKey)
    requires n <= |buttons|
  {
    exists i :: 0 <= i < n && buttons[i].button.isArray && KeyOf(kind, buttons[i]) == key
  }

  /** An array to which its report has added last is still open. */
  ghost predicate Recent(kind: Kind, buttons: seq<Placed>, n: nat, elements: seq<Element>, arrays: Arrays)
    requires n <= |buttons|
  {
    forall i: nat :: i < n && buttons[i].button.isArray && SoFar(kind, buttons, i, n) ==>
                       KeyOf(kind, buttons[i]) in arrays && arrays[KeyOf(kind, buttons[i])] < |elements|
                       && Open(elements, arrays[KeyOf(kind, buttons[i])])
  }

  /** The construction after `n` buttons: what has been made, and which arrays
      are known and open. */
  ghost predicate ButtonsDone(kind: Kind, buttons: seq<Placed>, n: nat, first: seq<Element>, known: Arrays,
                              elements: seq<Element>, arrays: Arrays, made: seq<Element>, own: Arrays)
  {
    && n <= |buttons| && Adds(first, elements, made) && OwnArrays(kind, arrays, own)
    && made + MadeByButtons(kind, buttons[n..], |elements|, own) == MadeByButtons(kind, buttons, |first|, map[])
    && (forall k <- arrays :: k in known || (k.kind == kind && ListedBefore(kind, buttons, n, k)))
    && Recent(kind, buttons, n, elements, arrays)
  }

  lemma NoButtonsDone(kind: Kind, buttons: seq<Placed>, elements: seq<Element>, arrays: Arrays)
    requires forall k <- arrays :: k.kind != kind
    ensures ButtonsDone(kind, buttons, 0, elements, arrays, elements, arrays, [], map[])
  {
    AddsNothing(elements);
    assert buttons[0..] == buttons;
  }

  lemma StillOpen(kind: Kind, buttons: seq<Placed>, n: nat, elements: seq<Element>, arrays: Arrays, made: seq<Element>, own: Arrays,
                  first: seq<Element>, known: Arrays)
    requires Contiguous(kind, buttons) && n < |buttons| && forall k <- known :: k.kind != kind
    requires ButtonsDone(kind, buttons, n, first, known, elements, arrays, made, own)
    ensures var key := KeyOf(kind, buttons[n]);
      buttons[n].button.isArray && key in arrays ==> arrays[key] < |elements| && Open(elements, arrays[key])
  {
    var key := KeyOf(kind, buttons[n]);
    if buttons[n].button.isArray && key in arrays {
      assert ListedBefore(kind, buttons, n, key);
      var i :| 0 <= i < n && buttons[i].button.isArray && KeyOf(kind, buttons[i]) == key;
      assert SameArray(kind, buttons[i], buttons[n]);
      assert SoFar(kind, buttons, i, n);
    }
  }

  lemma NextButtonDone(kind: Kind, buttons: seq<Placed>, n: nat, first: seq<Element>, known: Arrays,
                       before: seq<Element>, were: Arrays, now: seq<Element>, heads: Heads, arrays: Arrays,
                       made: seq<Element>, own: Arrays)
    requires n < |buttons| && ButtonsDone(kind, buttons, n, first, known, before, were, made, own)
    requires KnownArrays(before, were) && Chained(now, heads, arrays)
    requires var b, parent := buttons[n].button, buttons[n].parent;
      && Adds(before, now, MadeByButton(kind, b, parent, |before|, were))
      && arrays == ArraysAfter(kind, b, parent, |before|, were)
      && (b.isArray ==> var key := KeyOf(kind, buttons[n]); arrays[key] < |now| && Open(now, arrays[key]))
    ensures var b, parent := buttons[n].button, buttons[n].parent;
      ButtonsDone(kind, buttons, n + 1, first, known, now, arrays,
                  made + MadeByButton(kind, b, parent, |before|, were), ArraysAfter(kind, b, parent, |before|, own))
  {
    hide MadeByButton, MadeByButtons, Recent, OwnArrays, ListedBefore, ArraysAfter, Grouped, Linked, Headed, KnownArrays, Open;
    var b, parent := buttons[n].button, buttons[n].parent;
    var more := MadeByButton(kind, b, parent, |before|, were);
    MadeByOwn(kind, b, parent, |before|, were, own);
    MadeByRest(kind, buttons, n, |before|, own);
    ButtonAddedTo(kind, b, parent, before, were, now);
    RecentNext(kind, buttons, n, before, were, now, arrays);
    AddsMore(first, before, now, made, more);
    ListedNext(kind, buttons, n, known, were, arrays, |before|);
    assert |now| == |before| + |more| by {
      assert |Unlinked(now)| == |Unlinked(before) + more|;
    }
    MovedOver(made, more, MadeByButtons(kind, buttons[n + 1..], |now|, ArraysAfter(kind, b, parent, |before|, own)));
  }

  lemma MovedOver(a: seq<Element>, b: seq<Element>, c: seq<Element>)
    ensures a + (b + c) == (a + b) + c
  {
  }

  lemma ListedNext(kind: Kind, buttons: seq<Placed>, n: nat, known: Arrays, were: Arrays, arrays: Arrays, h: nat)
    requires n < |buttons| && arrays == ArraysAfter(kind, buttons[n].button, buttons[n].parent, h, were)
    requires forall k <- were :: k in known || (k.kind == kind && ListedBefore(kind, buttons, n, k))
    ensures forall k <- arrays :: k in known || (k.kind == kind && ListedBefore(kind, buttons, n + 1, k))
  {
    forall k | k in arrays && k !in known ensures k.kind == kind && ListedBefore(kind, buttons, n + 1, k) {
      if k in were {
        assert ListedBefore(kind, buttons, n, k);
      } else {
        assert buttons[n].button.isArray && KeyOf(kind, buttons[n]) == k;
      }
    }
  }

  lemma AllButtonsDone(kind: Kind, buttons: seq<Placed>, first: seq<Element>, known: Arrays,
                       elements: seq<Element>, arrays: Arrays, made: seq<Element>, own: Arrays)
    requires ButtonsDone(kind, buttons, |buttons|, first, known, elements, arrays, made, own)
    ensures Adds(first, elements, MadeByButtons(kind, buttons, |first|, map[]))
    ensures forall k <- arrays :: k in known || k.kind == kind
  {
    assert buttons[|buttons|..] == [] && made + [] == made;
  }

  lemma OpenToOthers(before: seq<Element>, now: seq<Element>, kind: Kind, reportID: Byte, h: nat)
    requires Extends(before, now) && AddedTo(now, |before|, kind, reportID) && h < |before| && Open(before, h)
    requires before[h].reportID != reportID
    ensures Open(now, h)
  {
    assert now[h] == now[..|before|][h];
    forall d: nat | h < d < |now| && SameReport(now[h], now[d]) ensures IsItem(now, d) && now[d].handler == Some(h) {
      assert d < |before|;
      assert now[d] == now[..|before|][d];
      assert SameReport(before[h], before[d]) && IsItem(before, d);
    }
  }

  lemma RecentNext(kind: Kind, buttons: seq<Placed>, n: nat, before: seq<Element>, were: Arrays, now: seq<Element>, arrays: Arrays)
    requires n < |buttons| && Recent(kind, buttons, n, before, were) && KnownArrays(before, were)
    requires Extends(before, now) && AddedTo(now, |before|, kind, buttons[n].button.reportID) && KnownArrays(now, arrays)
    requires var key := KeyOf(kind, buttons[n]);
      && arrays == ArraysAfter(kind, buttons[n].button, buttons[n].parent, |before|, were)
      && (buttons[n].button.isArray ==> arrays[key] < |now| && Open(now, arrays[key]))
    ensures Recent(kind, buttons, n + 1, now, arrays)
  {
    var b := buttons[n].button;
    forall i: nat | i < n + 1 && buttons[i].button.isArray && SoFar(kind, buttons, i, n + 1)
      ensures KeyOf(kind, buttons[i]) in arrays && arrays[KeyOf(kind, buttons[i])] < |now|
              && Open(now, arrays[KeyOf(kind, buttons[i])])
    {
      var key := KeyOf(kind, buttons[i]);
      if i < n && b.reportID != buttons[i].button.reportID {
        assert SoFar(kind, buttons, i, n);
        OpenToOthers(before, now, kind, b.reportID, were[key]);
        assert arrays[key] == were[key];
      } else if i < n {
        assert b.isArray && KeyOf(kind, buttons[n]) == key;
      }
    }
  }

  /** The construction after `n` NULL elements, above nothing but collections. */
  ghost predicate NullsDone(d: Descriptor, n: nat, first: seq<Element>, elements: seq<Element>, arrays: Arrays) {
    && n <= |d.reports| && Adds(first, elements, MadeByNulls(d.reports[..n], |first|))
    && (forall c: nat :: c < |elements| ==> elements[c].kind == Collection || elements[c].kind == InputNull)
    && forall k <- arrays :: k.kind == InputNull && HasReport(d, n, k.reportID)
  }

  ghost predicate HasReport(d: Descriptor, n: nat, reportID: Byte)
    requires n <= |d.reports|
  {
    exists j :: 0 <= j < n && d.reports[j].reportID == reportID
  }

  lemma NoNullsDone(d: Descriptor, elements: seq<Element>)
    requires forall c: nat :: c < |elements| ==> elements[c].kind == Collection
    ensures NullsDone(d, 0, elements, elements, map[])
  {
    AddsNothing(elements);
  }

  lemma MayAddNull(d: Descriptor, n: nat, first: seq<Element>, elements: seq<Element>, arrays: Arrays)
    requires ParsedWell(d) && n < |d.reports| && NullsDone(d, n, first, elements, arrays)
    ensures ArrayKey(0, InputNull, 0, d.reports[n].reportID) !in arrays
    ensures forall c: nat :: c < |elements| && TypeOf(elements[c].kind).Some? ==> elements[c].kind == InputNull
  {
    forall k | k in arrays ensures k.reportID != d.reports[n].reportID {
      assert HasReport(d, n, k.reportID);
    }
  }

  lemma NextNullDone(d: Descriptor, n: nat, first: seq<Element>, before: seq<Element>, were: Arrays,
                     now: seq<Element>, arrays: Arrays)
    requires n < |d.reports| && NullsDone(d, n, first, before, were)
    requires var reportID := d.reports[n].reportID;
      && Adds(before, now, MadeByNull(reportID, |before|))
      && arrays == were[ArrayKey(0, InputNull, 0, reportID) := |before| + 1]
    ensures NullsDone(d, n + 1, first, now, arrays)
  {
    var reportID := d.reports[n].reportID;
    OnlyNulls(before, now, reportID);
    AddsMore(first, before, now, MadeByNulls(d.reports[..n], |first|), MadeByNull(reportID, |before|));
    assert d.reports[..n + 1][..n] == d.reports[..n];
    assert |before| == |first| + 2 * n by {
      assert |Unlinked(before)| == |Unlinked(first) + MadeByNulls(d.reports[..n], |first|)|;
    }
    forall k | k in arrays ensures k.kind == InputNull && HasReport(d, n + 1, k.reportID) {
      if k in were {
        assert HasReport(d, n, k.reportID);
      } else {
        assert d.reports[n].reportID == k.reportID;
      }
    }
  }

  lemma AllNullsDone(d: Descriptor, first: seq<Element>, elements: seq<Element>, arrays: Arrays)
    requires NullsDone(d, |d.reports|, first, elements, arrays)
    ensures Adds(first, elements, MadeByNulls(d.reports, |first|)) && forall k <- arrays :: k.kind == InputNull
  {
    assert d.reports[..|d.reports|] == d.reports;
  }

  lemma OnlyNulls(before: seq<Element>, now: seq<Element>, reportID: Byte)
    requires Adds(before, now, MadeByNull(reportID, |before|))
    requires forall c: nat :: c < |before| ==> before[c].kind == Collection || before[c].kind == InputNull
    ensures forall c: nat :: c < |now| ==> now[c].kind == Collection || now[c].kind == InputNull
  {
    forall c: nat | c < |now| ensures now[c].kind == Collection || now[c].kind == InputNull {
      if c < |before| {
        assert now[c] == now[..|before|][c];
      } else {
        AddedAt(before, now, MadeByNull(reportID, |before|), c - |before|);
        assert now[c].kind == now[c].(next := None).kind;
      }
    }
  }

  /** An array element's handler is known, and its array is open. */
  ghost predicate MayHaveItems(elements: seq<Element>, e: Element) {
    e.isArray ==>
      && !e.interrupt
      && e.handler.Some? && e.handler.value < |elements|
      && IsData(elements[e.handler.value].kind) && elements[e.handler.value].isArray
      && elements[e.handler.value].handler == e.handler
      && SameReport(elements[e.handler.value], e) && Open(elements, e.handler.value)
  }

  lemma SubElementFollows(elements: seq<Element>, heads: Heads, e: Element, index: nat)
    requires IsData(e.kind) && MayHaveItems(elements, e)
    ensures MayFollow(elements, SubElement(e, index))
    ensures MayHaveItems(Registered(elements, heads, SubElement(e, index)).0, e)
  {
    var sub := SubElement(e, index);
    var all := Registered(elements, heads, sub).0;
    var f := all[|elements|];
    assert all == elements + [f] && f == sub.(next := f.next);
    if e.isArray {
      OpenStays(elements, f, e.handler.value);
    }
  }

  /** A handler that was registered last has an open array. */
  lemma HandlerRegistered(elements: seq<Element>, e: Element, h: nat)
    requires |elements| == h + 1 && elements[h].(next := None) == e && e.handler == Some(h) && e.isArray && IsData(e.kind)
    requires !e.interrupt
    ensures MayHaveItems(elements, e)
  {
    assert elements[h] == e.(next := elements[h].next);
  }

  lemma KnownAdded(elements: seq<Element>, arrays: Arrays, key: ArrayKey, h: nat)
    requires KnownArrays(elements, arrays) && h < |elements| && elements[h].(next := None).isArray
    requires var e := elements[h].(next := None);
      e.handler == Some(h) && e.kind == key.kind && e.startBit == key.startBit && e.reportID == key.reportID
    ensures KnownArrays(elements, arrays[key := h]) && IsHandler(elements, h, key)
  {
  }

  lemma ItemFollows(elements: seq<Element>, heads: Heads, e: Element)
    requires IsData(e.kind) && MayHaveItems(elements, e)
    ensures MayFollow(elements, e)
    ensures MayHaveItems(Registered(elements, heads, e).0, e)
  {
    var all := Registered(elements, heads, e).0;
    var f := all[|elements|];
    assert all == elements + [f] && f == e.(next := f.next);
    if e.isArray {
      OpenStays(elements, f, e.handler.value);
    }
  }

  lemma {:induction false} BeforeOfSame(a: seq<Element>, b: seq<Element>, c: nat, slot: nat, reportType: ReportType)
    requires |a| == |b| && c <= |a| && forall d: nat :: d < |a| ==> a[d].kind == b[d].kind && a[d].reportID == b[d].reportID
    ensures Before(a, c, slot, reportType) == Before(b, c, slot, reportType)
  {
    if c > 0 {
      BeforeOfSame(a, b, c - 1, slot, reportType);
    }
  }

  /** Changing what a NULL element says of arrays and bits changes no chain. */
  lemma UpdateNull(elements: seq<Element>, heads: Heads, arrays: Arrays, c: nat, item: Element)
    requires Chained(elements, heads, arrays) && c < |elements| && elements[c].kind == InputNull
    requires item == AsItem(elements[c], c + 1) && forall k <- arrays :: arrays[k] != c
    ensures Chained(elements[c := item], heads, arrays)
  {
    var es := elements[c := item];
    forall d: nat, t | d < |es| && TypeOf(es[d].kind) == Some(t)
      ensures es[d].next == Before(es, d, Slot(es[d].reportID), t)
    {
      BeforeOfSame(elements, es, d, Slot(es[d].reportID), t);
      assert elements[d].next == Before(elements, d, Slot(elements[d].reportID), t);
    }
    forall slot, t ensures Head(heads, slot, t) == Before(es, |es|, slot, t) {
      BeforeOfSame(elements, es, |es|, slot, t);
    }
    GroupedUpdate(elements, c, item);
  }

  /** The element of a report registered last among the first `n`. */
  function Latest(elements: seq<Element>, n: nat, reportID: Byte, reportType: ReportType): (r: Option<nat>)
    requires n <= |elements|
    ensures r.Some? ==> r.value < n && elements[r.value].In(reportID, reportType)
    ensures forall d: nat :: d < n && (r.Some? ==> d > r.value) ==> !elements[d].In(reportID, reportType)
  {
    if n == 0 then None
    else if elements[n - 1].In(reportID, reportType) then Some(n - 1)
    else Latest(elements, n - 1, reportID, reportType)
  }

  lemma {:induction false} LatestBelow(elements: seq<Element>, n: nat, p: Option<nat>, reportID: Byte, reportType: ReportType)
    requires n <= |elements| && p == Before(elements, n, Slot(reportID), reportType)
    ensures Latest(elements, n, reportID, reportType)
            == Latest(elements, if p.Some? then p.value + 1 else 0, reportID, reportType)
  {
    if n > 0 && !InChain(elements[n - 1], Slot(reportID), reportType) {
      LatestBelow(elements, n - 1, p, reportID, reportType);
    }
  }

  function Upto(at: Option<nat>): nat {
    if at.Some? then at.value + 1 else 0
  }

  lemma HeadIs(elements: seq<Element>, heads: Heads, reportID: Byte, reportType: ReportType)
    requires Headed(elements, heads)
    ensures var at := Head(heads, Slot(reportID), reportType);
      && OnChain(elements, at, reportID, reportType)
      && Latest(elements, Upto(at), reportID, reportType) == Latest(elements, |elements|, reportID, reportType)
  {
    var at := Head(heads, Slot(reportID), reportType);
    assert at == Before(elements, |elements|, Slot(reportID), reportType);
    LatestBelow(elements, |elements|, at, reportID, reportType);
  }

  lemma LatestStep(elements: seq<Element>, c: nat, reportID: Byte, reportType: ReportType)
    requires c < |elements| && !elements[c].In(reportID, reportType)
    ensures Latest(elements, c + 1, reportID, reportType) == Latest(elements, c, reportID, reportType)
  {
  }

  /** Passing over an element of another report loses nothing. */
  lemma NextIs(elements: seq<Element>, c: nat, reportID: Byte, reportType: ReportType)
    requires Linked(elements) && OnChain(elements, Some(c), reportID, reportType) && elements[c].reportID != reportID
    ensures var at := elements[c].next;
      && OnChain(elements, at, reportID, reportType) && (at.Some? ==> at.value < c)
      && Latest(elements, Upto(at), reportID, reportType) == Latest(elements, c + 1, reportID, reportType)
  {
    hide Latest, Before;
    var p := Before(elements, c, Slot(reportID), reportType);
    assert elements[c].next == p;
    LatestStep(elements, c, reportID, reportType);
    LatestBelow(elements, c, p, reportID, reportType);
  }

  // ------------------------------------------------------- report sizes

  /** The same elements but for report sizes and variable-size flags. */
  ghost predicate SameShape(a: seq<Element>, b: seq<Element>) {
    |a| == |b| && forall c: nat :: c < |a| ==> Shape(b[c]) == Shape(a[c])
  }

  lemma ResizedShape(elements: seq<Element>, c: nat, bits: nat, flag: bool)
    requires c < |elements|
    ensures SameShape(elements, elements[c := elements[c].(reportSize := bits, variableReport := flag)])
  {
  }

  function Shape(e: Element): Element {
    e.(reportSize := 0, variable := false, variableReport := false)
  }

  /** Sizes and flags take no part in chains and arrays. */
  lemma ShapeKeeps(elements: seq<Element>, es: seq<Element>, heads: Heads, arrays: Arrays)
    requires Chained(elements, heads, arrays) && SameShape(elements, es)
    ensures Chained(es, heads, arrays)
  {
    ShapeKeepsLinks(elements, es, heads);
    ShapeKeepsGroups(elements, es);
    forall k | k in arrays ensures IsHandler(es, arrays[k], k) {
      assert IsHandler(elements, arrays[k], k) && Shape(es[arrays[k]]) == Shape(elements[arrays[k]]);
    }
  }

  lemma ShapeKeepsLinks(elements: seq<Element>, es: seq<Element>, heads: Heads)
    requires Linked(elements) && Headed(elements, heads) && SameShape(elements, es)
    ensures Linked(es) && Headed(es, heads)
  {
    forall d: nat | d < |es|
      ensures elements[d].kind == es[d].kind && elements[d].reportID == es[d].reportID && elements[d].next == es[d].next
    {
      assert Shape(es[d]) == Shape(elements[d]);
    }
    forall d: nat, t | d < |es| && TypeOf(es[d].kind) == Some(t)
      ensures es[d].next == Before(es, d, Slot(es[d].reportID), t)
    {
      BeforeOfSame(elements, es, d, Slot(es[d].reportID), t);
      assert elements[d].next == Before(elements, d, Slot(elements[d].reportID), t);
    }
    forall slot, t ensures Head(heads, slot, t) == Before(es, |es|, slot, t) {
      BeforeOfSame(elements, es, |es|, slot, t);
    }
  }

  lemma ShapeKeepsGroups(elements: seq<Element>, es: seq<Element>)
    requires Grouped(elements) && SameShape(elements, es)
    ensures Grouped(es)
  {
    forall d: nat | d < |es|
      ensures SameFacts(elements[d], es[d]) && (IsItem(es, d) <==> IsItem(elements, d))
    {
      assert Shape(es[d]) == Shape(elements[d]);
    }
    hide Shape;
    forall d: nat | d < |es| && IsItem(es, d) ensures es[d].handler.Some? && Handles(es, es[d].handler.value, d) {
      assert IsItem(elements, d) && Handles(elements, elements[d].handler.value, d);
    }
    forall d: nat, f: nat | d < |es| && f < d && IsItem(es, d) && es[d].handler.Some? && es[d].handler.value < f && SameReport(es[d], es[f])
      ensures IsItem(es, f)
    {
      assert IsItem(elements, d) && SameReport(elements[d], elements[f]);
      assert IsItem(elements, f);
    }
    forall d: nat, f: nat | d < |es| && f < d && es[d].kind == InputNull && SameReport(es[d], es[f])
      ensures es[f].kind == InputNull
    {
      assert SameReport(elements[d], elements[f]);
    }
  }

  predicate SameFacts(a: Element, b: Element) {
    && a.kind == b.kind && a.reportID == b.reportID && a.isArray == b.isArray && a.handler == b.handler
    && a.interrupt == b.interrupt
  }

  lemma {:induction false} LatestOfShape(a: seq<Element>, b: seq<Element>, n: nat, reportID: Byte, reportType: ReportType)
    requires SameShape(a, b) && n <= |a|
    ensures Latest(a, n, reportID, reportType) == Latest(b, n, reportID, reportType)
  {
    if n > 0 {
      assert Shape(b[n - 1]) == Shape(a[n - 1]);
      LatestOfShape(a, b, n - 1, reportID, reportType);
    }
  }

  ghost predicate HasVariable(elements: seq<Element>, reportID: Byte, reportType: ReportType) {
    exists c: nat :: c < |elements| && elements[c].In(reportID, reportType) && elements[c].variable
  }

  /** The first report handler of the report from cookie `from` on. */
  function FirstHandler(elements: seq<Element>, from: nat, reportID: Byte): (h: Option<nat>)
    requires from <= |elements|
    ensures h.Some? ==> from <= h.value < |elements| && elements[h.value].interrupt
    decreases |elements| - from
  {
    if from == |elements| then None
    else if elements[from].interrupt && elements[from].reportID == reportID then Some(from)
    else FirstHandler(elements, from + 1, reportID)
  }

  /** Only report handlers become elements of variable size. */
  ghost predicate SameVariable(a: seq<Element>, b: seq<Element>) {
    |a| == |b| && forall c: nat :: c < |a| && !a[c].interrupt ==> b[c].variable == a[c].variable
  }

  function Marked(elements: seq<Element>, reportID: Byte): (s: seq<Element>)
    ensures SameShape(elements, s) && SameVariable(elements, s)
  {
    match FirstHandler(elements, 0, reportID)
    case None => elements
    case Some(h) => elements[h := elements[h].(variable := true, variableReport := true)]
  }

  /** What setReportSize makes of the elements. */
  ghost function Sized(elements: seq<Element>, reportID: Byte, reportType: ReportType, bits: nat): (s: seq<Element>)
    ensures SameShape(elements, s) && SameVariable(elements, s)
  {
    var variable := reportType != OutputReport && HasVariable(elements, reportID, reportType);
    var marked := if variable && reportType == InputReport then Marked(elements, reportID) else elements;
    match Latest(elements, |elements|, reportID, reportType)
    case None => marked
    case Some(c) => marked[c := marked[c].(reportSize := bits, variableReport := marked[c].variableReport || variable)]
  }

  /** The element of the report that was registered last. */
  ghost predicate IsLatest(elements: seq<Element>, c: nat, reportID: Byte, reportType: ReportType) {
    && c < |elements| && elements[c].In(reportID, reportType)
    && forall d: nat :: c < d < |elements| ==> !elements[d].In(reportID, reportType)
  }

  /** The report handler of the report that was registered first. */
  ghost predicate IsFirstHandler(elements: seq<Element>, c: nat, reportID: Byte) {
    && c < |elements| && elements[c].interrupt && elements[c].reportID == reportID
    && forall d: nat :: d < c ==> !(elements[d].interrupt && elements[d].reportID == reportID)
  }

  /** Setting a size changes the size and the variable-size flags alone: the element
      registered last keeps the size, and with an element of variable size in an
      input or feature report it knows of it, as does the first report handler for
      input. */
  lemma SizedIs(elements: seq<Element>, reportID: Byte, reportType: ReportType, bits: nat, c: nat)
    requires c < |elements|
    ensures var e, s := elements[c], Sized(elements, reportID, reportType, bits)[c];
      var latest := IsLatest(elements, c, reportID, reportType);
      var marks := reportType != OutputReport && exists d: nat :: d < |elements| && elements[d].In(reportID, reportType) && elements[d].variable;
      var handles := marks && reportType == InputReport && IsFirstHandler(elements, c, reportID);
      s == e.(reportSize := if latest then bits else e.reportSize, variable := e.variable || handles,
              variableReport := e.variableReport || handles || (latest && marks))
  {
    FirstHandlerIs(elements, 0, c, reportID);
  }

  lemma {:induction false} FirstHandlerIs(elements: seq<Element>, from: nat, c: nat, reportID: Byte)
    requires from <= c < |elements|
    ensures FirstHandler(elements, from, reportID) == Some(c)
            <==> elements[c].interrupt && elements[c].reportID == reportID
                 && forall d: nat :: from <= d < c ==> !(elements[d].interrupt && elements[d].reportID == reportID)
    decreases c - from
  {
    if from < c && !(elements[from].interrupt && elements[from].reportID == reportID) {
      FirstHandlerIs(elements, from + 1, c, reportID);
    }
  }

  lemma VariableMore(a: seq<Element>, b: seq<Element>, c: seq<Element>)
    requires SameShape(a, b) && SameVariable(a, b) && SameShape(b, c) && SameVariable(b, c)
    ensures SameShape(a, c) && SameVariable(a, c)
  {
    forall d: nat | d < |a| && !a[d].interrupt ensures c[d].variable == a[d].variable {
      assert Shape(b[d]) == Shape(a[d]);
      assert b[d].interrupt == Shape(b[d]).interrupt;
    }
  }

  /** The slots of arrays are there in every initialised container. */
  lemma SizedSlotted(d: Descriptor, made: seq<Element>, elements: seq<Element>)
    requires Unlinked(made) == Made(d) && Grouped(made) && elements == SizedBy(made, d.reports)
    ensures Slotted(elements)
  {
    hide SlottedFrom, Made, SizedBy;
    MadeSlotted(d);
    forall c: nat | c < |made|
      ensures elements[c].isArray == Made(d)[c].isArray
      ensures elements[c].isArray ==> SlotFacts(elements[c]) == SlotFacts(Made(d)[c])
    {
      assert Shape(elements[c]) == Shape(made[c]) && Unlinked(made)[c] == made[c].(next := None);
      assert made[c].interrupt ==> !made[c].isArray;
      SameArrayFacts(made[c], elements[c]);
    }
    SlotsOfSame(Made(d), elements);
  }

  lemma SameArrayFacts(a: Element, b: Element)
    requires Shape(a) == Shape(b)
    ensures a.isArray == b.isArray
    ensures a.variable == b.variable ==> SlotFacts(b) == SlotFacts(a.(next := None))
  {
  }

  function BitsOf(r: ReportSizes, reportType: ReportType): nat {
    match reportType
    case InputReport => r.inputBits
    case OutputReport => r.outputBits
    case FeatureReport => r.featureBits
  }

  ghost function SizedBy(elements: seq<Element>, reports: seq<ReportSizes>): (s: seq<Element>)
    ensures SameShape(elements, s) && SameVariable(elements, s)
  {
    if reports == [] then elements
    else
      var r, most := reports[|reports| - 1], SizedBy(elements, reports[..|reports| - 1]);
      var input := Sized(most, r.reportID, InputReport, r.inputBits);
      var output := Sized(input, r.reportID, OutputReport, r.outputBits);
      var feature := Sized(output, r.reportID, FeatureReport, r.featureBits);
      VariableMore(most, input, output);
      VariableMore(most, output, feature);
      VariableMore(elements, most, feature);
      feature
  }

  lemma SizedAt(elements: seq<Element>, reportID: Byte, reportType: ReportType, bits: nat, c: nat)
    requires c < |elements|
    ensures Sized(elements, reportID, reportType, bits)[c].reportSize
            == if Latest(elements, |elements|, reportID, reportType) == Some(c) then bits else elements[c].reportSize
  {
    hide Latest, HasVariable, FirstHandler;
  }

  /** The three sizes of one report change no element of another. */
  lemma SizedOnce(elements: seq<Element>, r: ReportSizes, c: nat)
    requires c < |elements|
    ensures SizedBy(elements, [r])[c].reportSize
            == if Latest(elements, |elements|, r.reportID, InputReport) == Some(c) then r.inputBits
               else if Latest(elements, |elements|, r.reportID, OutputReport) == Some(c) then r.outputBits
               else if Latest(elements, |elements|, r.reportID, FeatureReport) == Some(c) then r.featureBits
               else elements[c].reportSize
  {
    hide Latest, Sized;
    var n := |elements|;
    var input := Sized(elements, r.reportID, InputReport, r.inputBits);
    var output := Sized(input, r.reportID, OutputReport, r.outputBits);
    SizedAt(elements, r.reportID, InputReport, r.inputBits, c);
    SizedAt(input, r.reportID, OutputReport, r.outputBits, c);
    SizedAt(output, r.reportID, FeatureReport, r.featureBits, c);
    LatestOfShape(elements, input, n, r.reportID, OutputReport);
    LatestOfShape(elements, output, n, r.reportID, FeatureReport);
    assert [r][..0] == [] && SizedBy(elements, [r][..0]) == elements;
    LatestIsOf(elements, n, r.reportID, InputReport);
    LatestIsOf(elements, n, r.reportID, OutputReport);
    LatestIsOf(elements, n, r.reportID, FeatureReport);
  }

  lemma LatestIsOf(elements: seq<Element>, n: nat, reportID: Byte, reportType: ReportType)
    requires n <= |elements|
    ensures var l := Latest(elements, n, reportID, reportType); l.Some? ==> l.value < n && elements[l.value].In(reportID, reportType)
  {
  }

  /** After all sizes are set, the element of each listed report that was
      registered last keeps the size of that report; every other element of the
      report is as it was made. */
  lemma {:induction false} SizesAre(elements: seq<Element>, reports: seq<ReportSizes>, i: nat, c: nat, reportType: ReportType)
    requires i < |reports| && c < |elements| && elements[c].In(reports[i].reportID, reportType)
    requires forall j, k :: 0 <= j < k < |reports| ==> reports[j].reportID != reports[k].reportID
    ensures SizedBy(elements, reports)[c].reportSize
            == if Latest(elements, |elements|, reports[i].reportID, reportType) == Some(c) then BitsOf(reports[i], reportType)
               else elements[c].reportSize
    decreases |reports|
  {
    hide Latest, Sized;
    var last := |reports| - 1;
    var most := SizedBy(elements, reports[..last]);
    SizedLast(elements, reports);
    SizedOnce(most, reports[last], c);
    assert Shape(most[c]) == Shape(elements[c]);
    LatestOfShape(elements, most, |elements|, reports[last].reportID, reportType);
    LatestIsOf(most, |most|, reports[last].reportID, InputReport);
    LatestIsOf(most, |most|, reports[last].reportID, OutputReport);
    LatestIsOf(most, |most|, reports[last].reportID, FeatureReport);
    if i == last {
      SizeUnlisted(elements, reports[..last], c);
    } else {
      SizesAre(elements, reports[..last], i, c, reportType);
    }
  }

  lemma SizedLast(elements: seq<Element>, reports: seq<ReportSizes>)
    requires reports != []
    ensures var last := |reports| - 1;
      SizedBy(elements, reports) == SizedBy(SizedBy(elements, reports[..last]), [reports[last]])
  {
    assert [reports[|reports| - 1]][..0] == [];
  }

  lemma {:induction false} SizeUnlisted(elements: seq<Element>, reports: seq<ReportSizes>, c: nat)
    requires c < |elements| && forall r <- reports :: r.reportID != elements[c].reportID
    ensures SizedBy(elements, reports)[c].reportSize == elements[c].reportSize
    decreases |reports|
  {
    hide Latest, Sized;
    if reports != [] {
      var last := |reports| - 1;
      var most := SizedBy(elements, reports[..last]);
      assert reports[last] in reports;
      SizedLast(elements, reports);
      SizedOnce(most, reports[last], c);
      assert Shape(most[c]) == Shape(elements[c]);
      LatestIsOf(most, |most|, reports[last].reportID, InputReport);
      LatestIsOf(most, |most|, reports[last].reportID, OutputReport);
      LatestIsOf(most, |most|, reports[last].reportID, FeatureReport);
      SizeUnlisted(elements, reports[..last], c);
    }
  }

  lemma GroupedUpdate(elements: seq<Element>, c: nat, item: Element)
    requires Grouped(elements) && c < |elements| && elements[c].kind == InputNull && item == AsItem(elements[c], c + 1)
    ensures Grouped(elements[c := item])
  {
    var es := elements[c := item];
    forall d: nat | d < |es| && IsItem(es, d) ensures es[d].handler.Some? && Handles(es, es[d].handler.value, d) {
      assert IsItem(elements, d) && Handles(elements, elements[d].handler.value, d);
    }
    forall d: nat, f: nat | d < |es| && f < d && IsItem(es, d) && es[d].handler.Some? && es[d].handler.value < f && SameReport(es[d], es[f])
      ensures IsItem(es, f)
    {
      assert IsItem(elements, d) && SameReport(elements[d], elements[f]);
      assert IsItem(elements, f);
    }
    forall d: nat, f: nat | d < |es| && f < d && es[d].kind == InputNull && SameReport(es[d], es[f])
      ensures es[f].kind == InputNull
    {
      assert SameReport(elements[d], elements[f]);
    }
  }
}
