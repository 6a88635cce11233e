/**
 Where the elements of a descriptor lie in its reports: the bits, the usages and
 the logical limits of every button and value, told from the descriptor alone.
 */
module DescriptorLayout {
  import opened Numbers
  import opened ElementContainer
  import opened Options

  /** How many elements the usages `first` to `last` take; 32 bits wide. */
  function RangeLength(first: nat, last: nat): (n: nat)
    ensures n > 0
    ensures first <= last && last - first < 0xFFFF_FFFF ==> n == last - first + 1
  {
    var n := (last - first + 1) % 0x1_0000_0000;
    if n > 1 then n else 1
  }

  function LastUsage(isRange: bool, usageMin: nat, usageMax: nat): nat {
    if isRange then usageMax else usageMin
  }

  /** The usage of element `i` of a range; the index is 16 bits wide. */
  function UsageAt(first: nat, last: nat, i: nat): nat {
    if first == last then first else first + i % 0x1_0000
  }

  /** Element `i` of a button that is no array: one bit, `i` bits behind the first. */
  predicate IsButton(kind: Kind, b: Button, e: Element, i: nat) {
    && e.kind == kind && e.reportID == b.reportID && e.usagePage == b.usagePage
    && e.usage == UsageAt(b.usageMin, LastUsage(b.isRange, b.usageMin, b.usageMax), i)
    && e.startBit == b.startBit + i % 0x1_0000 && e.bits * e.count == 1
    && e.logicalMin == 0 && e.logicalMax == 1
    && !e.isArray && e.isRelative == b.isRelative && !e.variable && !e.interrupt
  }

  ghost predicate IsButtonRange(kind: Kind, b: Button, made: seq<Element>) {
    && |made| == RangeLength(b.usageMin, LastUsage(b.isRange, b.usageMin, b.usageMax))
    && forall i :: 0 <= i < |made| ==> IsButton(kind, b, made[i], i)
  }

  /** Element `i` of a value: its bits lie `i` items behind those of the first. In a
      range each usage has one item; without a range all items are one wide element. */
  predicate IsValue(kind: Kind, v: Value, e: Element, i: nat) {
    && e.kind == kind && e.reportID == v.reportID && e.usagePage == v.usagePage
    && e.usage == UsageAt(v.usageMin, LastUsage(v.isRange, v.usageMin, v.usageMax), i)
    && e.startBit == v.startBit + (i % 0x1_0000) * v.bitSize
    && e.bits * e.count == (if i > 0 then v.bitSize
                            else if v.isRange && v.reportCount > 0 then v.bitSize else v.bitSize * v.reportCount)
    && e.logicalMin == v.logicalMin && e.logicalMax == v.logicalMax
    && !e.isArray && e.isRelative == v.isRelative && e.variable == (v.vendorPayload && i == 0) && !e.interrupt
  }

  ghost predicate IsValueRange(kind: Kind, v: Value, made: seq<Element>) {
    && |made| == RangeLength(v.usageMin, LastUsage(v.isRange, v.usageMin, v.usageMax))
    && forall i :: 0 <= i < |made| ==> IsValue(kind, v, made[i], i)
  }

  /** The items that an array button makes for its usages: one bit each, all at the
      start of the array, off or on. A keyboard's range is widened up to the
      modifiers. */
  predicate IsArrayItem(kind: Kind, b: Button, h: nat, e: Element, i: nat) {
    && e.kind == kind && e.reportID == b.reportID && e.usagePage == b.usagePage
    && e.usage == UsageAt(b.usageMin, LastItem(b), i)
    && e.startBit == b.startBit && e.bits * e.count == 1 && e.logicalMin == 0 && e.logicalMax == 1
    && e.isArray && e.handler == Some(h)
  }

  function LastItem(b: Button): nat {
    var last := LastUsage(b.isRange, b.usageMin, b.usageMax);
    if b.isRange && b.usagePage == 7 && last < 0xDF then 0xDF else last
  }

  ghost predicate AreItems(kind: Kind, b: Button, h: nat, made: seq<Element>) {
    && |made| == RangeLength(b.usageMin, LastItem(b))
    && forall i :: 0 <= i < |made| ==> IsArrayItem(kind, b, h, made[i], i)
  }

  /** A field that has all the bits of the array and its limits. */
  predicate IsArrayField(kind: Kind, b: Button, e: Element) {
    && e.kind == kind && e.reportID == b.reportID && e.startBit == b.startBit && e.bits * e.count == b.arrayBits * b.arrayCount
    && e.logicalMin == b.arrayMin && e.logicalMax == b.arrayMax && e.isArray
  }

  predicate IsArrayHandler(kind: Kind, b: Button, h: nat, e: Element) {
    IsArrayField(kind, b, e) && e.handler == Some(h)
  }

  /** The duplicate for slot `i`: the bits of that slot. */
  predicate IsDuplicate(kind: Kind, b: Button, h: nat, e: Element, i: nat) {
    && e.kind == kind && e.reportID == b.reportID && e.bits * e.count == b.arrayBits
    && e.startBit == (if b.arrayBits == 1 then b.startBit else b.startBit + (i % 0x1_0000) * b.arrayBits)
    && e.logicalMin == b.arrayMin && e.logicalMax == b.arrayMax && e.isArray && e.handler == Some(h)
  }

  /** A handler at cookie `h` and its duplicates, one for every slot of an array of
      more than one. */
  ghost predicate IsArrayWithSlots(kind: Kind, b: Button, h: nat, made: seq<Element>) {
    && |made| == 1 + (if b.arrayCount > 1 then b.arrayCount else 0)
    && IsArrayHandler(kind, b, h, made[0])
    && forall k :: 0 < k < |made| ==> IsDuplicate(kind, b, h, made[k], k - 1)
  }

  // ---------------------------------------------------------- one capability

  lemma ButtonRangeIs(kind: Kind, b: Button)
    requires !b.isArray
    ensures IsButtonRange(kind, b, WithSubElements(NewButton(kind, b)))
  {
    var e := NewButton(kind, b);
    var made := WithSubElements(e);
    forall i | 0 <= i < |made| ensures IsButton(kind, b, made[i], i) {
      if i > 0 {
        assert made[i] == SubElements(e, 1, e.RangeCount())[i - 1] == SubElement(e, i);
      }
    }
  }

  lemma ValueRangeIs(kind: Kind, v: Value)
    ensures IsValueRange(kind, v, WithSubElements(NewValue(kind, v)))
  {
    var e := NewValue(kind, v);
    var made := WithSubElements(e);
    forall i | 0 <= i < |made| ensures IsValue(kind, v, made[i], i) {
      if i > 0 {
        assert made[i] == SubElements(e, 1, e.RangeCount())[i - 1] == SubElement(e, i);
      }
    }
  }

  lemma ItemsAre(kind: Kind, b: Button, h: nat)
    requires b.isArray
    ensures AreItems(kind, b, h, WithSubElements(AsItem(NewButton(kind, b), h)))
  {
    var e := AsItem(NewButton(kind, b), h);
    var made := WithSubElements(e);
    forall i | 0 <= i < |made| ensures IsArrayItem(kind, b, h, made[i], i) {
      if i > 0 {
        assert made[i] == SubElements(e, 1, e.RangeCount())[i - 1] == SubElement(e, i);
      }
    }
  }

  lemma SlotsAre(kind: Kind, b: Button, h: nat)
    requires b.isArray
    ensures IsArrayWithSlots(kind, b, h, WithSubElements(NewHandler(NewButton(kind, b), h)))
  {
    var e := NewHandler(NewButton(kind, b), h);
    var made := WithSubElements(e);
    forall k | 0 < k < |made| ensures IsDuplicate(kind, b, h, made[k], k - 1) {
      assert made[k] == SubElements(e, 0, e.RangeCount())[k - 1] == SubElement(e, k - 1);
    }
  }

  /** What a button of a descriptor becomes: its range, or, for an array, the items
      of its usages, behind the handler with its slots if the array is new. */
  lemma ButtonIs(kind: Kind, b: Button, parent: nat, n: nat, arrays: Arrays)
    ensures var made, key := MadeByButton(kind, b, parent, n, arrays), ArrayKey(parent, kind, b.startBit, b.reportID);
      if !b.isArray then IsButtonRange(kind, b, made)
      else if key in arrays then AreItems(kind, b, arrays[key], made)
      else
        var k := 1 + (if b.arrayCount > 1 then b.arrayCount else 0);
        |made| >= k && IsArrayWithSlots(kind, b, n, made[..k]) && AreItems(kind, b, n, made[k..])
  {
    hide WithSubElements, AreItems, IsArrayWithSlots, IsButtonRange;
    var key := ArrayKey(parent, kind, b.startBit, b.reportID);
    if !b.isArray {
      ButtonRangeIs(kind, b);
    } else if key in arrays {
      ItemsAre(kind, b, arrays[key]);
    } else {
      SlotsAre(kind, b, n);
      ItemsAre(kind, b, n);
      var handlers, items := WithSubElements(NewHandler(NewButton(kind, b), n)), WithSubElements(AsItem(NewButton(kind, b), n));
      SlotsLength(kind, b, n, handlers);
      assert (handlers + items)[..|handlers|] == handlers && (handlers + items)[|handlers|..] == items;
    }
  }

  lemma SlotsLength(kind: Kind, b: Button, h: nat, made: seq<Element>)
    requires IsArrayWithSlots(kind, b, h, made)
    ensures |made| == 1 + (if b.arrayCount > 1 then b.arrayCount else 0)
  {
  }

  // -------------------------------------------------------- a whole descriptor

  function ButtonsOf(d: Descriptor, kind: Kind): seq<Placed> {
    match kind
    case InputData => d.inputButtons
    case OutputData => d.outputButtons
    case FeatureData => d.featureButtons
    case _ => []
  }

  function ValuesOf(d: Descriptor, kind: Kind): seq<Value> {
    match kind
    case InputData => d.inputValues
    case OutputData => d.outputValues
    case FeatureData => d.featureValues
    case _ => []
  }

  /** `part` stands in `s` at `at`. */
  predicate StandsAt<T(==)>(s: seq<T>, part: seq<T>, at: nat) {
    at + |part| <= |s| && s[at..at + |part|] == part
  }

  lemma StandsWithin<T>(s: seq<T>, middle: seq<T>, part: seq<T>, at: nat, in_: nat)
    requires StandsAt(s, middle, at) && StandsAt(middle, part, in_)
    ensures StandsAt(s, part, at + in_)
  {
    forall k | 0 <= k < |part| ensures s[at + in_..at + in_ + |part|][k] == part[k] {
      assert middle[in_..in_ + |part|][k] == middle[in_ + k] && s[at..at + |middle|][in_ + k] == s[at + in_ + k];
    }
  }

  lemma {:induction false} ButtonStands(kind: Kind, buttons: seq<Placed>, n: nat, arrays: Arrays, i: nat) returns (at: nat, known: Arrays)
    requires i < |buttons|
    ensures StandsAt(MadeByButtons(kind, buttons, n, arrays), MadeByButton(kind, buttons[i].button, buttons[i].parent, n + at, known), at)
    decreases |buttons|
  {
    hide MadeByButton, ArraysAfter;
    var p, rest := buttons[0], buttons[1..];
    var made, after := MadeByButton(kind, p.button, p.parent, n, arrays), ArraysAfter(kind, p.button, p.parent, n, arrays);
    var others := MadeByButtons(kind, rest, n + |made|, after);
    assert StandsAt(made + others, made, 0) && StandsAt(made + others, others, |made|);
    if i == 0 {
      at, known := 0, arrays;
    } else {
      var in_;
      in_, known := ButtonStands(kind, rest, n + |made|, after, i - 1);
      at := |made| + in_;
      assert rest[i - 1] == buttons[i];
      StandsWithin(made + others, others, MadeByButton(kind, buttons[i].button, buttons[i].parent, n + at, known), |made|, in_);
    }
  }

  lemma {:induction false} ValueStands(kind: Kind, values: seq<Value>, i: nat) returns (at: nat)
    requires i < |values|
    ensures StandsAt(MadeByValues(kind, values), WithSubElements(NewValue(kind, values[i])), at)
    decreases |values|
  {
    hide WithSubElements, NewValue;
    var last := |values| - 1;
    var before, made := MadeByValues(kind, values[..last]), WithSubElements(NewValue(kind, values[last]));
    assert StandsAt(before + made, made, |before|) && StandsAt(before + made, before, 0);
    if i == last {
      at := |before|;
    } else {
      at := ValueStands(kind, values[..last], i);
      StandsWithin(before + made, before, WithSubElements(NewValue(kind, values[i])), 0, at);
    }
  }

  /** The buttons of each kind, and the values of each kind, stand together among the
      elements of a descriptor. */
  lemma ListsStand(d: Descriptor, kind: Kind) returns (at: nat, n: nat)
    requires IsData(kind)
    ensures StandsAt(Made(d), MadeByButtons(kind, ButtonsOf(d, kind), at, map[]), at)
    ensures StandsAt(Made(d), MadeByValues(kind, ValuesOf(d, kind)), n)
  {
    hide MadeByButtons, MadeByValues, MadeByNulls, MadeByReports, MadeByCollections;
    var first := MadeByCollections(d.collections);
    var nulls := first + MadeByNulls(d.reports, |first|);
    var inputs := nulls + MadeByButtons(InputData, d.inputButtons, |nulls|, map[]);
    var outputs := inputs + MadeByButtons(OutputData, d.outputButtons, |inputs|, map[]);
    var buttons := outputs + MadeByButtons(FeatureData, d.featureButtons, |outputs|, map[]);
    var values := buttons + MadeByValues(InputData, d.inputValues);
    var more := values + MadeByValues(OutputData, d.outputValues);
    var most := more + MadeByValues(FeatureData, d.featureValues);
    assert Made(d) == most + MadeByReports(d.reports);
    match kind
    case InputData =>
      at, n := |nulls|, |buttons|;
    case OutputData =>
      at, n := |inputs|, |values|;
    case FeatureData =>
      at, n := |outputs|, |more|;
  }

  lemma SameRange(kind: Kind, b: Button, made: seq<Element>, elements: seq<Element>)
    requires Unlinked(elements) == made
    ensures IsButtonRange(kind, b, made) ==> IsButtonRange(kind, b, elements)
  {
    assert forall i :: 0 <= i < |made| ==> made[i] == Unlinked(elements)[i] == elements[i].(next := None);
  }

  lemma SameValueRange(kind: Kind, v: Value, made: seq<Element>, elements: seq<Element>)
    requires Unlinked(elements) == made
    ensures IsValueRange(kind, v, made) ==> IsValueRange(kind, v, elements)
  {
    assert forall i :: 0 <= i < |made| ==> made[i] == Unlinked(elements)[i] == elements[i].(next := None);
  }

  lemma UnlinkedPart(elements: seq<Element>, i: nat, j: nat)
    requires i <= j <= |elements|
    ensures Unlinked(elements[i..j]) == Unlinked(elements)[i..j]
  {
  }

  /** In the container of any descriptor every button that is no array has its
      elements, bit by bit, from some cookie on. */
  lemma ButtonInContainer(d: Descriptor, elements: seq<Element>, kind: Kind, i: nat) returns (c: nat)
    requires Unlinked(elements) == Made(d) && IsData(kind) && i < |ButtonsOf(d, kind)| && !ButtonsOf(d, kind)[i].button.isArray
    ensures var b := ButtonsOf(d, kind)[i].button;
      var n := RangeLength(b.usageMin, LastUsage(b.isRange, b.usageMin, b.usageMax));
      c + n <= |elements| && IsButtonRange(kind, b, elements[c..c + n])
  {
    hide Made, MadeByButtons, MadeByButton, MadeByValues;
    var p := ButtonsOf(d, kind)[i];
    var at, values := ListsStand(d, kind);
    var in_, known := ButtonStands(kind, ButtonsOf(d, kind), at, map[], i);
    var made := MadeByButton(kind, p.button, p.parent, at + in_, known);
    ButtonIs(kind, p.button, p.parent, at + in_, known);
    StandsWithin(Made(d), MadeByButtons(kind, ButtonsOf(d, kind), at, map[]), made, at, in_);
    c := at + in_;
    UnlinkedPart(elements, c, c + |made|);
    SameRange(kind, p.button, made, elements[c..c + |made|]);
  }

  /** And every value its items. */
  lemma ValueInContainer(d: Descriptor, elements: seq<Element>, kind: Kind, i: nat) returns (c: nat)
    requires Unlinked(elements) == Made(d) && IsData(kind) && i < |ValuesOf(d, kind)|
    ensures var v := ValuesOf(d, kind)[i];
      var n := RangeLength(v.usageMin, LastUsage(v.isRange, v.usageMin, v.usageMax));
      c + n <= |elements| && IsValueRange(kind, v, elements[c..c + n])
  {
    hide Made, MadeByValues, MadeByButtons, WithSubElements, NewValue;
    var v := ValuesOf(d, kind)[i];
    var buttons, at := ListsStand(d, kind);
    var in_ := ValueStands(kind, ValuesOf(d, kind), i);
    var made := WithSubElements(NewValue(kind, v));
    ValueRangeIs(kind, v);
    StandsWithin(Made(d), MadeByValues(kind, ValuesOf(d, kind)), made, at, in_);
    c := at + in_;
    UnlinkedPart(elements, c, c + |made|);
    SameValueRange(kind, v, made, elements[c..c + |made|]);
  }

  // ---------------------------------------------------- the fields of a report

  /** Among the fields that the walk of a report takes is every button of the report
      with its range, or, for the first usage of an array, the whole array. */
  lemma {:induction false} ButtonAmongFields(kind: Kind, buttons: seq<Placed>, seen: set<ArrayKey>, i: nat) returns (at: nat)
    requires i < |buttons|
    requires buttons[i].button.isArray ==>
               KeyOf(kind, buttons[i]) !in seen
               && forall j :: 0 <= j < i && buttons[j].button.isArray ==> KeyOf(kind, buttons[j]) != KeyOf(kind, buttons[i])
    ensures var b := buttons[i].button;
      var fields := ButtonFields(kind, buttons, b.reportID, seen);
      if b.isArray then at < |fields| && IsArrayField(kind, b, fields[at])
      else
        var n := RangeLength(b.usageMin, LastUsage(b.isRange, b.usageMin, b.usageMax));
        at + n <= |fields| && IsButtonRange(kind, b, fields[at..at + n])
    decreases |buttons|
  {
    hide WithSubElements, IsButtonRange, IsArrayField, NewButton, NewHandler, Bare, KeyOf;
    var b, reportID := buttons[0].button, buttons[i].button.reportID;
    var own := if b.reportID != reportID || (b.isArray && KeyOf(kind, buttons[0]) in seen) then []
               else if b.isArray then [Bare(NewHandler(NewButton(kind, b), 0))]
               else WithSubElements(NewButton(kind, b));
    var seen' := if b.isArray then seen + {KeyOf(kind, buttons[0])} else seen;
    var others := ButtonFields(kind, buttons[1..], reportID, seen');
    if i == 0 {
      at := 0;
      if !b.isArray {
        ButtonRangeIs(kind, b);
        RangeOfLength(kind, b, own);
        FirstPart(own, others);
      } else {
        ArrayFieldIs(kind, b);
      }
    } else {
      var in_ := ButtonAmongFields(kind, buttons[1..], seen', i - 1);
      at := |own| + in_;
      var n := RangeLength(buttons[i].button.usageMin,
                           LastUsage(buttons[i].button.isRange, buttons[i].button.usageMin, buttons[i].button.usageMax));
      if !buttons[i].button.isArray {
        PartOfRest(own, others, in_, n);
      }
    }
  }

  lemma ArrayFieldIs(kind: Kind, b: Button)
    requires b.isArray
    ensures IsArrayField(kind, b, Bare(NewHandler(NewButton(kind, b), 0)))
  {
  }

  lemma RangeOfLength(kind: Kind, b: Button, made: seq<Element>)
    requires IsButtonRange(kind, b, made)
    ensures |made| == RangeLength(b.usageMin, LastUsage(b.isRange, b.usageMin, b.usageMax))
  {
  }

  lemma {:induction false} ValueAmongFields(kind: Kind, values: seq<Value>, i: nat) returns (at: nat)
    requires i < |values|
    ensures var v := values[i];
      var fields, n := ValueFields(kind, values, v.reportID), RangeLength(v.usageMin, LastUsage(v.isRange, v.usageMin, v.usageMax));
      at + n <= |fields| && IsValueRange(kind, v, fields[at..at + n])
    decreases |values|
  {
    hide WithSubElements, NewValue;
    var last, v := |values| - 1, values[i];
    var before := ValueFields(kind, values[..last], v.reportID);
    if i == last {
      at := |before|;
      ValueRangeIs(kind, v);
      var made := WithSubElements(NewValue(kind, v));
      assert (before + made)[at..at + |made|] == made;
    } else {
      at := ValueAmongFields(kind, values[..last], i);
      var n := RangeLength(v.usageMin, LastUsage(v.isRange, v.usageMin, v.usageMax));
      assert ValueFields(kind, values, v.reportID)[at..at + n] == before[at..at + n];
    }
  }

  /** The element that takes a whole input report, for handlers of reports: all of its
      bits, and, as it counts as relative, with every report. */
  predicate IsReportHandler(r: ReportSizes, e: Element) {
    && e.kind == InputData && e.reportID == r.reportID && e.startBit == 0 && e.bits * e.count == r.inputBits == e.reportSize
    && e.interrupt && e.isRelative && !e.isArray && !e.variable && e.logicalMin == 0 && e.logicalMax == 0
  }

  lemma {:induction false} HandlerAmongFields(reports: seq<ReportSizes>, i: nat) returns (at: nat)
    requires i < |reports| && reports[i].inputBits > 0
    ensures var fields := HandlerFields(reports, reports[i].reportID); at < |fields| && IsReportHandler(reports[i], fields[at])
    decreases |reports|
  {
    var last, id := |reports| - 1, reports[i].reportID;
    var before := HandlerFields(reports[..last], id);
    if i == last {
      at := |before|;
      assert HandlerFields(reports, id)[at] == NewReportHandler(id, reports[i].inputBits);
    } else {
      at := HandlerAmongFields(reports[..last], i);
      assert HandlerFields(reports, id)[at] == before[at];
    }
  }

  /** Every input report that has bits is also taken whole. */
  lemma HandlerDescribed(d: Descriptor, i: nat) returns (at: nat)
    requires i < |d.reports| && d.reports[i].inputBits > 0
    ensures var fields := ReportFields(d, d.reports[i].reportID, InputReport);
      at < |fields| && IsReportHandler(d.reports[i], fields[at])
  {
    hide ButtonFields, ValueFields, HandlerFields, IsReportHandler;
    var id := d.reports[i].reportID;
    var others := ButtonFields(InputData, d.inputButtons, id, {}) + ValueFields(InputData, d.inputValues, id);
    var in_ := HandlerAmongFields(d.reports, i);
    at := |others| + in_;
    assert ReportFields(d, id, InputReport) == others + HandlerFields(d.reports, id);
  }

  function KindOf(reportType: ReportType): Kind {
    match reportType
    case InputReport => InputData
    case OutputReport => OutputData
    case FeatureReport => FeatureData
  }

  lemma PartOfRest(a: seq<Element>, b: seq<Element>, at: nat, n: nat)
    requires at + n <= |b|
    ensures (a + b)[|a| + at..|a| + at + n] == b[at..at + n]
  {
  }

  lemma FirstPart(a: seq<Element>, b: seq<Element>)
    ensures (a + b)[0..|a|] == a
  {
  }

  lemma PartOfSum(a: seq<Element>, b: seq<Element>, c: seq<Element>, at: nat, n: nat)
    requires at + n <= |b|
    ensures (a + b + c)[|a| + at..|a| + at + n] == b[at..at + n]
  {
  }

  /** What the walk of a report takes, told from the descriptor: every button that is
      listed for the report ID and type, at its bits. */
  lemma ButtonDescribed(d: Descriptor, reportType: ReportType, i: nat) returns (at: nat)
    requires var kind := KindOf(reportType);
      && i < |ButtonsOf(d, kind)|
      && forall k :: 0 <= k < i && ButtonsOf(d, kind)[k].button.isArray ==>
                       KeyOf(kind, ButtonsOf(d, kind)[k]) != KeyOf(kind, ButtonsOf(d, kind)[i])
    ensures var kind := KindOf(reportType);
      var b := ButtonsOf(d, kind)[i].button;
      var fields := ReportFields(d, b.reportID, reportType);
      if b.isArray then at < |fields| && IsArrayField(kind, b, fields[at])
      else
        var n := RangeLength(b.usageMin, LastUsage(b.isRange, b.usageMin, b.usageMax));
        at + n <= |fields| && IsButtonRange(kind, b, fields[at..at + n])
  {
    hide ButtonFields, ValueFields, HandlerFields, IsButtonRange, IsArrayField;
    var kind := KindOf(reportType);
    var b := ButtonsOf(d, kind)[i].button;
    at := ButtonAmongFields(kind, ButtonsOf(d, kind), {}, i);
    var own, values := ButtonFields(kind, ButtonsOf(d, kind), b.reportID, {}), ValueFields(kind, ValuesOf(d, kind), b.reportID);
    var handlers := if reportType == InputReport then HandlerFields(d.reports, b.reportID) else [];
    assert ReportFields(d, b.reportID, reportType) == [] + own + (values + handlers);
    if !b.isArray {
      PartOfSum([], own, values + handlers, at, RangeLength(b.usageMin, LastUsage(b.isRange, b.usageMin, b.usageMax)));
    }
  }

  /** And every value. */
  lemma ValueDescribed(d: Descriptor, reportType: ReportType, i: nat) returns (at: nat)
    requires i < |ValuesOf(d, KindOf(reportType))|
    ensures var kind := KindOf(reportType);
      var v := ValuesOf(d, kind)[i];
      var fields, n := ReportFields(d, v.reportID, reportType), RangeLength(v.usageMin, LastUsage(v.isRange, v.usageMin, v.usageMax));
      at + n <= |fields| && IsValueRange(kind, v, fields[at..at + n])
  {
    hide ButtonFields, ValueFields, HandlerFields, IsValueRange;
    var kind := KindOf(reportType);
    var v := ValuesOf(d, kind)[i];
    var in_ := ValueAmongFields(kind, ValuesOf(d, kind), i);
    var buttons, own := ButtonFields(kind, ButtonsOf(d, kind), v.reportID, {}), ValueFields(kind, ValuesOf(d, kind), v.reportID);
    var handlers := if reportType == InputReport then HandlerFields(d.reports, v.reportID) else [];
    assert ReportFields(d, v.reportID, reportType) == buttons + own + handlers;
    at := |buttons| + in_;
    PartOfSum(buttons, own, handlers, in_, RangeLength(v.usageMin, LastUsage(v.isRange, v.usageMin, v.usageMax)));
  }
}
