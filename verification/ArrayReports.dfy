/**
 HID "array" items: a report carries a list of selectors, and the handler turns
 each of its items on or off by comparing the new list with the last one it
 accepted (section 6.2.2.5 of the HID 1.11 class definition). On the keyboard
 page a list of nothing but ErrorRollOver (usage 1) is not accepted.

 The handler, its duplicates (one for each slot of the report) and its items
 all have values in the buffer of the container.
 */
module ArrayReports {
  import opened Numbers
  import opened BitCodec
  import opened ElementContainer
  import opened ElementValues
  import opened ElementReading
  import opened Options

  const ROLL_OVER: Word := 1    // usage ErrorRollOver

  // ------------------------------------------------------ items and selectors

  /** What a report changes in the value of an array item. */
  datatype Item = Item(value: Word, stamp: Time, generation: Word)

  /** GetArrayItemIndex, in 32 bits. */
  function ItemIndex(selector: Word, logicalMin: Word): (i: Word)
    ensures SelectorOf(i, logicalMin) == selector
  {
    if selector >= logicalMin then selector - logicalMin else selector + 0x1_0000_0000 - logicalMin
  }

  /** GetArrayItemSel */
  function SelectorOf(index: Word, logicalMin: Word): (s: Word)
  {
    if index + logicalMin < 0x1_0000_0000 then index + logicalMin else index + logicalMin - 0x1_0000_0000
  }

  lemma SelectorsDiffer(i: Word, j: Word, logicalMin: Word)
    requires SelectorOf(i, logicalMin) == SelectorOf(j, logicalMin)
    ensures i == j && ItemIndex(SelectorOf(i, logicalMin), logicalMin) == i
  {
  }

  predicate OnlyErrors(list: seq<Word>) {
    forall s <- list :: s == ROLL_OVER
  }

  /** In one list of selectors and not in the other. */
  predicate OnlyIn(s: Word, list: seq<Word>, other: seq<Word>) {
    s in list && s !in other
  }

  /** setArrayElementValue at a time. */
  function SetItem(item: Item, value: Word, now: Time): Item {
    if item.stamp == now then item else Item(value, now, NextGeneration(NextGeneration(item.generation)))
  }

  /** The items, after each whose selector is only in `list` has been set. */
  ghost predicate SetWhere(was: seq<Item>, items: seq<Item>, logicalMin: Word, list: seq<Word>, other: seq<Word>, value: Word, now: Time)
    requires |was| == |items| <= 0x1_0000_0000
  {
    forall i :: 0 <= i < |items| ==>
                  items[i] == if OnlyIn(SelectorOf(i, logicalMin), list, other) then SetItem(was[i], value, now) else was[i]
  }

  /** Exactly those items have been enqueued, each once; an item that already
      has the time of the report is not enqueued again. */
  ghost predicate EnqueuedWhere(was: seq<Item>, out: seq<nat>, logicalMin: Word, list: seq<Word>, other: seq<Word>, now: Time)
    requires |was| <= 0x1_0000_0000
  {
    && (forall j, k :: 0 <= j < k < |out| ==> out[j] != out[k])
    && forall i: nat :: i in out <==> i < |was| && was[i].stamp != now && OnlyIn(SelectorOf(i, logicalMin), list, other)
  }

  method Contains(list: seq<Word>, s: Word) returns (found: bool)
    ensures found == (s in list)
  {
    found := false;
    for i := 0 to |list|
      invariant found == (s in list[..i])
    {
      if s == list[i] {
        found := true;
        break;
      }
    }
  }

  ghost predicate StampedBy(items: seq<Item>, ticks: nat) {
    forall i :: 0 <= i < |items| ==> items[i].stamp.Ticks() <= ticks
  }

  predicate IsRollOver(i: Word, logicalMin: Word, exempt: bool) {
    exempt && SelectorOf(i, logicalMin) == ROLL_OVER
  }

  /** An item with a nonzero selector is on exactly when its selector is in the list. */
  ghost predicate InForce(items: seq<Item>, logicalMin: Word, exempt: bool, list: seq<Word>)
    requires |items| <= 0x1_0000_0000
  {
    forall i :: 0 <= i < |items| && SelectorOf(i, logicalMin) != 0 && !IsRollOver(i, logicalMin, exempt) ==>
                  items[i].value == if SelectorOf(i, logicalMin) in list then 1 else 0
  }

  // -------------------------------------------------- the array in the buffer

  /** `c` is an item of the array of `h`: not the handler, nor a duplicate. */
  predicate IsItemOf(elements: seq<Element>, h: nat, c: nat)
    requires h < |elements| && c < |elements|
  {
    h + SlotCount(elements[h]) < c && IsData(elements[c].kind) && elements[c].isArray && elements[c].handler == Some(h)
  }

  /** _arrayItems: the items are added in the order of their cookies. */
  function ItemsUpto(elements: seq<Element>, h: nat, n: nat): (v: seq<nat>)
    requires h < |elements| && n <= |elements|
    ensures forall i :: 0 <= i < |v| ==> v[i] < n && IsItemOf(elements, h, v[i])
    ensures forall i, j :: 0 <= i < j < |v| ==> v[i] < v[j]
    ensures forall c: nat :: c < n && IsItemOf(elements, h, c) ==> c in v
    ensures |v| <= n
  {
    if n == 0 then []
    else ItemsUpto(elements, h, n - 1) + if IsItemOf(elements, h, n - 1) then [n - 1] else []
  }

  function ItemsOf(elements: seq<Element>, h: nat): (v: seq<nat>)
    requires h < |elements|
    ensures forall i :: 0 <= i < |v| ==> v[i] < |elements| && IsItemOf(elements, h, v[i])
    ensures forall i, j :: 0 <= i < j < |v| ==> v[i] < v[j]
    ensures forall c: nat :: c < |elements| && IsItemOf(elements, h, c) ==> c in v
    ensures |v| <= |elements|
  {
    ItemsUpto(elements, h, |elements|)
  }

  function ItemOf(value: seq<Word>): Item
    requires |value| > HEADER
  {
    Item(value[HEADER], Stamp(value), value[GENERATION])
  }

  function PutItem(value: seq<Word>, item: Item): (r: seq<Word>)
    requires |value| > HEADER
    ensures |r| == |value| && ItemOf(r) == item
  {
    value[STAMP_LOW := item.stamp.low][STAMP_HIGH := item.stamp.high][GENERATION := item.generation][HEADER := item.value]
  }

  lemma PutTwice(value: seq<Word>, a: Item, b: Item)
    requires |value| > HEADER
    ensures PutItem(PutItem(value, a), b) == PutItem(value, b) && PutItem(value, ItemOf(value)) == value
  {
  }

  ghost function Items(elements: seq<Element>, h: nat, vals: seq<seq<Word>>): (items: seq<Item>)
    requires h < |elements| && Shaped(elements, vals)
    ensures |items| == |ItemsOf(elements, h)|
  {
    seq(|ItemsOf(elements, h)|, i requires 0 <= i < |ItemsOf(elements, h)| =>
      assert HasValue(elements, ItemsOf(elements, h)[i]);
      ItemOf(vals[ItemsOf(elements, h)[i]]))
  }

  /** Only values, time stamps and generations of items of the array differ. */
  ghost predicate ItemsOnly(elements: seq<Element>, h: nat, was: seq<seq<Word>>, now: seq<seq<Word>>)
    requires h < |elements| && Shaped(elements, was) && Shaped(elements, now)
  {
    forall c: nat :: c < |elements| ==> ItemChanged(elements, h, was, now, c)
  }

  ghost predicate ItemChanged(elements: seq<Element>, h: nat, was: seq<seq<Word>>, now: seq<seq<Word>>, c: nat)
    requires h < |elements| && Shaped(elements, was) && Shaped(elements, now) && c < |elements|
  {
    if IsItemOf(elements, h, c) then
      assert HasValue(elements, c);
      now[c] == PutItem(was[c], ItemOf(now[c]))
    else now[c] == was[c]
  }

  lemma NoItemsChanged(elements: seq<Element>, h: nat, vals: seq<seq<Word>>)
    requires h < |elements| && Shaped(elements, vals)
    ensures ItemsOnly(elements, h, vals, vals)
  {
    forall c: nat | c < |elements| ensures ItemChanged(elements, h, vals, vals, c) {
      if IsItemOf(elements, h, c) {
        assert HasValue(elements, c);
        PutTwice(vals[c], ItemOf(vals[c]), ItemOf(vals[c]));
      }
    }
  }

  lemma ItemsOnlyMore(elements: seq<Element>, h: nat, a: seq<seq<Word>>, b: seq<seq<Word>>, c: seq<seq<Word>>)
    requires h < |elements| && Shaped(elements, a) && Shaped(elements, b) && Shaped(elements, c)
    requires ItemsOnly(elements, h, a, b) && ItemsOnly(elements, h, b, c)
    ensures ItemsOnly(elements, h, a, c)
  {
    forall d: nat | d < |elements| ensures ItemChanged(elements, h, a, c, d) {
      assert ItemChanged(elements, h, a, b, d) && ItemChanged(elements, h, b, c, d);
      if IsItemOf(elements, h, d) {
        assert HasValue(elements, d);
        PutTwice(a[d], ItemOf(b[d]), ItemOf(c[d]));
      }
    }
  }

  /** The item at an index has been rewritten. */
  lemma OneItemChanged(elements: seq<Element>, h: nat, was: seq<seq<Word>>, index: nat, item: Item)
    requires h < |elements| && Shaped(elements, was) && index < |ItemsOf(elements, h)|
    ensures var c := ItemsOf(elements, h)[index];
      && HasValue(elements, c) && IsItemOf(elements, h, c)
      && var now := was[c := PutItem(was[c], item)];
      && Shaped(elements, now) && ItemsOnly(elements, h, was, now)
      && Items(elements, h, now) == Items(elements, h, was)[index := item]
  {
    var v := ItemsOf(elements, h);
    var c := v[index];
    assert HasValue(elements, c);
    var now := was[c := PutItem(was[c], item)];
    forall d: nat | d < |elements| ensures ItemChanged(elements, h, was, now, d) {
      if IsItemOf(elements, h, d) && d != c {
        assert HasValue(elements, d);
        PutTwice(was[d], ItemOf(was[d]), ItemOf(was[d]));
      }
    }
    forall i | 0 <= i < |v| ensures Items(elements, h, now)[i] == Items(elements, h, was)[index := item][i] {
      if i < index {
        assert v[i] < c;
      } else if i > index {
        assert v[i] > c;
      }
    }
  }

  /** _logicalMin as an unsigned word. */
  function LogicalMin(e: Element): Word {
    e.logicalMin % 0x1_0000_0000
  }

  /** The element whose value is the selector of slot `i`. */
  function SelectorCookie(e: Element, h: nat, i: nat): nat {
    if e.count > 1 then h + 1 + i else h
  }

  lemma SelectorHasValue(elements: seq<Element>, h: nat, i: nat)
    requires Slotted(elements) && HandlesArray(elements, h) && i < elements[h].count
    ensures HasValue(elements, h) && HasValue(elements, SelectorCookie(elements[h], h, i))
    ensures h + SlotCount(elements[h]) < |elements|
    ensures elements[h].count > 1 ==> IsSlot(elements[h], elements[h + 1 + i], i)
  {
    assert elements[h].handler == Some(0 + h) && SlotsFollow(elements, h);
    if elements[h].count > 1 {
      assert SlotAt(elements, h, i);
    }
  }

  lemma SlotsInside(elements: seq<Element>, h: nat)
    requires Slotted(elements) && HandlesArray(elements, h)
    ensures HasValue(elements, h) && h + SlotCount(elements[h]) < |elements| && !elements[h].variable && !elements[h].IsModifier()
  {
    assert elements[h].handler == Some(0 + h) && SlotsFollow(elements, h);
  }

  /** The selectors that the slots hold. */
  ghost function Selectors(elements: seq<Element>, h: nat, vals: seq<seq<Word>>): (list: seq<Word>)
    requires Slotted(elements) && HandlesArray(elements, h) && Shaped(elements, vals)
    ensures |list| == elements[h].count
  {
    seq(elements[h].count, i requires 0 <= i < elements[h].count =>
      SelectorHasValue(elements, h, i);
      vals[SelectorCookie(elements[h], h, i)][HEADER])
  }

  /** Items and selectors are different elements. */
  lemma ItemsKeepSelectors(elements: seq<Element>, h: nat, was: seq<seq<Word>>, now: seq<seq<Word>>)
    requires Slotted(elements) && HandlesArray(elements, h) && Shaped(elements, was) && Shaped(elements, now)
    requires ItemsOnly(elements, h, was, now)
    ensures now[h] == was[h] && Selectors(elements, h, now) == Selectors(elements, h, was)
    ensures h + SlotCount(elements[h]) < |elements|
    ensures forall c: nat :: h <= c <= h + SlotCount(elements[h]) ==> now[c] == was[c]
  {
    SlotsInside(elements, h);
    forall c: nat | h <= c <= h + SlotCount(elements[h]) ensures now[c] == was[c] {
      assert ItemChanged(elements, h, was, now, c);
    }
    forall i: nat | i < elements[h].count ensures Selectors(elements, h, now)[i] == Selectors(elements, h, was)[i] {
      SelectorHasValue(elements, h, i);
    }
  }

  // ----------------------------------------------------------- array reports

  /** setArrayElementValue; an index beyond the items is ignored, and so is an
      item that already has the time of the handler. */
  method SetArrayElementValue(v: ElementValues, h: nat, index: Word, value: Word) returns (enqueued: bool)
    requires v.Valid() && HandlesArray(v.elements, h)
    modifies v.memory
    ensures v.Valid() && ItemsOnly(v.elements, h, old(Values(v)), Values(v))
    ensures var items, now := Items(v.elements, h, old(Values(v))), Stamp(old(Values(v))[h]);
      && Items(v.elements, h, Values(v)) == WithItem(items, index, value, now)
      && enqueued == (index < |items| && items[index].stamp != now)
  {
    hide Tiled, Linked, Headed, Grouped, SlottedFrom, ItemsOnly, Items;
    ghost var was := Values(v);
    assert HasValue(v.elements, h);
    NoItemsChanged(v.elements, h, was);
    enqueued := false;
    var items := ItemsOf(v.elements, h);
    if index >= |items| {
      return;
    }
    var c := items[index];
    assert HasValue(v.elements, c);
    ItemsAt(v.elements, h, was, index);
    var stamp := ReadStamp(v, h);
    var own := ReadStamp(v, c);
    if own == stamp {
      return;
    }
    WriteItem(v, c, value, stamp);
    OneItemChanged(v.elements, h, was, index, SetItem(ItemOf(was[c]), value, stamp));
    enqueued := true;
  }

  function WithItem(items: seq<Item>, index: nat, value: Word, now: Time): (r: seq<Item>)
    ensures |r| == |items|
  {
    if index < |items| then items[index := SetItem(items[index], value, now)] else items
  }

  lemma ItemsAt(elements: seq<Element>, h: nat, vals: seq<seq<Word>>, index: nat)
    requires h < |elements| && Shaped(elements, vals) && index < |ItemsOf(elements, h)|
    ensures HasValue(elements, ItemsOf(elements, h)[index])
    ensures Items(elements, h, vals)[index] == ItemOf(vals[ItemsOf(elements, h)[index]])
  {
  }

  method ReadStamp(v: ElementValues, c: nat) returns (stamp: Time)
    requires v.Valid() && HasValue(v.elements, c)
    ensures stamp == Stamp(Values(v)[c])
  {
    FitsIn(v.elements, v.location, v.memory.Length, c);
    ghost var value := Part(v.memory[..], v.location, v.elements, c);
    var at := v.location[c];
    assert value[STAMP_LOW] == v.memory[at + STAMP_LOW] && value[STAMP_HIGH] == v.memory[at + STAMP_HIGH];
    stamp := Time(v.memory[at + STAMP_LOW], v.memory[at + STAMP_HIGH]);
  }

  method ReadWord(v: ElementValues, c: nat) returns (word: Word)
    requires v.Valid() && HasValue(v.elements, c)
    ensures word == Values(v)[c][HEADER]
  {
    FitsIn(v.elements, v.location, v.memory.Length, c);
    ghost var value := Part(v.memory[..], v.location, v.elements, c);
    assert value[HEADER] == v.memory[v.location[c] + HEADER];
    word := v.memory[v.location[c] + HEADER];
  }

  lemma ItemWords(was: seq<Word>, now: seq<Word>, item: Item)
    requires |was| == |now| > HEADER
    requires forall k :: 0 <= k < |now| && k != GENERATION && k != HEADER && k != STAMP_LOW && k != STAMP_HIGH ==> now[k] == was[k]
    requires now[HEADER] == item.value && now[GENERATION] == item.generation && Stamp(now) == item.stamp
    ensures now == PutItem(was, item)
  {
  }

  method WriteItemAt(memory: array<Word>, at: nat, n: nat, value: Word, stamp: Time)
    requires at + n <= memory.Length && n > HEADER
    modifies memory
    ensures SameOutside(old(memory[..]), memory[..], at, n)
    ensures var was := old(memory[at..at + n]);
      memory[at..at + n] == PutItem(was, Item(value, stamp, NextGeneration(NextGeneration(was[GENERATION]))))
  {
    ghost var was := memory[at..at + n];
    memory[at + GENERATION] := NextGeneration(memory[at + GENERATION]);
    memory[at + HEADER] := value;
    memory[at + STAMP_LOW], memory[at + STAMP_HIGH] := stamp.low, stamp.high;
    memory[at + GENERATION] := NextGeneration(memory[at + GENERATION]);
    ItemWords(was, memory[at..at + n], Item(value, stamp, NextGeneration(NextGeneration(was[GENERATION]))));
  }

  method WriteItem(v: ElementValues, c: nat, value: Word, stamp: Time)
    requires v.Valid() && HasValue(v.elements, c) && Stamp(Values(v)[c]) != stamp
    modifies v.memory
    ensures v.Valid()
    ensures var was := old(Values(v)); Values(v) == was[c := PutItem(was[c], SetItem(ItemOf(was[c]), value, stamp))]
  {
    hide PutItem, Tiled, Linked, Headed, Grouped, SlottedFrom;
    FitsIn(v.elements, v.location, v.memory.Length, c);
    ghost var was := v.memory[..];
    var at, n := v.location[c], ValueWords(v.elements[c]);
    assert was[at..at + n] == v.memory[at..at + n] == Part(was, v.location, v.elements, c);
    WriteItemAt(v.memory, at, n, value, stamp);
    OneValueChanged(v.elements, v.location, was, v.memory[..], c);
    assert v.memory[..][at..at + n] == v.memory[at..at + n];
  }

  /** One of the two comparing loops: sets the items of the selectors of one
      list that are missing in the other. */
  method SetMissing(v: ElementValues, h: nat, list: seq<Word>, other: seq<Word>, value: Word) returns (out: seq<nat>)
    requires v.Valid() && HandlesArray(v.elements, h)
    modifies v.memory
    ensures v.Valid() && ItemsOnly(v.elements, h, old(Values(v)), Values(v))
    ensures var was, now := Items(v.elements, h, old(Values(v))), Stamp(old(Values(v))[h]);
      && SetWhere(was, Items(v.elements, h, Values(v)), LogicalMin(v.elements[h]), list, other, value, now)
      && EnqueuedWhere(was, out, LogicalMin(v.elements[h]), list, other, now)
  {
    hide Tiled, Linked, Headed, Grouped, SlottedFrom, ItemsOnly, Items, SetSoFar, WithItem;
    out := [];
    ghost var first := Values(v);
    ghost var was, now, logicalMin := Items(v.elements, h, first), Stamp(first[h]), LogicalMin(v.elements[h]);
    NoItemsChanged(v.elements, h, first);
    NothingSet(was, logicalMin, other, value, now);
    assert list[..0] == [];
    for k := 0 to |list|
      invariant v.Valid() && ItemsOnly(v.elements, h, first, Values(v))
      invariant SetSoFar(was, Items(v.elements, h, Values(v)), out, logicalMin, list[..k], other, value, now)
    {
      var found := Contains(other, list[k]);
      ghost var before := Values(v);
      if !found {
        ItemsKeepSelectors(v.elements, h, first, before);
        var enqueued := SetArrayElementValue(v, h, ItemIndex(list[k], LogicalMin(v.elements[h])), value);
        ItemsOnlyMore(v.elements, h, first, before, Values(v));
        SetOneMore(was, Items(v.elements, h, before), out, logicalMin, list, k, other, value, now);
        if enqueued {
          out := out + [ItemIndex(list[k], LogicalMin(v.elements[h]))];
        }
      } else {
        SetNoMore(was, Items(v.elements, h, before), out, logicalMin, list, k, other, value, now);
      }
    }
    assert list[..|list|] == list;
    SetAll(was, Items(v.elements, h, Values(v)), out, logicalMin, list, other, value, now);
  }

  ghost predicate SetSoFar(was: seq<Item>, items: seq<Item>, out: seq<nat>, logicalMin: Word, list: seq<Word>, other: seq<Word>,
                           value: Word, now: Time)
  {
    && |was| == |items| <= 0x1_0000_0000
    && SetWhere(was, items, logicalMin, list, other, value, now) && EnqueuedWhere(was, out, logicalMin, list, other, now)
  }

  lemma NothingSet(was: seq<Item>, logicalMin: Word, other: seq<Word>, value: Word, now: Time)
    requires |was| <= 0x1_0000_0000
    ensures SetSoFar(was, was, [], logicalMin, [], other, value, now)
  {
  }

  lemma SetOneMore(was: seq<Item>, before: seq<Item>, out: seq<nat>, logicalMin: Word, list: seq<Word>, k: nat, other: seq<Word>,
                   value: Word, now: Time)
    requires k < |list| && list[k] !in other && SetSoFar(was, before, out, logicalMin, list[..k], other, value, now)
    ensures var i := ItemIndex(list[k], logicalMin);
      SetSoFar(was, WithItem(before, i, value, now), if i < |before| && before[i].stamp != now then out + [i] else out,
               logicalMin, list[..k + 1], other, value, now)
  {
    hide SetWhere, EnqueuedWhere;
    SetNext(was, before, WithItem(before, ItemIndex(list[k], logicalMin), value, now), logicalMin, list, k, other, value, now);
    EnqueueNext(was, before, out, logicalMin, list, k, other, value, now);
  }

  lemma SetNoMore(was: seq<Item>, items: seq<Item>, out: seq<nat>, logicalMin: Word, list: seq<Word>, k: nat, other: seq<Word>,
                  value: Word, now: Time)
    requires k < |list| && list[k] in other && SetSoFar(was, items, out, logicalMin, list[..k], other, value, now)
    ensures SetSoFar(was, items, out, logicalMin, list[..k + 1], other, value, now)
  {
    assert list[..k + 1] == list[..k] + [list[k]];
    assert forall s :: OnlyIn(s, list[..k + 1], other) <==> OnlyIn(s, list[..k], other);
  }

  lemma SetAll(was: seq<Item>, items: seq<Item>, out: seq<nat>, logicalMin: Word, list: seq<Word>, other: seq<Word>,
               value: Word, now: Time)
    requires SetSoFar(was, items, out, logicalMin, list, other, value, now)
    ensures |was| == |items| <= 0x1_0000_0000
    ensures SetWhere(was, items, logicalMin, list, other, value, now) && EnqueuedWhere(was, out, logicalMin, list, other, now)
  {
  }

  /** The selectors that the slots hold, one after the other. */
  method CurrentSelectors(v: ElementValues, h: nat) returns (list: seq<Word>)
    requires v.Valid() && HandlesArray(v.elements, h)
    ensures list == Selectors(v.elements, h, Values(v))
  {
    hide Tiled, Linked, Headed, Grouped, SlottedFrom;
    list := [];
    for i := 0 to v.elements[h].count
      invariant |list| == i && list == Selectors(v.elements, h, Values(v))[..i]
    {
      SelectorHasValue(v.elements, h, i);
      var word := ReadWord(v, SelectorCookie(v.elements[h], h, i));
      list := list + [word];
    }
  }

  /** The comparison of the old list with the new one, and the new list saved. */
  method Compare(v: ElementValues, h: nat) returns (out: seq<nat>)
    requires v.Valid() && HandlesArray(v.elements, h)
    modifies v`oldSelectors, v.memory
    ensures v.Valid() && ItemsOnly(v.elements, h, old(Values(v)), Values(v))
    ensures var list := Selectors(v.elements, h, old(Values(v)));
      && v.oldSelectors == old(v.oldSelectors)[h := list]
      && Compared(Items(v.elements, h, old(Values(v))), Items(v.elements, h, Values(v)), out, LogicalMin(v.elements[h]),
                  old(v.oldSelectors[h]), list, Stamp(old(Values(v))[h]))
  {
    hide Tiled, Linked, Headed, Grouped, SlottedFrom, ItemsOnly, Items, SetWhere, EnqueuedWhere, Compared;
    ghost var first := Values(v);
    var before := v.oldSelectors[h];
    var list := CurrentSelectors(v, h);
    var removed := SetMissing(v, h, before, list, 0);
    ghost var second := Values(v);
    ItemsKeepSelectors(v.elements, h, first, second);
    var added := SetMissing(v, h, list, before, 1);
    ItemsOnlyMore(v.elements, h, first, second, Values(v));
    BothLoops(Items(v.elements, h, first), Items(v.elements, h, second), Items(v.elements, h, Values(v)), removed, added,
              LogicalMin(v.elements[h]), before, list, Stamp(first[h]));
    out := removed + added;
    v.oldSelectors := v.oldSelectors[h := list];
  }

  function SlotCookies(h: nat, n: nat): (s: set<nat>)
    ensures forall x :: x in s <==> h < x <= h + n
  {
    if n == 0 then {} else SlotCookies(h, n - 1) + {h + n}
  }

  /** The values after the first `n` duplicates have read their slots. */
  ghost function SlotsRead(elements: seq<Element>, h: nat, vals: seq<seq<Word>>, report: seq<Byte>, timestamp: Time, n: nat): (r: seq<seq<Word>>)
    requires Slotted(elements) && HandlesArray(elements, h) && Shaped(elements, vals) && n <= SlotCount(elements[h])
    requires Reaches(elements[h], 8 * |report|)
    ensures Shaped(elements, r)
  {
    seq(|vals|, c requires 0 <= c < |vals| =>
      if h < c <= h + n then
        SlotReached(elements, h, c - h - 1, report);
        ReadValue(elements[c], vals[c], report, timestamp)
      else vals[c])
  }

  /** A slot lies inside the array. */
  lemma SlotReached(elements: seq<Element>, h: nat, i: nat, report: seq<Byte>)
    requires Slotted(elements) && HandlesArray(elements, h) && i < SlotCount(elements[h]) && Reaches(elements[h], 8 * |report|)
    ensures h + 1 + i < |elements| && HasValue(elements, h + 1 + i) && Reaches(elements[h + 1 + i], 8 * |report|)
    ensures var e, d := elements[h], elements[h + 1 + i];
      d.startBit >= e.startBit && d.startBit + d.Width() <= e.startBit + e.Width()
  {
    SelectorHasValue(elements, h, i);
    SlotsInside(elements, h);
    var e, d := elements[h], elements[h + 1 + i];
    SlotFits(i % 0x1_0000, e.count, e.bits);
  }

  lemma SlotFits(i: nat, count: nat, bits: nat)
    requires i < count
    ensures 0 <= i * bits && i * bits + bits <= count * bits == bits * count && bits <= bits * count
  {
    assert (i + 1) * bits <= count * bits by {
      MultipleMonotone(i + 1, count, bits);
    }
    MultipleMonotone(1, count, bits);
  }

  lemma MultipleMonotone(a: nat, b: nat, k: nat)
    requires a <= b
    ensures a * k <= b * k
  {
    assert b * k - a * k == (b - a) * k;
  }

  /** The data of some slot differs. */
  ghost predicate SlotsChanged(elements: seq<Element>, h: nat, was: seq<seq<Word>>, now: seq<seq<Word>>, n: nat)
    requires Slotted(elements) && HandlesArray(elements, h) && Shaped(elements, was) && Shaped(elements, now)
    requires n <= SlotCount(elements[h])
  {
    exists i: nat :: i < n && SlotChanged(elements, h, was, now, i)
  }

  ghost predicate SlotChanged(elements: seq<Element>, h: nat, was: seq<seq<Word>>, now: seq<seq<Word>>, i: nat)
    requires Slotted(elements) && HandlesArray(elements, h) && Shaped(elements, was) && Shaped(elements, now)
    requires i < SlotCount(elements[h])
  {
    SelectorHasValue(elements, h, i);
    now[h + 1 + i][HEADER..] != was[h + 1 + i][HEADER..]
  }

  predicate IsKeyboard(e: Element) {
    e.usagePage == KEYBOARD_PAGE
  }

  /** The first loop of processArrayReport: the duplicates read their slots. */
  method ReadSlots(v: ElementValues, h: nat, report: seq<Byte>) returns (changed: bool, found: bool)
    requires v.Valid() && HandlesArray(v.elements, h) && SlotCount(v.elements[h]) > 0 && Reaches(v.elements[h], 8 * |report|)
    modifies v`pending, v.memory
    ensures v.Valid() && v.pending == old(v.pending) - SlotCookies(h, SlotCount(v.elements[h]))
    ensures Values(v) == SlotsRead(v.elements, h, old(Values(v)), report, Stamp(old(Values(v))[h]), SlotCount(v.elements[h]))
    ensures changed <==> SlotsChanged(v.elements, h, old(Values(v)), Values(v), SlotCount(v.elements[h]))
    ensures found <==> IsKeyboard(v.elements[h]) && OnlyErrors(Selectors(v.elements, h, Values(v)))
  {
    hide Tiled, Linked, Headed, Grouped, SlottedFrom, ReadValue, ReadData, Reaches, SlotsDone;
    ghost var was := Values(v);
    SlotsInside(v.elements, h);
    var timestamp := ReadStamp(v, h);
    changed, found := false, IsKeyboard(v.elements[h]);
    NoSlotsRead(v.elements, h, was, report, timestamp);
    for i := 0 to v.elements[h].count
      invariant v.Valid() && v.pending == old(v.pending) - SlotCookies(h, i)
      invariant SlotsDone(v.elements, h, was, Values(v), report, timestamp, i, changed, found)
    {
      changed, found := ReadSlot(v, h, i, report, timestamp, was, changed, found);
    }
    AllSlotsDone(v.elements, h, was, Values(v), report, timestamp, changed, found);
  }

  method ReadSlot(v: ElementValues, h: nat, i: nat, report: seq<Byte>, timestamp: Time, ghost was: seq<seq<Word>>,
                  wasChanged: bool, wasFound: bool)
    returns (changed: bool, found: bool)
    requires v.Valid() && HandlesArray(v.elements, h) && i < SlotCount(v.elements[h]) && Reaches(v.elements[h], 8 * |report|)
    requires Shaped(v.elements, was) && SlotsDone(v.elements, h, was, Values(v), report, timestamp, i, wasChanged, wasFound)
    modifies v`pending, v.memory
    ensures v.pending == old(v.pending) - {h + 1 + i}
    ensures v.Valid() && SlotsDone(v.elements, h, was, Values(v), report, timestamp, i + 1, changed, found)
  {
    hide Tiled, Linked, Headed, Grouped, SlottedFrom, ReadValue, ReadData, Reaches, SlotsDone;
    ghost var before := Values(v);
    SlotReached(v.elements, h, i, report);
    var moved := ReadElement(v, h + 1 + i, report, timestamp);
    var word := ReadWord(v, h + 1 + i);
    NextSlotDone(v.elements, h, was, before, Values(v), report, timestamp, i, wasChanged, wasFound, moved);
    changed, found := wasChanged || moved, wasFound;
    if IsKeyboard(v.elements[h]) && word != ROLL_OVER {
      found := false;
    }
  }

  /** The first loop after `i` slots. */
  ghost predicate SlotsDone(elements: seq<Element>, h: nat, was: seq<seq<Word>>, now: seq<seq<Word>>, report: seq<Byte>, timestamp: Time,
                            i: nat, changed: bool, found: bool)
    requires Slotted(elements) && HandlesArray(elements, h) && Shaped(elements, was) && Shaped(elements, now)
    requires Reaches(elements[h], 8 * |report|) && i <= SlotCount(elements[h])
  {
    && now == SlotsRead(elements, h, was, report, timestamp, i)
    && (changed <==> SlotsChanged(elements, h, was, now, i))
    && (found <==> IsKeyboard(elements[h]) && OnlyErrors(Selectors(elements, h, now)[..i]))
  }

  lemma NextSlotDone(elements: seq<Element>, h: nat, was: seq<seq<Word>>, before: seq<seq<Word>>, now: seq<seq<Word>>,
                     report: seq<Byte>, timestamp: Time, i: nat, changed: bool, found: bool, moved: bool)
    requires Slotted(elements) && HandlesArray(elements, h) && Shaped(elements, was) && Shaped(elements, before) && Shaped(elements, now)
    requires Reaches(elements[h], 8 * |report|) && i < SlotCount(elements[h]) && h + 1 + i < |elements|
    requires HasValue(elements, h + 1 + i) && Reaches(elements[h + 1 + i], 8 * |report|)
    requires SlotsDone(elements, h, was, before, report, timestamp, i, changed, found)
    requires now == before[h + 1 + i := ReadValue(elements[h + 1 + i], before[h + 1 + i], report, timestamp)]
    requires moved == (ReadData(elements[h + 1 + i], before[h + 1 + i][HEADER..], report) != before[h + 1 + i][HEADER..])
    ensures SlotsDone(elements, h, was, now, report, timestamp, i + 1, changed || moved,
                      found && !(IsKeyboard(elements[h]) && now[h + 1 + i][HEADER] != ROLL_OVER))
  {
    hide SlottedFrom, ReadValue, ReadData, Reaches, SlotsRead, SlotsChanged, OnlyErrors, Selectors;
    NextSlotRead(elements, h, was, report, timestamp, i, SlotsRead(elements, h, was, report, timestamp, i),
                 SlotsRead(elements, h, was, report, timestamp, i + 1));
  }

  lemma AllSlotsDone(elements: seq<Element>, h: nat, was: seq<seq<Word>>, now: seq<seq<Word>>, report: seq<Byte>, timestamp: Time,
                     changed: bool, found: bool)
    requires Slotted(elements) && HandlesArray(elements, h) && Shaped(elements, was) && Shaped(elements, now)
    requires Reaches(elements[h], 8 * |report|) && SlotCount(elements[h]) > 0
    requires SlotsDone(elements, h, was, now, report, timestamp, SlotCount(elements[h]), changed, found)
    ensures now == SlotsRead(elements, h, was, report, timestamp, SlotCount(elements[h]))
    ensures changed <==> SlotsChanged(elements, h, was, now, SlotCount(elements[h]))
    ensures found <==> IsKeyboard(elements[h]) && OnlyErrors(Selectors(elements, h, now))
  {
    assert Selectors(elements, h, now)[..SlotCount(elements[h])] == Selectors(elements, h, now);
  }

  lemma NoSlotsRead(elements: seq<Element>, h: nat, vals: seq<seq<Word>>, report: seq<Byte>, timestamp: Time)
    requires Slotted(elements) && HandlesArray(elements, h) && Shaped(elements, vals) && Reaches(elements[h], 8 * |report|)
    ensures SlotsRead(elements, h, vals, report, timestamp, 0) == vals
    ensures SlotsDone(elements, h, vals, vals, report, timestamp, 0, false, IsKeyboard(elements[h]))
  {
  }

  /** One more slot is read: its selector, whether anything has changed, and
      whether all slots so far hold ErrorRollOver. */
  lemma NextSlotRead(elements: seq<Element>, h: nat, vals: seq<seq<Word>>, report: seq<Byte>, timestamp: Time, i: nat,
                     before: seq<seq<Word>>, after: seq<seq<Word>>)
    requires Slotted(elements) && HandlesArray(elements, h) && Shaped(elements, vals) && i < SlotCount(elements[h])
    requires Reaches(elements[h], 8 * |report|) && Shaped(elements, before) && Shaped(elements, after)
    requires before == SlotsRead(elements, h, vals, report, timestamp, i)
    requires after == SlotsRead(elements, h, vals, report, timestamp, i + 1)
    ensures h + 1 + i < |elements| && HasValue(elements, h + 1 + i) && Reaches(elements[h + 1 + i], 8 * |report|)
    ensures var c := h + 1 + i;
      && after == before[c := ReadValue(elements[c], before[c], report, timestamp)]
      && (SlotsChanged(elements, h, vals, after, i + 1)
          <==> SlotsChanged(elements, h, vals, before, i)
               || ReadData(elements[c], before[c][HEADER..], report) != before[c][HEADER..])
      && (OnlyErrors(Selectors(elements, h, after)[..i + 1])
          <==> OnlyErrors(Selectors(elements, h, before)[..i]) && after[c][HEADER] == ROLL_OVER)
  {
    hide SlottedFrom, ReadValue, ReadData, Reaches, SlotsRead, SlotsChanged, OnlyErrors, Selectors;
    SlotReached(elements, h, i, report);
    SlotsReadNext(elements, h, vals, report, timestamp, i, before, after);
    ChangedNext(elements, h, vals, before, after, i);
    SelectorsNext(elements, h, before, after, i);
  }

  lemma SlotsReadNext(elements: seq<Element>, h: nat, vals: seq<seq<Word>>, report: seq<Byte>, timestamp: Time, i: nat,
                      before: seq<seq<Word>>, after: seq<seq<Word>>)
    requires Slotted(elements) && HandlesArray(elements, h) && Shaped(elements, vals) && i < SlotCount(elements[h])
    requires Reaches(elements[h], 8 * |report|) && |before| == |after| == |elements|
    requires h + 1 + i < |elements| && HasValue(elements, h + 1 + i) && Reaches(elements[h + 1 + i], 8 * |report|)
    requires before == SlotsRead(elements, h, vals, report, timestamp, i)
    requires after == SlotsRead(elements, h, vals, report, timestamp, i + 1)
    ensures before[h + 1 + i] == vals[h + 1 + i]
    ensures after == before[h + 1 + i := ReadValue(elements[h + 1 + i], vals[h + 1 + i], report, timestamp)]
  {
    hide SlottedFrom, ReadValue, Reaches;
  }

  lemma ChangedNext(elements: seq<Element>, h: nat, vals: seq<seq<Word>>, before: seq<seq<Word>>, after: seq<seq<Word>>, i: nat)
    requires Slotted(elements) && HandlesArray(elements, h) && Shaped(elements, vals) && Shaped(elements, before) && Shaped(elements, after)
    requires i < SlotCount(elements[h]) && h + 1 + i < |elements| && HasValue(elements, h + 1 + i)
    requires forall c: nat :: c < |elements| && c != h + 1 + i ==> after[c] == before[c]
    ensures SlotsChanged(elements, h, vals, after, i + 1)
            <==> SlotsChanged(elements, h, vals, before, i) || after[h + 1 + i][HEADER..] != vals[h + 1 + i][HEADER..]
  {
    forall j: nat | j < i ensures SlotChanged(elements, h, vals, after, j) <==> SlotChanged(elements, h, vals, before, j) {
      SelectorHasValue(elements, h, j);
    }
    assert SlotChanged(elements, h, vals, after, i) <==> after[h + 1 + i][HEADER..] != vals[h + 1 + i][HEADER..];
  }

  lemma SelectorsNext(elements: seq<Element>, h: nat, before: seq<seq<Word>>, after: seq<seq<Word>>, i: nat)
    requires Slotted(elements) && HandlesArray(elements, h) && Shaped(elements, before) && Shaped(elements, after)
    requires i < SlotCount(elements[h]) && forall c: nat :: c < |elements| && c != h + 1 + i ==> after[c] == before[c]
    ensures h + 1 + i < |elements| && HasValue(elements, h + 1 + i)
    ensures OnlyErrors(Selectors(elements, h, after)[..i + 1])
            <==> OnlyErrors(Selectors(elements, h, before)[..i]) && after[h + 1 + i][HEADER] == ROLL_OVER
  {
    SelectorHasValue(elements, h, i);
    var a, b := Selectors(elements, h, before), Selectors(elements, h, after);
    forall j: nat | j < i ensures b[j] == a[j] {
      SelectorHasValue(elements, h, j);
    }
    assert a[..i] == b[..i];
    SlotNext(b, i);
  }

  /** What processArrayReport does: the duplicates read their slots; if any of
      them changed, the keyboard's roll-over item is set, and a list of anything
      but ErrorRollOver is compared with the old one and saved. */
  ghost predicate ArrayProcessed(elements: seq<Element>, h: nat, was: seq<seq<Word>>, now: seq<seq<Word>>,
                                 lists: map<nat, seq<Word>>, newLists: map<nat, seq<Word>>, report: seq<Byte>, out: seq<nat>)
    requires Slotted(elements) && HandlesArray(elements, h) && Shaped(elements, was) && Shaped(elements, now)
    requires h in lists && Reaches(elements[h], 8 * |report|) && |elements| <= 0x1_0000_0000
  {
    var e, stamp := elements[h], Stamp(was[h]);
    var mid := SlotsRead(elements, h, was, report, stamp, SlotCount(e));
    var list, before := Selectors(elements, h, mid), Items(elements, h, mid);
    if SlotCount(e) > 0 && !SlotsChanged(elements, h, was, mid, SlotCount(e)) then now == mid && newLists == lists && out == []
    else
      ItemsOnly(elements, h, mid, now)
      && if Exempt(e) && OnlyErrors(list) then
           && Items(elements, h, now) == RollOverSet(e, before, 1, stamp)
           && newLists == lists && out == RollOverOut(e, before, stamp)
         else
           var first, items := RollOverOut(e, before, stamp), RollOverSet(e, before, 0, stamp);
           && |out| >= |first| && out[..|first|] == first && newLists == lists[h := list]
           && Compared(items, Items(elements, h, now), out[|first|..], LogicalMin(e), lists[h], list, stamp)
  }

  /** The keyboard's ErrorRollOver item follows its own rule. */
  predicate Exempt(e: Element) {
    IsKeyboard(e) && SlotCount(e) > 0
  }

  function RollOverSet(e: Element, items: seq<Item>, value: Word, now: Time): (r: seq<Item>)
    ensures |r| == |items|
  {
    if Exempt(e) then WithItem(items, ItemIndex(ROLL_OVER, LogicalMin(e)), value, now) else items
  }

  function RollOverOut(e: Element, items: seq<Item>, now: Time): seq<nat> {
    var index := ItemIndex(ROLL_OVER, LogicalMin(e));
    if Exempt(e) && index < |items| && items[index].stamp != now then [index] else []
  }

  method ProcessArrayReport(v: ElementValues, h: nat, report: seq<Byte>) returns (out: seq<nat>)
    requires v.Valid() && HandlesArray(v.elements, h) && Reaches(v.elements[h], 8 * |report|)
    modifies v`pending, v`oldSelectors, v.memory
    ensures v.Valid() && v.pending == old(v.pending) - SlotCookies(h, SlotCount(v.elements[h]))
    ensures ArrayProcessed(v.elements, h, old(Values(v)), Values(v), old(v.oldSelectors), v.oldSelectors, report, out)
  {
    hide Tiled, Linked, Headed, Grouped, SlottedFrom, ItemsOnly, Items, SlotsRead, Reaches, SlotsChanged, Compared, OnlyErrors;
    var e := v.elements[h];
    out := [];
    ghost var was := Values(v);
    ghost var stamp := Stamp(was[h]);
    NoSlotsRead(v.elements, h, was, report, stamp);
    if SlotCount(e) > 0 {
      var changed, found := ReadSlots(v, h, report);
      if !changed {
        return;
      }
      ghost var mid := Values(v);
      SlotsKeepHandler(v.elements, h, was, report, stamp);
      NoItemsChanged(v.elements, h, mid);
      if IsKeyboard(e) {
        var index := ItemIndex(ROLL_OVER, LogicalMin(e));
        var enqueued := SetArrayElementValue(v, h, index, if found then 1 else 0);
        ItemsKeepSelectors(v.elements, h, mid, Values(v));
        if enqueued {
          out := [index];
        }
        if found {
          return;
        }
      }
    } else {
      NoItemsChanged(v.elements, h, was);
    }
    ghost var mid := SlotsRead(v.elements, h, was, report, stamp, SlotCount(e));
    ghost var before, first := Values(v), out;
    ItemsKeepSelectors(v.elements, h, mid, before);
    var compared := Compare(v, h);
    ItemsOnlyMore(v.elements, h, mid, before, Values(v));
    out := out + compared;
    assert out[..|first|] == first && out[|first|..] == compared;
  }

  lemma SlotsKeepHandler(elements: seq<Element>, h: nat, vals: seq<seq<Word>>, report: seq<Byte>, timestamp: Time)
    requires Slotted(elements) && HandlesArray(elements, h) && Shaped(elements, vals) && Reaches(elements[h], 8 * |report|)
    ensures HasValue(elements, h) && SlotsRead(elements, h, vals, report, timestamp, SlotCount(elements[h]))[h] == vals[h]
  {
    SlotsInside(elements, h);
  }

  /** In exactly one of the two lists. */
  predicate Toggled(s: Word, list: seq<Word>, other: seq<Word>) {
    (s in list) != (s in other)
  }

  /** What comparing two lists does: items whose selector went are off, items
      whose selector came are on, others are as they were, and exactly those that
      were set have been enqueued, once. */
  ghost predicate Compared(was: seq<Item>, items: seq<Item>, out: seq<nat>, logicalMin: Word, list: seq<Word>, other: seq<Word>, now: Time)
    requires |was| == |items| <= 0x1_0000_0000
  {
    && (forall i :: 0 <= i < |items| ==> items[i] == ItemAfter(was[i], SelectorOf(i, logicalMin), list, other, now))
    && (forall j, k :: 0 <= j < k < |out| ==> out[j] != out[k])
    && forall i: nat :: i in out <==> i < |was| && was[i].stamp != now && Toggled(SelectorOf(i, logicalMin), list, other)
  }

  function ItemAfter(item: Item, s: Word, list: seq<Word>, other: seq<Word>, now: Time): Item {
    if s in list && s !in other then SetItem(item, 0, now)
    else if s in other && s !in list then SetItem(item, 1, now)
    else item
  }

  lemma BothLoops(was: seq<Item>, mid: seq<Item>, items: seq<Item>, removed: seq<nat>, added: seq<nat>, logicalMin: Word,
                  list: seq<Word>, other: seq<Word>, now: Time)
    requires |was| == |mid| == |items| <= 0x1_0000_0000
    requires SetWhere(was, mid, logicalMin, list, other, 0, now) && EnqueuedWhere(was, removed, logicalMin, list, other, now)
    requires SetWhere(mid, items, logicalMin, other, list, 1, now) && EnqueuedWhere(mid, added, logicalMin, other, list, now)
    ensures Compared(was, items, removed + added, logicalMin, list, other, now)
  {
    var out := removed + added;
    forall i: nat | i < |was| && OnlyIn(SelectorOf(i, logicalMin), other, list) ensures mid[i] == was[i] {
    }
    forall j, k | 0 <= j < k < |out| ensures out[j] != out[k] {
      if j < |removed| <= k {
        assert out[j] in removed && out[k] == added[k - |removed|] && added[k - |removed|] in added;
      }
    }
    forall i: nat ensures i in out <==> i < |was| && was[i].stamp != now && Toggled(SelectorOf(i, logicalMin), list, other) {
      assert i in out <==> i in removed || i in added;
    }
  }

  /** The item has been set at a time: its generation has moved on by two. */
  predicate WasSet(was: Item, item: Item, now: Time) {
    var generation: int := was.generation;
    item.stamp == now && item.generation == (generation + 2) % 0x1_0000_0000
  }

  /** Nothing but the roll-over item has been touched, and it has the time of the report. */
  ghost predicate RolledOver(was: seq<Item>, items: seq<Item>, out: seq<nat>, logicalMin: Word, exempt: bool, now: Time)
    requires |was| == |items| <= 0x1_0000_0000
  {
    && (forall i :: 0 <= i < |was| && !IsRollOver(i, logicalMin, exempt) ==> items[i] == was[i])
    && (forall i :: 0 <= i < |was| && IsRollOver(i, logicalMin, exempt) ==> WasSet(was[i], items[i], now))
    && |out| <= 1 && forall i <- out :: i < |was| && IsRollOver(i, logicalMin, exempt)
  }

  lemma OnlyRollOver(was: seq<Item>, items: seq<Item>, index: Word, logicalMin: Word, now: Time)
    requires |was| == |items| <= 0x1_0000_0000 && index == ItemIndex(ROLL_OVER, logicalMin)
    requires forall i :: 0 <= i < |was| && i != index ==> items[i] == was[i]
    requires index < |was| ==> WasSet(was[index], items[index], now)
    ensures RolledOver(was, items, [], logicalMin, true, now)
  {
    forall i | 0 <= i < |was| && IsRollOver(i, logicalMin, true) ensures i == index {
      SelectorsDiffer(i, index, logicalMin);
    }
  }

  /** A list that is accepted comes into force; the items that it switches have
      been enqueued, each once, and the others are as they were. */
  lemma Switched(was: seq<Item>, before: seq<Item>, items: seq<Item>, first: seq<nat>, compared: seq<nat>, logicalMin: Word,
                 exempt: bool, list: seq<Word>, other: seq<Word>, before_: nat, now: Time)
    requires |was| == |before| == |items| <= 0x1_0000_0000 && before_ < now.Ticks() && StampedBy(was, before_)
    requires InForce(was, logicalMin, exempt, list) && RolledOver(was, before, first, logicalMin, exempt, now)
    requires Compared(before, items, compared, logicalMin, list, other, now)
    ensures StampedBy(items, now.Ticks()) && InForce(items, logicalMin, exempt, other)
    ensures var out := first + compared;
      && (forall j, k :: 0 <= j < k < |out| ==> out[j] != out[k])
      && (forall i <- out :: i < |items| && WasSet(was[i], items[i], now))
      && forall i: nat :: i < |items| && !IsRollOver(i, logicalMin, exempt) ==>
                            && (i in out <==> Toggled(SelectorOf(i, logicalMin), list, other))
                            && (i !in out ==> items[i] == was[i])
  {
    var out := first + compared;
    forall j, k | 0 <= j < k < |out| ensures out[j] != out[k] {
      if j < |first| <= k {
        assert out[j] in first && compared[k - |first|] in compared;
      }
    }
    forall i: nat ensures i in out <==> i in first || i in compared {
    }
  }

  lemma SlotNext(report: seq<Word>, i: nat)
    requires i < |report|
    ensures OnlyErrors(report[..i + 1]) <==> OnlyErrors(report[..i]) && report[i] == ROLL_OVER
  {
    assert report[..i + 1] == report[..i] + [report[i]];
    assert report[i] in report[..i + 1];
    forall s | s in report[..i] ensures s in report[..i + 1] {
    }
  }

  lemma OneMore(list: seq<Word>, k: nat, other: seq<Word>, s: Word)
    requires k < |list| && list[k] !in other
    ensures OnlyIn(s, list[..k + 1], other) <==> OnlyIn(s, list[..k], other) || s == list[k]
  {
    assert list[..k + 1] == list[..k] + [list[k]];
  }

  lemma SetNext(was: seq<Item>, before: seq<Item>, items: seq<Item>, logicalMin: Word, list: seq<Word>, k: nat, other: seq<Word>,
                value: Word, now: Time)
    requires |was| == |before| == |items| <= 0x1_0000_0000 && k < |list| && list[k] !in other
    requires SetWhere(was, before, logicalMin, list[..k], other, value, now)
    requires var i := ItemIndex(list[k], logicalMin);
      items == if i < |before| then before[i := SetItem(before[i], value, now)] else before
    ensures SetWhere(was, items, logicalMin, list[..k + 1], other, value, now)
  {
    forall i | 0 <= i < |items|
      ensures items[i] == if OnlyIn(SelectorOf(i, logicalMin), list[..k + 1], other) then SetItem(was[i], value, now) else was[i]
    {
      OneMore(list, k, other, SelectorOf(i, logicalMin));
      if SelectorOf(i, logicalMin) == list[k] {
        SelectorsDiffer(i, ItemIndex(list[k], logicalMin), logicalMin);
      }
    }
  }

  lemma EnqueueNext(was: seq<Item>, before: seq<Item>, out: seq<nat>, logicalMin: Word, list: seq<Word>, k: nat, other: seq<Word>,
                    value: Word, now: Time)
    requires |was| == |before| <= 0x1_0000_0000 && k < |list| && list[k] !in other
    requires SetWhere(was, before, logicalMin, list[..k], other, value, now)
    requires EnqueuedWhere(was, out, logicalMin, list[..k], other, now)
    ensures var i := ItemIndex(list[k], logicalMin);
      EnqueuedWhere(was, if i < |before| && before[i].stamp != now then out + [i] else out, logicalMin, list[..k + 1], other, now)
  {
    var n := ItemIndex(list[k], logicalMin);
    var more := if n < |before| && before[n].stamp != now then out + [n] else out;
    forall i: nat ensures i in more <==> i < |was| && was[i].stamp != now && OnlyIn(SelectorOf(i, logicalMin), list[..k + 1], other) {
      if i < |was| {
        OneMore(list, k, other, SelectorOf(i, logicalMin));
        if SelectorOf(i, logicalMin) == list[k] {
          SelectorsDiffer(i, n, logicalMin);
        }
      }
      assert i in out + [n] <==> i in out || i == n;
    }
  }
}
