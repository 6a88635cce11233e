/**
 The element values of a container: how they are laid out in one buffer of
 32-bit words, and what an element's part of it holds.

 A value is a header (cookie, total size, a two-word time stamp, a generation)
 and one word or more of data.
 */
module ElementValues {
  import opened Numbers
  import BitCodec
  import opened ElementContainer
  import opened Options

  const HEADER: nat := 5        // words before the data

  /** getElementValueSize, in bytes. */
  function ValueSize(e: Element): nat {
    var width := e.bits * e.count;
    var words := width / 32 + (if width % 32 != 0 then 1 else 0);
    24 + (if words > 1 then (words - 1) * 4 else 0)
  }

  /** Words of data: all bits of the element, and at least one word. */
  function DataWords(e: Element): (n: nat)
    ensures n >= 1
  {
    var n := BitCodec.WordCount(e.Width());
    if n > 1 then n else 1
  }

  function ValueWords(e: Element): nat {
    HEADER + DataWords(e)
  }

  /** The computed size holds the header and every bit of the element. */
  lemma ValueSizeIs(e: Element)
    ensures ValueSize(e) == 4 * ValueWords(e) && 32 * DataWords(e) >= e.Width()
  {
    var width := e.bits * e.count;
    assert e.Width() == width;
  }

  // ------------------------------------------------------- the order of visit

  function TypeAt(i: nat): ReportType {
    if i == 0 then InputReport else if i == 1 then OutputReport else FeatureReport
  }

  function IndexOf(t: ReportType): (i: nat)
    ensures i < 3 && TypeAt(i) == t
  {
    match t case InputReport => 0 case OutputReport => 1 case FeatureReport => 2
  }

  /** The place of an element's chain among the 24 chains. */
  function ChainIndex(e: Element): (i: nat)
    requires TypeOf(e.kind).Some?
    ensures i < 24
  {
    3 * Slot(e.reportID) + IndexOf(TypeOf(e.kind).value)
  }

  lemma ChainIndexIs(e: Element, slot: nat, t: nat)
    requires slot < SLOTS && t < 3
    ensures InChain(e, slot, TypeAt(t)) <==> TypeOf(e.kind).Some? && ChainIndex(e) == 3 * slot + t
  {
  }

  /** An element that has a value. */
  predicate HasValue(elements: seq<Element>, c: nat) {
    c < |elements| && TypeOf(elements[c].kind).Some?
  }

  /** A chain from one of its elements on. */
  ghost function ChainFrom(elements: seq<Element>, at: Option<nat>, slot: nat, t: ReportType): (v: seq<nat>)
    requires Linked(elements) && (at.Some? ==> at.value < |elements| && InChain(elements[at.value], slot, t))
    decreases Upto(at)
  {
    if at.None? then []
    else
      assert elements[at.value].next == Before(elements, at.value, slot, t);
      [at.value] + ChainFrom(elements, elements[at.value].next, slot, t)
  }

  lemma {:induction false} ChainFromIs(elements: seq<Element>, at: Option<nat>, slot: nat, t: ReportType)
    requires Linked(elements) && (at.Some? ==> at.value < |elements| && InChain(elements[at.value], slot, t))
    ensures var v := ChainFrom(elements, at, slot, t);
      && Descending(v)
      && forall c: nat :: c in v <==> c < Upto(at) && InChain(elements[c], slot, t)
    decreases Upto(at)
  {
    if at.Some? {
      var n := elements[at.value].next;
      assert n == Before(elements, at.value, slot, t);
      ChainFromIs(elements, n, slot, t);
      var rest := ChainFrom(elements, n, slot, t);
      DescendingCons(at.value, rest);
      assert forall c: nat :: c in [at.value] + rest <==> c == at.value || c in rest;
    }
  }

  /** The whole chain number `i`. */
  ghost function Chain(elements: seq<Element>, heads: Heads, i: nat): seq<nat>
    requires Linked(elements) && Headed(elements, heads) && i < 24
  {
    assert Head(heads, i / 3, TypeAt(i % 3)) == Before(elements, |elements|, i / 3, TypeAt(i % 3));
    ChainFrom(elements, Head(heads, i / 3, TypeAt(i % 3)), i / 3, TypeAt(i % 3))
  }

  lemma ChainIs(elements: seq<Element>, heads: Heads, i: nat)
    requires Linked(elements) && Headed(elements, heads) && i < 24
    ensures var v := Chain(elements, heads, i);
      && Descending(v)
      && forall c: nat :: c in v <==> HasValue(elements, c) && ChainIndex(elements[c]) == i
  {
    var at := Head(heads, i / 3, TypeAt(i % 3));
    assert at == Before(elements, |elements|, i / 3, TypeAt(i % 3));
    ChainFromIs(elements, at, i / 3, TypeAt(i % 3));
    forall c: nat ensures c in Chain(elements, heads, i) <==> HasValue(elements, c) && ChainIndex(elements[c]) == i {
      if c < |elements| {
        ChainIndexIs(elements[c], i / 3, i % 3);
      }
    }
  }

  /** The elements of the first `i` chains, in the order of both passes. */
  ghost function Order(elements: seq<Element>, heads: Heads, i: nat): seq<nat>
    requires Linked(elements) && Headed(elements, heads) && i <= 24
  {
    if i == 0 then [] else Order(elements, heads, i - 1) + Chain(elements, heads, i - 1)
  }

  ghost predicate Distinct(v: seq<nat>) {
    forall i, j :: 0 <= i < j < |v| ==> v[i] != v[j]
  }

  lemma DistinctSum(a: seq<nat>, b: seq<nat>)
    requires Distinct(a) && Distinct(b) && forall c <- a :: c !in b
    ensures Distinct(a + b)
  {
    var v := a + b;
    forall i, j | 0 <= i < j < |v| ensures v[i] != v[j] {
      if i < |a| <= j {
        assert a[i] in a && b[j - |a|] in b;
      }
    }
  }

  lemma DescendingDistinct(v: seq<nat>)
    requires Descending(v)
    ensures Distinct(v)
  {
  }

  /** The elements of `v` are those of the first `i` chains, each once. */
  ghost predicate ListsChains(elements: seq<Element>, v: seq<nat>, i: nat) {
    Distinct(v) && forall c: nat :: c in v <==> HasValue(elements, c) && ChainIndex(elements[c]) < i
  }

  lemma ListsNone(elements: seq<Element>)
    ensures ListsChains(elements, [], 0)
  {
  }

  lemma ListsNext(elements: seq<Element>, a: seq<nat>, b: seq<nat>, i: nat)
    requires ListsChains(elements, a, i) && Descending(b)
    requires forall c: nat :: c in b <==> HasValue(elements, c) && ChainIndex(elements[c]) == i
    ensures ListsChains(elements, a + b, i + 1)
  {
    DescendingDistinct(b);
    DistinctSum(a, b);
    forall c: nat ensures c in a + b <==> HasValue(elements, c) && ChainIndex(elements[c]) < i + 1 {
      assert c in a + b <==> c in a || c in b;
    }
  }

  /** Every element that has a value is visited, once. */
  lemma {:induction false} OrderIs(elements: seq<Element>, heads: Heads, i: nat)
    requires Linked(elements) && Headed(elements, heads) && i <= 24
    ensures ListsChains(elements, Order(elements, heads, i), i)
  {
    hide Linked, Headed, Chain, ListsChains;
    if i == 0 {
      ListsNone(elements);
    } else {
      OrderIs(elements, heads, i - 1);
      ChainIs(elements, heads, i - 1);
      ListsNext(elements, Order(elements, heads, i - 1), Chain(elements, heads, i - 1), i - 1);
    }
  }

  function WordsOf(elements: seq<Element>, c: nat): nat {
    if c < |elements| then ValueWords(elements[c]) else 0
  }

  /** The words that the values of the first `n` elements of `v` take together. */
  function Total(elements: seq<Element>, v: seq<nat>, n: nat): nat
    requires n <= |v|
  {
    if n == 0 then 0 else Total(elements, v, n - 1) + WordsOf(elements, v[n - 1])
  }

  lemma {:induction false} TotalOfPrefix(elements: seq<Element>, v: seq<nat>, more: seq<nat>, n: nat)
    requires n <= |v|
    ensures Total(elements, v + more, n) == Total(elements, v, n)
  {
    if n > 0 {
      TotalOfPrefix(elements, v, more, n - 1);
    }
  }

  // ---------------------------------------------------------------- tiling

  type Locations = map<nat, nat>

  /** The word `w` is part of the value of `c`. */
  predicate Covers(elements: seq<Element>, location: Locations, c: nat, w: nat) {
    HasValue(elements, c) && c in location && location[c] <= w < location[c] + WordsOf(elements, c)
  }

  ghost predicate Used(elements: seq<Element>, location: Locations, w: nat) {
    exists c: nat :: Covers(elements, location, c, w)
  }

  predicate Fits(elements: seq<Element>, location: Locations, capacity: nat, c: nat) {
    c in location && location[c] + WordsOf(elements, c) <= capacity
  }

  predicate KeptApart(elements: seq<Element>, location: Locations, c: nat, d: nat) {
    c in location && d in location
    && (location[c] + WordsOf(elements, c) <= location[d] || location[d] + WordsOf(elements, d) <= location[c])
  }

  /** Each value has its own words inside the buffer, and no word is unused. */
  ghost predicate Tiled(elements: seq<Element>, location: Locations, capacity: nat) {
    && (forall c: nat :: HasValue(elements, c) ==> Fits(elements, location, capacity, c))
    && (forall c: nat, d: nat :: HasValue(elements, c) && HasValue(elements, d) && c != d ==> KeptApart(elements, location, c, d))
    && (forall w: nat :: w < capacity ==> Used(elements, location, w))
  }

  /** The values of the first `n` of `v` lie one after the other from the start of the buffer. */
  ghost predicate LaidOut(elements: seq<Element>, location: Locations, v: seq<nat>, n: nat)
    requires n <= |v|
  {
    forall k: nat :: k < n ==> AtPlace(elements, location, v, k)
  }

  predicate AtPlace(elements: seq<Element>, location: Locations, v: seq<nat>, k: nat)
    requires k < |v|
  {
    v[k] in location && location[v[k]] == Total(elements, v, k)
  }

  lemma {:induction false} TotalMonotone(elements: seq<Element>, v: seq<nat>, j: nat, k: nat)
    requires j < k <= |v|
    ensures Total(elements, v, j) + WordsOf(elements, v[j]) <= Total(elements, v, k)
    decreases k
  {
    if j < k - 1 {
      TotalMonotone(elements, v, j, k - 1);
    }
  }

  lemma {:induction false} Covered(elements: seq<Element>, location: Locations, v: seq<nat>, n: nat, w: nat) returns (k: nat)
    requires n <= |v| && LaidOut(elements, location, v, |v|) && w < Total(elements, v, n)
    ensures k < n && v[k] in location && location[v[k]] <= w < location[v[k]] + WordsOf(elements, v[k])
  {
    if w < Total(elements, v, n - 1) {
      k := Covered(elements, location, v, n - 1, w);
    } else {
      k := n - 1;
      assert AtPlace(elements, location, v, k);
    }
  }

  lemma LaidOutTiles(elements: seq<Element>, location: Locations, v: seq<nat>)
    requires Distinct(v) && forall c: nat :: c in v <==> HasValue(elements, c)
    requires LaidOut(elements, location, v, |v|)
    ensures Tiled(elements, location, Total(elements, v, |v|))
  {
    forall c: nat | HasValue(elements, c) ensures Fits(elements, location, Total(elements, v, |v|), c) {
      var k: nat :| k < |v| && v[k] == c;
      assert AtPlace(elements, location, v, k);
      TotalMonotone(elements, v, k, |v|);
    }
    forall c: nat, d: nat | HasValue(elements, c) && HasValue(elements, d) && c != d ensures KeptApart(elements, location, c, d) {
      var k: nat, l: nat :| k < |v| && v[k] == c && l < |v| && v[l] == d;
      assert AtPlace(elements, location, v, k) && AtPlace(elements, location, v, l);
      if k < l {
        TotalMonotone(elements, v, k, l);
      } else {
        TotalMonotone(elements, v, l, k);
      }
    }
    forall w: nat | w < Total(elements, v, |v|) ensures Used(elements, location, w) {
      var k := Covered(elements, location, v, |v|, w);
      assert v[k] in v && Covers(elements, location, v[k], w);
    }
  }

  // ---------------------------------------------------------- the two passes

  /** Along a chain: what has been visited, and what is left of chain `i`. */
  ghost predicate Midway(elements: seq<Element>, heads: Heads, i: nat, done: seq<nat>, at: Option<nat>)
    requires Linked(elements) && Headed(elements, heads) && i < 24
  {
    && (at.Some? ==> at.value < |elements| && InChain(elements[at.value], i / 3, TypeAt(i % 3)))
    && done + ChainFrom(elements, at, i / 3, TypeAt(i % 3)) == Order(elements, heads, i + 1)
  }

  lemma MidwayStart(elements: seq<Element>, heads: Heads, i: nat)
    requires Linked(elements) && Headed(elements, heads) && i < 24
    ensures Midway(elements, heads, i, Order(elements, heads, i), Head(heads, i / 3, TypeAt(i % 3)))
  {
    assert Head(heads, i / 3, TypeAt(i % 3)) == Before(elements, |elements|, i / 3, TypeAt(i % 3));
  }

  lemma NextInChain(elements: seq<Element>, c: nat, slot: nat, t: ReportType)
    requires Linked(elements) && c < |elements| && InChain(elements[c], slot, t)
    ensures var n := elements[c].next;
      n.Some? ==> n.value < c && InChain(elements[n.value], slot, t)
  {
    assert elements[c].next == Before(elements, c, slot, t);
  }

  lemma MidwayNext(elements: seq<Element>, heads: Heads, i: nat, done: seq<nat>, c: nat)
    requires Linked(elements) && Headed(elements, heads) && i < 24 && Midway(elements, heads, i, done, Some(c))
    ensures Midway(elements, heads, i, done + [c], elements[c].next)
    ensures elements[c].next.Some? ==> elements[c].next.value < c
    ensures |done| < |Order(elements, heads, i + 1)| && Order(elements, heads, i + 1)[|done|] == c
    ensures Order(elements, heads, i + 1)[..|done|] == done
  {
    var slot, t := i / 3, TypeAt(i % 3);
    NextInChain(elements, c, slot, t);
    hide Linked, Headed, Order;
    var rest := ChainFrom(elements, elements[c].next, slot, t);
    assert ChainFrom(elements, Some(c), slot, t) == [c] + rest;
    assert done + ([c] + rest) == (done + [c]) + rest;
  }

  lemma MidwayEnd(elements: seq<Element>, heads: Heads, i: nat, done: seq<nat>)
    requires Linked(elements) && Headed(elements, heads) && i < 24 && Midway(elements, heads, i, done, None)
    ensures done == Order(elements, heads, i + 1)
  {
    assert done + [] == done;
  }

  lemma {:induction false} OrderPrefix(elements: seq<Element>, heads: Heads, i: nat, j: nat)
    requires Linked(elements) && Headed(elements, heads) && i <= j <= 24
    ensures Order(elements, heads, i) <= Order(elements, heads, j)
    decreases j
  {
    hide Linked, Headed, Chain;
    if i < j {
      OrderPrefix(elements, heads, i, j - 1);
    }
  }

  lemma TotalAppend(elements: seq<Element>, done: seq<nat>, c: nat)
    ensures Total(elements, done + [c], |done| + 1) == Total(elements, done, |done|) + WordsOf(elements, c)
  {
    TotalOfPrefix(elements, done, [c], |done|);
  }

  /** The first pass: the room that all values take, in bytes. */
  method Capacity(elements: seq<Element>, heads: Heads) returns (capacity: nat)
    requires Linked(elements) && Headed(elements, heads)
    ensures var v := Order(elements, heads, 24); capacity == 4 * Total(elements, v, |v|)
  {
    hide Linked, Headed, Chain;
    capacity := 0;
    for slot := 0 to SLOTS
      invariant var v := Order(elements, heads, 3 * slot); capacity == 4 * Total(elements, v, |v|)
    {
      for t := 0 to 3
        invariant var v := Order(elements, heads, 3 * slot + t); capacity == 4 * Total(elements, v, |v|)
      {
        capacity := CapacityOfChain(elements, heads, 3 * slot + t, Head(heads, slot, TypeAt(t)), capacity);
      }
    }
  }

  method CapacityOfChain(elements: seq<Element>, heads: Heads, i: nat, head: Option<nat>, before: nat) returns (capacity: nat)
    requires Linked(elements) && Headed(elements, heads) && i < 24 && head == Head(heads, i / 3, TypeAt(i % 3))
    requires var v := Order(elements, heads, i); before == 4 * Total(elements, v, |v|)
    ensures var v := Order(elements, heads, i + 1); capacity == 4 * Total(elements, v, |v|)
  {
    hide Linked, Headed, Order;
    capacity := before;
    ghost var done := Order(elements, heads, i);
    var at := head;
    MidwayStart(elements, heads, i);
    while at.Some?
      invariant Midway(elements, heads, i, done, at) && capacity == 4 * Total(elements, done, |done|)
      decreases Upto(at)
    {
      var c := at.value;
      MidwayNext(elements, heads, i, done, c);
      TotalAppend(elements, done, c);
      ValueSizeIs(elements[c]);
      capacity := capacity + ValueSize(elements[c]);
      done := done + [c];
      at := elements[c].next;
    }
    MidwayEnd(elements, heads, i, done);
  }

  /** A value as setMemoryForElementValue leaves it. */
  function Initial(e: Element, c: nat): (s: seq<Word>)
    ensures |s| == ValueWords(e)
  {
    [c % 0x1_0000_0000, ValueSize(e) % 0x1_0000_0000] + seq(ValueWords(e) - 2, i => 0)
  }

  /** A new value: the cookie, the size of the value in bytes, and zeros. */
  lemma InitialIs(e: Element, c: nat)
    ensures var s := Initial(e, c);
      && s[0] == c % 0x1_0000_0000 && s[1] == 4 * |s| % 0x1_0000_0000
      && forall w :: 2 <= w < |s| ==> s[w] == 0
  {
    ValueSizeIs(e);
  }

  method SetMemoryForElementValue(e: Element, c: nat, memory: array<Word>, at: nat)
    requires at + ValueWords(e) <= memory.Length
    modifies memory
    ensures memory[at..at + ValueWords(e)] == Initial(e, c)
    ensures forall w :: 0 <= w < memory.Length && !(at <= w < at + ValueWords(e)) ==> memory[w] == old(memory[w])
  {
    var n := ValueWords(e);
    for i := 0 to n
      invariant forall w :: at <= w < at + i ==> memory[w] == 0
      invariant forall w :: 0 <= w < memory.Length && !(at <= w < at + i) ==> memory[w] == old(memory[w])
    {
      memory[at + i] := 0;
    }
    memory[at] := c % 0x1_0000_0000;
    memory[at + 1] := ValueSize(e) % 0x1_0000_0000;
    ghost var value := memory[at..at + n];
    forall k | 0 <= k < n ensures value[k] == Initial(e, c)[k] {
      assert value[k] == memory[at + k];
    }
  }

  /** The value of every placed element is as it was set. */
  ghost predicate AllInitial(elements: seq<Element>, location: Locations, v: seq<nat>, words: seq<Word>) {
    forall k: nat :: k < |v| ==> IsInitial(elements, location, v[k], words)
  }

  ghost predicate IsInitial(elements: seq<Element>, location: Locations, c: nat, words: seq<Word>) {
    && c < |elements| && Fits(elements, location, |words|, c)
    && words[location[c]..location[c] + ValueWords(elements[c])] == Initial(elements[c], c)
  }

  lemma LaidOutNext(elements: seq<Element>, location: Locations, done: seq<nat>, c: nat)
    requires LaidOut(elements, location, done, |done|) && c !in done
    ensures LaidOut(elements, location[c := Total(elements, done, |done|)], done + [c], |done| + 1)
  {
    var more, after := done + [c], location[c := Total(elements, done, |done|)];
    TotalOfPrefix(elements, done, [c], |done|);
    forall k: nat | k < |more| ensures AtPlace(elements, after, more, k) {
      if k < |done| {
        assert AtPlace(elements, location, done, k);
        TotalOfPrefix(elements, done, [c], k);
      }
    }
  }

  lemma InitialNext(elements: seq<Element>, location: Locations, done: seq<nat>, c: nat, was: seq<Word>, now: seq<Word>)
    requires LaidOut(elements, location, done, |done|) && c !in done && c < |elements| && |was| == |now|
    requires AllInitial(elements, location, done, was)
    requires var at := Total(elements, done, |done|);
      && at + ValueWords(elements[c]) <= |now| && now[at..at + ValueWords(elements[c])] == Initial(elements[c], c)
      && forall w :: 0 <= w < at ==> now[w] == was[w]
    ensures AllInitial(elements, location[c := Total(elements, done, |done|)], done + [c], now)
  {
    var at, more := Total(elements, done, |done|), done + [c];
    var after := location[c := at];
    forall k: nat | k < |more| ensures IsInitial(elements, after, more[k], now) {
      if k < |done| {
        assert IsInitial(elements, location, done[k], was) && AtPlace(elements, location, done, k);
        TotalMonotone(elements, done, k, |done|);
        var d := done[k];
        assert now[location[d]..location[d] + ValueWords(elements[d])] == was[location[d]..location[d] + ValueWords(elements[d])];
      }
    }
  }

  /** Every array handler keeps a list of selectors, one for each slot. */
  ghost predicate KeepsSelectors(elements: seq<Element>, lists: map<nat, seq<Word>>) {
    forall h: nat :: HandlesArray(elements, h) ==> h in lists && |lists[h]| == elements[h].count
  }

  class ElementValues {
    const elements: seq<Element>
    const heads: Heads
    const memory: array<Word>
    const rollOver: Option<nat>
    var location: Locations
    var pending: set<nat>       // the elements in transaction state pending
    var oldSelectors: map<nat, seq<Word>>   // of each array handler: _oldArraySelectors

    ghost predicate Valid()
      reads this
    {
      && Linked(elements) && Headed(elements, heads) && Grouped(elements) && KnownRollOver(elements, rollOver)
      && Tiled(elements, location, memory.Length)
      && Slotted(elements) && KeepsSelectors(elements, oldSelectors) && |elements| <= 0x1_0000_0000
    }

    /** createElementValuesMemory: the values tile a buffer of exactly the
        computed capacity, and each starts out cleared, with its cookie and size. */
    constructor (container: IOHIDElementContainer)
      requires container.Chains() && Slotted(container.elements) && |container.elements| <= 0x1_0000_0000
      ensures elements == container.elements && heads == container.heads && rollOver == container.rollOver
      ensures Valid() && fresh(memory) && pending == {}
      ensures forall c: nat :: HasValue(elements, c) ==> IsInitial(elements, location, c, memory[..])
      ensures forall h: nat :: HandlesArray(elements, h) ==> oldSelectors[h] == seq(elements[h].count, i => 0)
    {
      var elements, heads := container.elements, container.heads;
      var capacity := Capacity(elements, heads);
      this.elements, this.heads, rollOver, pending := elements, heads, container.rollOver, {};
      memory := new Word[capacity / 4];
      oldSelectors := map h: nat | h < |elements| && HandlesArray(elements, h) :: seq(elements[h].count, i => 0);
      location := map[];
      new;
      Assign(elements, heads, memory);
    }

    /** The second pass. */
    method Assign(elements: seq<Element>, heads: Heads, memory: array<Word>)
      requires Linked(elements) && Headed(elements, heads) && location == map[]
      requires var v := Order(elements, heads, 24); memory.Length == Total(elements, v, |v|)
      modifies this`location, memory
      ensures Tiled(elements, location, memory.Length)
      ensures forall c: nat :: HasValue(elements, c) ==> IsInitial(elements, location, c, memory[..])
    {
      hide Linked, Headed, Chain, Distinct, Tiled, LaidOut, AllInitial, IsInitial, Laid, ListsChains;
      OrderIs(elements, heads, 24);
      var buffer := 0;
      NothingLaid(elements, location, memory[..]);
      for slot := 0 to SLOTS
        invariant var v := Order(elements, heads, 3 * slot); Laid(elements, v, location, memory[..], buffer)
      {
        for t := 0 to 3
          invariant var v := Order(elements, heads, 3 * slot + t); Laid(elements, v, location, memory[..], buffer)
        {
          buffer := AssignChain(elements, heads, memory, 3 * slot + t, Head(heads, slot, TypeAt(t)), buffer);
        }
      }
      AllLaid(elements, Order(elements, heads, 24), location, memory[..], buffer);
    }

    method AssignChain(elements: seq<Element>, heads: Heads, memory: array<Word>, i: nat, head: Option<nat>, before: nat)
      returns (buffer: nat)
      requires Linked(elements) && Headed(elements, heads) && i < 24 && head == Head(heads, i / 3, TypeAt(i % 3))
      requires var v := Order(elements, heads, 24); ListsChains(elements, v, 24) && memory.Length == Total(elements, v, |v|)
      requires Laid(elements, Order(elements, heads, i), location, memory[..], before)
      modifies this`location, memory
      ensures Laid(elements, Order(elements, heads, i + 1), location, memory[..], buffer)
    {
      hide Linked, Headed, Order, Laid;
      buffer := before;
      ghost var full, done := Order(elements, heads, 24), Order(elements, heads, i);
      var at := head;
      MidwayStart(elements, heads, i);
      OrderPrefix(elements, heads, i + 1, 24);
      while at.Some?
        invariant Midway(elements, heads, i, done, at) && Laid(elements, done, location, memory[..], buffer)
        decreases Upto(at)
      {
        var c := at.value;
        MidwayNext(elements, heads, i, done, c);
        NextInOrder(elements, full, Order(elements, heads, i + 1), done, c);
        buffer := AssignOne(elements, memory, c, buffer, done);
        done := done + [c];
        at := elements[c].next;
      }
      MidwayEnd(elements, heads, i, done);
    }

    method AssignOne(elements: seq<Element>, memory: array<Word>, c: nat, before: nat, ghost done: seq<nat>) returns (buffer: nat)
      requires c < |elements| && c !in done && Total(elements, done, |done|) + WordsOf(elements, c) <= memory.Length
      requires Laid(elements, done, location, memory[..], before)
      modifies this`location, memory
      ensures Laid(elements, done + [c], location, memory[..], buffer)
    {
      hide LaidOut, AllInitial;
      ghost var was := memory[..];
      SetMemoryForElementValue(elements[c], c, memory, before);
      InitialNext(elements, location, done, c, was, memory[..]);
      LaidOutNext(elements, location, done, c);
      TotalAppend(elements, done, c);
      location := location[c := before];
      buffer := before + ValueWords(elements[c]);
    }
  }

  /** The values of `done` have been laid out and set, up to `buffer`. */
  ghost predicate Laid(elements: seq<Element>, done: seq<nat>, location: Locations, words: seq<Word>, buffer: nat) {
    && buffer == Total(elements, done, |done|)
    && LaidOut(elements, location, done, |done|) && AllInitial(elements, location, done, words)
  }

  lemma NothingLaid(elements: seq<Element>, location: Locations, words: seq<Word>)
    ensures Laid(elements, [], location, words, 0)
  {
  }

  lemma AllLaid(elements: seq<Element>, v: seq<nat>, location: Locations, words: seq<Word>, buffer: nat)
    requires ListsChains(elements, v, 24) && Laid(elements, v, location, words, buffer) && |words| == Total(elements, v, |v|)
    ensures Tiled(elements, location, |words|)
    ensures forall c: nat :: HasValue(elements, c) ==> IsInitial(elements, location, c, words)
  {
    LaidOutTiles(elements, location, v);
    EachInitial(elements, location, v, words);
  }

  lemma EachInitial(elements: seq<Element>, location: Locations, v: seq<nat>, words: seq<Word>)
    requires AllInitial(elements, location, v, words)
    ensures forall c <- v :: IsInitial(elements, location, c, words)
  {
    forall c | c in v ensures IsInitial(elements, location, c, words) {
      var k: nat :| k < |v| && v[k] == c;
      assert IsInitial(elements, location, v[k], words);
    }
  }

  lemma NextInOrder(elements: seq<Element>, full: seq<nat>, part: seq<nat>, done: seq<nat>, c: nat)
    requires part <= full && |done| < |part| && part[..|done|] == done && part[|done|] == c && ListsChains(elements, full, 24)
    ensures c !in done && Total(elements, done, |done|) + WordsOf(elements, c) <= Total(elements, full, |full|)
  {
    forall k | 0 <= k < |done| ensures done[k] != c {
      assert full[k] == part[k] == part[..|done|][k] && full[|done|] == part[|done|];
    }
    var rest := full[|done|..];
    assert full[..|done|] == part[..|done|];
    assert full == done + rest;
    TotalOfPrefix(elements, done, rest, |done|);
    TotalMonotone(elements, full, |done|, |full|);
  }
}
