/**
 Reading the field of one element out of a report into the element's value.
 */
module ElementReading {
  import opened Numbers
  import opened BitCodec
  import opened ElementContainer
  import opened ElementValues
  import opened Options

  // --------------------------------------------------- the values in the buffer

  const STAMP_LOW: nat := 2
  const STAMP_HIGH: nat := 3
  const GENERATION: nat := 4

  /** The words of a value inside the buffer. */
  function Part(words: seq<Word>, location: Locations, elements: seq<Element>, c: nat): (s: seq<Word>)
    requires HasValue(elements, c) && Fits(elements, location, |words|, c)
    ensures |s| == ValueWords(elements[c])
  {
    words[location[c]..location[c] + ValueWords(elements[c])]
  }

  /** The values of all elements, by cookie; a collection has none. */
  ghost function ValuesIn(elements: seq<Element>, location: Locations, words: seq<Word>): (vals: seq<seq<Word>>)
    requires Tiled(elements, location, |words|)
    ensures Shaped(elements, vals)
  {
    seq(|elements|, c requires 0 <= c < |elements| => if HasValue(elements, c) then Part(words, location, elements, c) else [])
  }

  ghost predicate Shaped(elements: seq<Element>, vals: seq<seq<Word>>) {
    |vals| == |elements| && forall c: nat :: HasValue(elements, c) ==> |vals[c]| == ValueWords(elements[c])
  }

  ghost function Values(v: ElementValues): (vals: seq<seq<Word>>)
    requires v.Valid()
    reads v, v.memory
    ensures Shaped(v.elements, vals)
  {
    ValuesIn(v.elements, v.location, v.memory[..])
  }

  /** The words outside `n` words at `at` are as they were. */
  ghost predicate SameOutside(was: seq<Word>, now: seq<Word>, at: nat, n: nat) {
    |now| == |was| && forall w :: 0 <= w < |was| && !(at <= w < at + n) ==> now[w] == was[w]
  }

  lemma FitsIn(elements: seq<Element>, location: Locations, capacity: nat, c: nat)
    requires Tiled(elements, location, capacity) && HasValue(elements, c)
    ensures Fits(elements, location, capacity, c)
  {
  }

  /** Writing inside one value changes that value and no other. */
  lemma OneValueChanged(elements: seq<Element>, location: Locations, was: seq<Word>, now: seq<Word>, c: nat)
    requires Tiled(elements, location, |was|) && |now| == |was| && HasValue(elements, c)
    requires SameOutside(was, now, location[c], ValueWords(elements[c]))
    ensures Fits(elements, location, |was|, c)
    ensures ValuesIn(elements, location, now) == ValuesIn(elements, location, was)[c := Part(now, location, elements, c)]
  {
    var a, b := ValuesIn(elements, location, was), ValuesIn(elements, location, now);
    forall d: nat | d < |elements| && d != c ensures b[d] == a[d] {
      if HasValue(elements, d) {
        assert KeptApart(elements, location, c, d);
        assert Part(now, location, elements, d) == Part(was, location, elements, d);
      }
    }
  }

  // ------------------------------------------------------------------ one value

  /** An AbsoluteTime, in two words. */
  datatype Time = Time(low: Word, high: Word)
  {
    function Ticks(): nat { low + 0x1_0000_0000 * high }
  }

  function Stamp(value: seq<Word>): Time
    requires |value| > HEADER
  {
    Time(value[STAMP_LOW], value[STAMP_HIGH])
  }

  function WithStamp(value: seq<Word>, stamp: Time): (r: seq<Word>)
    requires |value| > HEADER
    ensures |r| == |value| && Stamp(r) == stamp && r[HEADER..] == value[HEADER..]
  {
    value[STAMP_LOW := stamp.low][STAMP_HIGH := stamp.high]
  }

  function NextGeneration(generation: Word): Word {
    if generation == 0xFFFF_FFFF then 0 else generation + 1
  }

  /** How many bits of the report are read: all of the field, or what is left
      of the report for an element of variable size. */
  function ReadSize(e: Element, reportBits: nat): (n: nat)
    requires Reaches(e, reportBits)
    ensures e.startBit + n <= reportBits && n <= e.Width()
  {
    if e.variable && reportBits - e.startBit < e.Width() then reportBits - e.startBit else e.Width()
  }

  /** The report is long enough for the element. */
  predicate Reaches(e: Element, reportBits: nat) {
    if e.variable then e.startBit < reportBits else e.startBit + e.Width() <= reportBits
  }

  /** The data words after reading. */
  function ReadData(e: Element, data: seq<Word>, report: seq<Byte>): (r: seq<Word>)
    requires |data| == DataWords(e) && Reaches(e, 8 * |report|)
    ensures |r| == |data|
  {
    var n := ReadSize(e, 8 * |report|);
    var words := WordCount(n);
    StoredWords(data[..words], ReportField(report, e.startBit, n), n, CopiedByBytes(e.startBit, n, e.IsSigned()), e.IsSigned())
    + data[words..]
  }

  /** Does the element count as moved, so that it gets the time of the report? A
      relative element that stays at zero does not. */
  predicate Moved(e: Element, value: seq<Word>, changed: bool)
    requires |value| > HEADER
  {
    (changed || e.interrupt || e.isRelative) && (!e.isRelative || e.bits > 32 || changed || value[HEADER] != 0)
  }

  function Header(value: seq<Word>, stamp: Time, generation: Word): seq<Word>
    requires |value| > HEADER
  {
    value[..STAMP_LOW] + [stamp.low, stamp.high, generation]
  }

  /** The value while its update is under way: the generation is odd. */
  function BegunValue(e: Element, value: seq<Word>, report: seq<Byte>, timestamp: Time): (r: seq<Word>)
    requires |value| == ValueWords(e) && Reaches(e, 8 * |report|)
    ensures |r| == |value| && r[HEADER..] == ReadData(e, value[HEADER..], report)
    ensures Stamp(r) == if Moved(e, value, r[HEADER..] != value[HEADER..]) then timestamp else Stamp(value)
  {
    var data := ReadData(e, value[HEADER..], report);
    var stamp := if Moved(e, value, data != value[HEADER..]) then timestamp else Stamp(value);
    Header(value, stamp, NextGeneration(value[GENERATION])) + data
  }

  /** The update completed; a value that never had a time gets the report's. */
  function EndedValue(value: seq<Word>, timestamp: Time): (r: seq<Word>)
    requires |value| > HEADER
    ensures |r| == |value| && r[HEADER..] == value[HEADER..]
    ensures Stamp(r) == if Stamp(value) == Time(0, 0) then timestamp else Stamp(value)
  {
    var stamp := if Stamp(value) == Time(0, 0) then timestamp else Stamp(value);
    Header(value, stamp, NextGeneration(value[GENERATION])) + value[HEADER..]
  }

  /** The whole value after reading: the data, a generation two higher, and the
      time of the report if the element moved or had no time. */
  function ReadValue(e: Element, value: seq<Word>, report: seq<Byte>, timestamp: Time): (r: seq<Word>)
    requires |value| == ValueWords(e) && Reaches(e, 8 * |report|)
    ensures |r| == |value| && r[HEADER..] == ReadData(e, value[HEADER..], report)
  {
    EndedValue(BegunValue(e, value, report, timestamp), timestamp)
  }

  // ------------------------------------------------------------- in the buffer

  lemma SliceKept(was: seq<Word>, now: seq<Word>, at: nat, n: nat, i: nat, j: nat)
    requires SameOutside(was, now, at, n) && i <= j <= |was| && (j <= at || at + n <= i)
    ensures now[i..j] == was[i..j]
  {
  }

  method ReadDataInto(e: Element, memory: array<Word>, base: nat, report: seq<Byte>) returns (changed: bool)
    requires base + DataWords(e) <= memory.Length && Reaches(e, 8 * |report|)
    modifies memory
    ensures SameOutside(old(memory[..]), memory[..], base, DataWords(e))
    ensures var was := old(memory[base..base + DataWords(e)]);
      && memory[base..base + DataWords(e)] == ReadData(e, was, report)
      && changed == (ReadData(e, was, report) != was)
  {
    ghost var was, all := memory[base..base + DataWords(e)], memory[..];
    var n := ReadSize(e, 8 * |report|);
    WordsFit(n, e.Width());
    changed := ReadReportBits(report, memory, base, n, e.startBit, e.IsSigned(), false);
    var words := WordCount(n);
    assert memory[base + words..base + DataWords(e)] == was[words..];
    assert memory[base..base + words] + memory[base + words..base + DataWords(e)] == memory[base..base + DataWords(e)];
    assert was[..words] == all[base..base + words];
    if memory[base..base + DataWords(e)] == was {
      assert memory[..] == all;
    }
  }

  lemma WordsFit(n: nat, width: nat)
    requires n <= width
    ensures WordCount(n) <= WordCount(width)
  {
  }

  /** A value put together from its header and its data. */
  lemma ValueParts(value: seq<Word>, was: seq<Word>, stamp: Time, generation: Word, data: seq<Word>)
    requires |value| == |was| == HEADER + |data| && |data| > 0
    requires value[0] == was[0] && value[1] == was[1] && Stamp(value) == stamp && value[GENERATION] == generation
    requires value[HEADER..] == data
    ensures value == Header(was, stamp, generation) + data
  {
    assert value == value[..HEADER] + value[HEADER..];
    assert value[..HEADER] == Header(was, stamp, generation);
  }

  /** The first half of processReport of an element: the generation becomes odd,
      the data is read, and an element that moved gets the time of the report. */
  method BeginRead(e: Element, memory: array<Word>, at: nat, report: seq<Byte>, timestamp: Time) returns (changed: bool)
    requires at + ValueWords(e) <= memory.Length && Reaches(e, 8 * |report|)
    modifies memory
    ensures SameOutside(old(memory[..]), memory[..], at, ValueWords(e))
    ensures var was := old(memory[at..at + ValueWords(e)]);
      && memory[at..at + ValueWords(e)] == BegunValue(e, was, report, timestamp)
      && changed == (ReadData(e, was[HEADER..], report) != was[HEADER..])
  {
    hide ReadData, DataWords, Reaches;
    ghost var was, data, end, m0 := memory[at..at + ValueWords(e)], at + HEADER, at + ValueWords(e), memory[..];
    assert was[HEADER..] == m0[data..end];
    memory[at + GENERATION] := NextGeneration(memory[at + GENERATION]);
    ghost var m1 := memory[..];
    SliceKept(m0, m1, at + GENERATION, 1, data, end);
    var previousValue := memory[at + HEADER];
    changed := ReadDataInto(e, memory, at + HEADER, report);
    ghost var m2 := memory[..];
    SliceKept(m1, m2, data, DataWords(e), at, data);
    assert m2[at..data] == m1[at..data] && m2[at + GENERATION] == m2[at..data][GENERATION];
    if (changed || e.interrupt || e.isRelative) && (!e.isRelative || e.bits > 32 || changed || previousValue != 0) {
      memory[at + STAMP_LOW], memory[at + STAMP_HIGH] := timestamp.low, timestamp.high;
    }
    SliceKept(m2, memory[..], at + STAMP_LOW, 2, data, end);
    ghost var value := memory[at..end];
    assert value[HEADER..] == memory[..][data..end];
    ghost var stamp := if Moved(e, was, changed) then timestamp else Stamp(was);
    assert m2[at] == m0[at] && m2[at + 1] == m0[at + 1] && m2[at + STAMP_LOW] == m0[at + STAMP_LOW]
           && m2[at + STAMP_HIGH] == m0[at + STAMP_HIGH];
    ValueParts(value, was, stamp, NextGeneration(was[GENERATION]), ReadData(e, was[HEADER..], report));
  }

  /** The second half: a time for a value that has none, and the generation even. */
  method EndRead(memory: array<Word>, at: nat, n: nat, timestamp: Time)
    requires at + n <= memory.Length && n > HEADER
    modifies memory
    ensures SameOutside(old(memory[..]), memory[..], at, n)
    ensures memory[at..at + n] == EndedValue(old(memory[at..at + n]), timestamp)
  {
    ghost var was := memory[at..at + n];
    if memory[at + STAMP_LOW] == 0 && memory[at + STAMP_HIGH] == 0 {
      memory[at + STAMP_LOW], memory[at + STAMP_HIGH] := timestamp.low, timestamp.high;
    }
    memory[at + GENERATION] := NextGeneration(memory[at + GENERATION]);
    ghost var stamp := if Stamp(was) == Time(0, 0) then timestamp else Stamp(was);
    ghost var value := memory[at..at + n];
    assert value[HEADER..] == was[HEADER..];
    ValueParts(value, was, stamp, NextGeneration(was[GENERATION]), was[HEADER..]);
  }

  method StampValue(v: ElementValues, c: nat, timestamp: Time)
    requires v.Valid() && HasValue(v.elements, c)
    modifies v.memory
    ensures v.Valid() && Values(v) == old(Values(v))[c := WithStamp(old(Values(v)[c]), timestamp)]
  {
    FitsIn(v.elements, v.location, v.memory.Length, c);
    ghost var was := v.memory[..];
    var at := v.location[c];
    v.memory[at + STAMP_LOW], v.memory[at + STAMP_HIGH] := timestamp.low, timestamp.high;
    OneValueChanged(v.elements, v.location, was, v.memory[..], c);
    assert Part(v.memory[..], v.location, v.elements, c) == WithStamp(Part(was, v.location, v.elements, c), timestamp);
  }

  method BeginElement(v: ElementValues, c: nat, report: seq<Byte>, timestamp: Time) returns (changed: bool)
    requires v.Valid() && HasValue(v.elements, c) && Reaches(v.elements[c], 8 * |report|)
    modifies v.memory
    ensures v.Valid() && Values(v) == old(Values(v))[c := BegunValue(v.elements[c], old(Values(v)[c]), report, timestamp)]
    ensures changed == (ReadData(v.elements[c], old(Values(v)[c])[HEADER..], report) != old(Values(v)[c])[HEADER..])
  {
    hide BegunValue, ReadData, Reaches, Tiled, Linked, Headed, Grouped, SlottedFrom;
    FitsIn(v.elements, v.location, v.memory.Length, c);
    ghost var was := v.memory[..];
    var at, n := v.location[c], ValueWords(v.elements[c]);
    assert was[at..at + n] == v.memory[at..at + n] == Part(was, v.location, v.elements, c);
    changed := BeginRead(v.elements[c], v.memory, at, report, timestamp);
    OneValueChanged(v.elements, v.location, was, v.memory[..], c);
    assert v.memory[..][at..at + n] == v.memory[at..at + n];
  }

  method EndElement(v: ElementValues, c: nat, timestamp: Time)
    requires v.Valid() && HasValue(v.elements, c)
    modifies v`pending, v.memory
    ensures v.pending == old(v.pending) - {c}
    ensures v.Valid() && Values(v) == old(Values(v))[c := EndedValue(old(Values(v)[c]), timestamp)]
  {
    hide EndedValue, Tiled, Linked, Headed, Grouped, SlottedFrom;
    FitsIn(v.elements, v.location, v.memory.Length, c);
    ghost var was := v.memory[..];
    var at, n := v.location[c], ValueWords(v.elements[c]);
    assert was[at..at + n] == v.memory[at..at + n] == Part(was, v.location, v.elements, c);
    EndRead(v.memory, at, n, timestamp);
    v.pending := v.pending - {c};
    OneValueChanged(v.elements, v.location, was, v.memory[..], c);
    assert v.memory[..][at..at + n] == v.memory[at..at + n];
  }

  /** processReport of an element that handles no array, after the checks that
      stop it. */
  method ReadElement(v: ElementValues, c: nat, report: seq<Byte>, timestamp: Time) returns (changed: bool)
    requires v.Valid() && HasValue(v.elements, c) && Reaches(v.elements[c], 8 * |report|)
    modifies v`pending, v.memory
    ensures v.pending == old(v.pending) - {c}
    ensures v.Valid() && Values(v) == old(Values(v))[c := ReadValue(v.elements[c], old(Values(v)[c]), report, timestamp)]
    ensures changed == (ReadData(v.elements[c], old(Values(v)[c])[HEADER..], report) != old(Values(v)[c])[HEADER..])
  {
    hide BegunValue, EndedValue, ReadData, Reaches, Tiled, Linked, Headed, Grouped, SlottedFrom;
    changed := BeginElement(v, c, report, timestamp);
    EndElement(v, c, timestamp);
  }
}
