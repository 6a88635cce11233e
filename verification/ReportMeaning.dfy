/**
 What a report means for the elements: the number that an element holds after
 reading, and when its time stamp moves, told from the fields of the element.
 */
module ReportMeaning {
  import opened Numbers
  import opened BitCodec
  import opened ElementContainer
  import opened ElementValues
  import opened ElementReading
  import opened ArrayReports
  import opened ArraysInForce
  import opened ElementReports
  import opened Options

  // ------------------------------------------------------------- the numbers

  /** The number that the field contents `f` stand for: with a negative logical limit
      a field of up to 32 bits is in two's complement. */
  function Means(e: Element, f: nat): int {
    var n := e.bits * e.count;
    if (e.logicalMin < 0 || e.logicalMax < 0) && 0 < n <= 32 && f >= Pow2(n - 1) then f - Pow2(n) else f
  }

  /** The number that the data words of an element hold. */
  function Held(e: Element, data: seq<Word>): int
    requires |data| == DataWords(e)
  {
    if (e.logicalMin < 0 || e.logicalMax < 0) && e.bits * e.count <= 32 then AsSigned(data[0]) else Number(data, 32)
  }

  /** Reading a whole field leaves the number it stands for. */
  lemma FieldHeld(e: Element, data: seq<Word>, report: seq<Byte>)
    requires |data| == DataWords(e) && UnusedZero(e, data)
    requires Reaches(e, 8 * |report|) && e.startBit + e.Width() <= 8 * |report|
    ensures Held(e, ReadData(e, data, report)) == Means(e, ReportField(report, e.startBit, e.bits * e.count))
  {
    var n := e.Width();
    var f := ReportField(report, e.startBit, n);
    if n == 0 {
      WidthlessIsZero(e, data);
      OneWord(data);
      assert ReadSize(e, 8 * |report|) == 0 && data[0..] == data;
      assert ReadData(e, data, report) == data;
      assert f < Pow2(0) == 1;
    } else {
      hide StoredWords, ReadData, Number, UnusedZero, AsSigned, Pow2, CopiedByBytes;
      ReadWhole(e, data, report);
      if e.logicalMin < 0 || e.logicalMax < 0 {
        SignedHeld(data, f, n);
      } else {
        UnsignedHeld(data, f, n, CopiedByBytes(e.startBit, n, false));
      }
    }
  }

  lemma ReadWhole(e: Element, data: seq<Word>, report: seq<Byte>)
    requires |data| == DataWords(e) && UnusedZero(e, data) && e.Width() > 0
    requires Reaches(e, 8 * |report|) && e.startBit + e.Width() <= 8 * |report|
    ensures var n, signed := e.Width(), e.logicalMin < 0 || e.logicalMax < 0;
      var copied := CopiedByBytes(e.startBit, n, signed);
      && |data| == WordCount(n) && (signed ==> !copied)
      && ReadData(e, data, report) == StoredWords(data, ReportField(report, e.startBit, n), n, copied, signed)
      && (copied ==> Above(data[|data| - 1], n - 32 * (|data| - 1)) == 0)
  {
    WordsOfWidth(e);
    assert data[..WordCount(e.Width())] == data && data[WordCount(e.Width())..] == [];
  }

  lemma SignedHeld(old_: seq<Word>, f: nat, n: nat)
    requires n > 0 && |old_| == WordCount(n) && f < Pow2(n)
    ensures var s := StoredWords(old_, f, n, false, true);
      if n <= 32 then AsSigned(s[0]) == if f >= Pow2(n - 1) then f - Pow2(n) else f else Number(s, 32) == f
  {
    if n < 32 {
      StoredSigned(old_[0], f, n);
    } else {
      assert StoredWords(old_, f, n, false, true) == StoredWords(old_, f, n, false, false);
      StoredNumber(old_, f, n);
      if n == 32 {
        OneWord(StoredWords(old_, f, n, false, false));
        Pow2Values();
      }
    }
  }

  lemma UnsignedHeld(old_: seq<Word>, f: nat, n: nat, copied: bool)
    requires n > 0 && |old_| == WordCount(n) && f < Pow2(n)
    requires copied ==> Above(old_[|old_| - 1], n - 32 * (|old_| - 1)) == 0
    ensures Number(StoredWords(old_, f, n, copied, false), 32) == f
  {
    StoredNumber(old_, f, n);
    if copied {
      CopyAgreesWithLoop(old_, f, n);
    }
  }

  /** Of an element of variable size, in a report that ends inside it, as many bits are
      read as are left, into the first words; the others stay. */
  lemma ShortFieldRead(e: Element, data: seq<Word>, report: seq<Byte>)
    requires |data| == DataWords(e) && e.variable && e.logicalMin >= 0 && e.logicalMax >= 0
    requires e.startBit < 8 * |report| < e.startBit + e.bits * e.count
    ensures var m := 8 * |report| - e.startBit;
      var k := WordCount(m);
      var now := ReadData(e, data, report);
      && 0 < k <= |data| && now[k..] == data[k..]
      && (Above(data[k - 1], m - 32 * (k - 1)) == 0 ==> Number(now[..k], 32) == ReportField(report, e.startBit, m))
  {
    hide StoredWords, Number, Above, Pow2;
    var m := 8 * |report| - e.startBit;
    var k := WordCount(m);
    var copied, f := CopiedByBytes(e.startBit, m, false), ReportField(report, e.startBit, m);
    assert ReadData(e, data, report) == StoredWords(data[..k], f, m, copied, false) + data[k..];
    if Above(data[k - 1], m - 32 * (k - 1)) == 0 {
      UnsignedHeld(data[..k], f, m, copied);
    }
  }

  /** Reading keeps the unused bits zero, so this holds of every report after
      another; even of a report that ends inside an element of variable size. */
  lemma UnusedStays(e: Element, data: seq<Word>, report: seq<Byte>)
    requires |data| == DataWords(e) && UnusedZero(e, data) && Reaches(e, 8 * |report|)
    ensures UnusedZero(e, ReadData(e, data, report))
  {
    var n, m := e.Width(), ReadSize(e, 8 * |report|);
    if n == 0 {
      assert ReadData(e, data, report) == data;
    } else if CopiedByBytes(e.startBit, n, e.IsSigned()) && WordCount(m) == |data| {
      hide Pow2, Number, Above;
      WordsOfWidth(e);
      LastWordRead(e, data, report);
      CopyKeepsAbove(data[|data| - 1], ReportField(report, e.startBit, m), m, |data| - 1, n - 32 * (|data| - 1));
    } else if CopiedByBytes(e.startBit, n, e.IsSigned()) {
      hide Pow2, Number, Above, StoredWord;
      assert ReadData(e, data, report)[|data| - 1] == data[|data| - 1];
    }
  }

  lemma LastWordRead(e: Element, data: seq<Word>, report: seq<Byte>)
    requires |data| == DataWords(e) && Reaches(e, 8 * |report|) && CopiedByBytes(e.startBit, e.Width(), e.IsSigned())
    requires WordCount(ReadSize(e, 8 * |report|)) == |data|
    ensures var last, m := |data| - 1, ReadSize(e, 8 * |report|);
      ReadData(e, data, report)[last] == StoredWord(data[last], ReportField(report, e.startBit, m), m, true, false, last)
  {
    hide Pow2, Number, StoredWord, StoredWords;
    var m := ReadSize(e, 8 * |report|);
    var f := ReportField(report, e.startBit, m);
    assert data[..|data|] == data && data[|data|..] == [];
    CopiedStill(e, m, 8 * |report|);
    assert ReadData(e, data, report) == StoredWords(data, f, m, true, false) + [];
    StoredAt(data, f, m, |data| - 1);
  }

  /** An aligned field is also aligned when the report ends inside it. */
  lemma CopiedStill(e: Element, m: nat, bits: nat)
    requires Reaches(e, bits) && bits % 8 == 0 && m == ReadSize(e, bits)
    requires CopiedByBytes(e.startBit, e.Width(), e.IsSigned())
    ensures CopiedByBytes(e.startBit, m, e.IsSigned()) && !e.IsSigned()
  {
  }

  lemma StoredAt(old_: seq<Word>, f: nat, m: nat, k: nat)
    requires k < |old_| == WordCount(m)
    ensures StoredWords(old_, f, m, true, false)[k] == StoredWord(old_[k], f, m, true, false, k)
  {
  }

  lemma CopyKeepsAbove(x: Word, f: nat, m: nat, k: nat, n: nat)
    requires k < WordCount(m) && m - 32 * k <= n <= 32
    ensures Above(StoredWord(x, f, m, true, false, k), n) == Above(x, n)
  {
    var bits := Min(32, m - 32 * k);
    FieldBound(f, 32 * k, bits);
    var y := StoredWord(x, f, m, true, false, k);
    ReplacedParts(x, 0, bits, Field(f, 32 * k, bits));
    AboveAbove(x, bits, n - bits);
    AboveAbove(y, bits, n - bits);
  }

  /** A value between the logical limits that fits the field is read as itself. */
  lemma LogicalValueRead(e: Element, v: int)
    requires e.logicalMin <= v <= e.logicalMax && 0 < e.bits * e.count <= 32
    requires var half: int := Pow2(e.bits * e.count - 1); if e.logicalMin < 0 then -half <= v < half else v < 2 * half
    ensures v % Pow2(e.bits * e.count) >= 0 && Means(e, v % Pow2(e.bits * e.count)) == v
  {
    var half: int := Pow2(e.bits * e.count - 1);
    assert Pow2(e.bits * e.count) == 2 * half;
    ModOf(v, 2 * half);
  }

  lemma ModOf(v: int, p: int)
    requires p > 0 && -p <= v < p
    ensures v % p == if v < 0 then v + p else v
  {
    if v < 0 {
      assert v + p == 0 * p + (v + p);
    }
  }

  // ---------------------------------------------------- the elements of a report

  /** After a report: the number that an element of no array holds if the report
      reached all of its field is the one that the field stands for, but for a
      keyboard modifier that was passed over. */
  lemma ProcessedMeans(elements: seq<Element>, rollOver: Option<nat>, c: nat, a: Arrival, was: State, now: State,
                       outs: map<nat, seq<nat>>, t: nat)
    requires IsContainer(elements, rollOver) && HasValue(elements, c) && IsState(elements, was) && IsState(elements, now)
    requires Processed(elements, rollOver, a, was, now, outs, t) && IsData(elements[c].kind) && !elements[c].isArray
    requires elements[c].In(a.reportID, a.reportType) && !(elements[c].interrupt && a.notInterrupt)
    requires elements[c].startBit + elements[c].bits * elements[c].count <= 8 * |a.report|
    requires elements[c].startBit < 8 * |a.report|
    requires !PassedOver(elements, rollOver, c, a.timestamp, was.vals, now.vals) && UnusedZero(elements[c], was.vals[c][HEADER..])
    ensures var e := elements[c];
      && Held(e, now.vals[c][HEADER..]) == Means(e, ReportField(a.report, e.startBit, e.bits * e.count))
      && UnusedZero(e, now.vals[c][HEADER..])
  {
    hide SlottedFrom, Grouped, PassedOver, ReadValue, ReadData, Held, Means, UnusedZero, ArrayReceived, ArrayKept;
    assert Received(elements, rollOver, c, a, was, now);
    assert Wanted(elements, a.reportID, a.reportType, c);
    FieldHeld(elements[c], was.vals[c][HEADER..], a.report);
    UnusedStays(elements[c], was.vals[c][HEADER..], a.report);
  }

  /** An element keeps its value when the report has another ID or type, is not for
      handlers, or ends too early: inside the field, or before it for an element of
      variable size. */
  lemma ProcessedKeeps(elements: seq<Element>, rollOver: Option<nat>, c: nat, a: Arrival, was: State, now: State,
                       outs: map<nat, seq<nat>>, t: nat)
    requires IsContainer(elements, rollOver) && HasValue(elements, c) && IsState(elements, was) && IsState(elements, now)
    requires Processed(elements, rollOver, a, was, now, outs, t) && IsData(elements[c].kind) && !elements[c].isArray
    requires var e, bits := elements[c], 8 * |a.report|;
      || e.reportID != a.reportID || TypeOf(e.kind) != Some(a.reportType) || (e.interrupt && a.notInterrupt)
      || (if e.variable then e.startBit >= bits else e.startBit + e.bits * e.count > bits)
    ensures now.vals[c] == was.vals[c] && (c in now.pending <==> c in was.pending)
  {
    hide SlottedFrom, Grouped, PassedOver, ReadValue, ArrayReceived, ArrayKept;
    assert Received(elements, rollOver, c, a, was, now);
    assert !IsLastNull(elements, a, c);
  }

  /** A keyboard modifier, usage 0xE0 to 0xE7 of page 7, is passed over exactly if the
      roll-over element reads as nonzero and has the time of this very report, as the
      walk meets it. */
  lemma PassedOverIff(elements: seq<Element>, c: nat, r: nat, timestamp: Time, was: seq<seq<Word>>, now: seq<seq<Word>>)
    requires HasValue(elements, c) && HasValue(elements, r) && Shaped(elements, was) && Shaped(elements, now)
    ensures PassedOver(elements, Some(r), c, timestamp, was, now)
            <==> var e, writer := elements[c],
                   if IsData(elements[r].kind) && elements[r].isArray && elements[r].handler.Some? then elements[r].handler.value else r;
              var value := if writer > c then now[r] else was[r];
              && e.usagePage == 7 && 0xE0 <= e.usage <= 0xE7
              && elements[r].bits * elements[r].count <= 32 && value[HEADER] != 0 && Stamp(value) == timestamp
    ensures !PassedOver(elements, None, c, timestamp, was, now)
  {
  }

  /** Elements of a report that keep a size all keep the same: the report is refused
      exactly if it is shorter than that, unless each of them knows of variable size. */
  lemma LongEnoughIff(elements: seq<Element>, a: Arrival, size: nat)
    requires size > 0
    requires forall c: nat :: c < |elements| && elements[c].In(a.reportID, a.reportType) ==> elements[c].reportSize in {0, size}
    ensures LongEnough(elements, a)
            <==> || 8 * |a.report| >= size
                 || forall c: nat :: c < |elements| && elements[c].In(a.reportID, a.reportType) && elements[c].reportSize == size ==>
                                       elements[c].variable || elements[c].variableReport
  {
    if 8 * |a.report| < size && LongEnough(elements, a) {
      forall c: nat | c < |elements| && elements[c].In(a.reportID, a.reportType) && elements[c].reportSize == size
        ensures elements[c].variable || elements[c].variableReport
      {
        assert !TooShort(elements[c], a.Bits());
      }
    }
  }

  // ------------------------------------------------------------- time stamps

  /** When the time stamp of an element moves: it does if there was none, and of an
      absolute element if its data changes or it handles a report; of a relative
      element unless it stays at zero (of up to 32 bits). */
  lemma StampMoves(e: Element, value: seq<Word>, report: seq<Byte>, timestamp: Time)
    requires |value| == ValueWords(e) && Reaches(e, 8 * |report|)
    ensures var r := ReadValue(e, value, report, timestamp);
      var changed := r[HEADER..] != value[HEADER..];
      && (Stamp(value) == Time(0, 0) ==> Stamp(r) == timestamp)
      && (Stamp(value) != Time(0, 0) && !e.isRelative ==>
            Stamp(r) == if changed || e.interrupt then timestamp else Stamp(value))
      && (Stamp(value) != Time(0, 0) && e.isRelative ==>
            Stamp(r) == if !changed && value[HEADER] == 0 && e.bits <= 32 then Stamp(value) else timestamp)
  {
    hide ReadData;
    var begun := BegunValue(e, value, report, timestamp);
    assert begun[HEADER..] == EndedValue(begun, timestamp)[HEADER..];
  }

  /** The generation is odd while an even value is being read, and moves on by two. */
  lemma GenerationMoves(e: Element, value: seq<Word>, report: seq<Byte>, timestamp: Time)
    requires |value| == ValueWords(e) && Reaches(e, 8 * |report|)
    ensures var generation: int := value[GENERATION];
      && BegunValue(e, value, report, timestamp)[GENERATION] == (generation + 1) % 0x1_0000_0000
      && ReadValue(e, value, report, timestamp)[GENERATION] == (generation + 2) % 0x1_0000_0000
  {
    hide ReadData;
  }
}
