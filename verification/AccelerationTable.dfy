/**
 ACCEL_TABLE: the big-endian bytes of an acceleration table, with entries of
 varying length one after the other, and the walk from entry to entry.
 */
module AccelerationTable {
  import opened Numbers
  import TableAcceleration

  const SIGNATURE: nat := 4     // after the scale
  const COUNT: nat := 8         // after the signature
  const HEADER: nat := 10       // scale, signature and count
  const ENTRY_HEADER: nat := 6  // acceleration and count
  const POINT: nat := 8

  type Fixed = i: int | -0x8000_0000 <= i < 0x8000_0000

  datatype Entry = Entry(acceleration: Fixed, points: seq<(Fixed, Fixed)>)

  // -------------------------------------------------------- big-endian numbers

  function Big(s: seq<Byte>): nat {
    if s == [] then 0 else 256 * Big(s[..|s| - 1]) + s[|s| - 1]
  }

  function PutBig(x: nat, k: nat): (s: seq<Byte>)
    ensures |s| == k
  {
    if k == 0 then [] else PutBig(x / 256, k - 1) + [x % 256]
  }

  function Pow256(k: nat): nat {
    if k == 0 then 1 else 256 * Pow256(k - 1)
  }

  lemma {:induction false} BigPut(x: nat, k: nat)
    requires x < Pow256(k)
    ensures Big(PutBig(x, k)) == x
  {
    if k > 0 {
      BigPut(x / 256, k - 1);
      assert PutBig(x, k)[..k - 1] == PutBig(x / 256, k - 1);
    }
  }

  lemma {:induction false} BigBound(s: seq<Byte>)
    ensures Big(s) < Pow256(|s|)
  {
    if s != [] {
      BigBound(s[..|s| - 1]);
    }
  }

  lemma Powers()
    ensures Pow256(2) == 0x1_0000 && Pow256(4) == 0x1_0000_0000
  {
    assert Pow256(2) == 0x1_0000;
    assert Pow256(3) == 0x100_0000;
  }

  function Signed(u: nat): Fixed
    requires u < 0x1_0000_0000
  {
    if u < 0x8000_0000 then u else u - 0x1_0000_0000
  }

  function Unsigned(i: Fixed): (u: nat)
    ensures u < 0x1_0000_0000 && Signed(u) == i
  {
    if i >= 0 then i else i + 0x1_0000_0000
  }

  // ---------------------------------------------------------------- reading

  /** The `k` bytes at `at` as a number; zero beyond the bytes. */
  function Read(bytes: seq<Byte>, at: nat, k: nat): (x: nat)
    ensures x < Pow256(k)
  {
    if at + k <= |bytes| then BigBound(bytes[at..at + k]); Big(bytes[at..at + k])
    else
      PowPositive(k);
      0
  }

  lemma {:induction false} PowPositive(k: nat)
    ensures Pow256(k) > 0
  {
    if k > 0 {
      PowPositive(k - 1);
    }
  }

  function ReadFixed(bytes: seq<Byte>, at: nat): Fixed {
    Powers();
    Signed(Read(bytes, at, 4))
  }

  function Count(bytes: seq<Byte>, entry: nat): nat {
    Read(bytes, entry + 4, 2)
  }

  /** length, in bytes */
  function Length(bytes: seq<Byte>, entry: nat): nat {
    Count(bytes, entry) * 8 + ENTRY_HEADER
  }

  function PointAt(bytes: seq<Byte>, entry: nat, index: nat): (Fixed, Fixed) {
    (ReadFixed(bytes, entry + ENTRY_HEADER + POINT * index), ReadFixed(bytes, entry + ENTRY_HEADER + POINT * index + 4))
  }

  /** What acceleration, count and point say of the entry at an offset. */
  function EntryAt(bytes: seq<Byte>, entry: nat): Entry {
    Entry(ReadFixed(bytes, entry), seq(Count(bytes, entry), i => PointAt(bytes, entry, if i >= 0 then i else 0)))
  }

  /** `n` entries further on. */
  function Skip(bytes: seq<Byte>, entry: nat, n: nat): nat
    decreases n
  {
    if n == 0 then entry else Skip(bytes, entry + Length(bytes, entry), n - 1)
  }

  lemma {:induction false} SkipOne(bytes: seq<Byte>, entry: nat, n: nat)
    ensures Skip(bytes, entry, n + 1) == Skip(bytes, entry, n) + Length(bytes, Skip(bytes, entry, n))
    decreases n
  {
    if n > 0 {
      SkipOne(bytes, entry + Length(bytes, entry), n - 1);
    }
  }

  /** entry: the offset of an entry. */
  method EntryOffset(bytes: seq<Byte>, index: int) returns (current: nat)
    ensures current == Skip(bytes, HEADER, if index > 0 then index else 0)
  {
    current := HEADER;
    var i := 1;
    while i <= index
      invariant i == 1 || i <= index + 1
      invariant i >= 1 && current == Skip(bytes, HEADER, i - 1)
    {
      SkipOne(bytes, HEADER, i - 1);
      current := current + Length(bytes, current);
      i := i + 1;
    }
  }

  // ---------------------------------------------------------------- writing

  function EncodePoints(ps: seq<(Fixed, Fixed)>): (s: seq<Byte>)
    ensures |s| == POINT * |ps|
  {
    if ps == [] then [] else PutBig(Unsigned(ps[0].0), 4) + PutBig(Unsigned(ps[0].1), 4) + EncodePoints(ps[1..])
  }

  function EncodeEntry(e: Entry): (s: seq<Byte>)
    ensures |s| == ENTRY_HEADER + POINT * |e.points|
  {
    PutBig(Unsigned(e.acceleration), 4) + PutBig(|e.points|, 2) + EncodePoints(e.points)
  }

  function EncodeEntries(es: seq<Entry>): seq<Byte> {
    if es == [] then [] else EncodeEntry(es[0]) + EncodeEntries(es[1..])
  }

  /** Part of some bytes. */
  predicate PartOf(part: seq<Byte>, bytes: seq<Byte>, at: nat) {
    at + |part| <= |bytes| && bytes[at..at + |part|] == part
  }

  lemma PartOfSum(a: seq<Byte>, b: seq<Byte>, bytes: seq<Byte>, at: nat)
    requires PartOf(a + b, bytes, at)
    ensures PartOf(a, bytes, at) && PartOf(b, bytes, at + |a|)
  {
    var all := bytes[at..at + |a + b|];
    assert all[..|a|] == a && all[|a|..] == b;
    assert all[..|a|] == bytes[at..at + |a|] && all[|a|..] == bytes[at + |a|..at + |a| + |b|];
  }

  lemma ReadPut(bytes: seq<Byte>, at: nat, x: nat, k: nat)
    requires PartOf(PutBig(x, k), bytes, at) && x < Pow256(k)
    ensures Read(bytes, at, k) == x
  {
    BigPut(x, k);
  }

  lemma ReadPutFixed(bytes: seq<Byte>, at: nat, i: Fixed)
    requires PartOf(PutBig(Unsigned(i), 4), bytes, at)
    ensures ReadFixed(bytes, at) == i
  {
    Powers();
    ReadPut(bytes, at, Unsigned(i), 4);
  }

  lemma {:induction false} PointRead(ps: seq<(Fixed, Fixed)>, bytes: seq<Byte>, at: nat, i: nat)
    requires PartOf(EncodePoints(ps), bytes, at) && i < |ps|
    ensures ReadFixed(bytes, at + POINT * i) == ps[i].0 && ReadFixed(bytes, at + POINT * i + 4) == ps[i].1
    decreases i
  {
    var x, y, rest := PutBig(Unsigned(ps[0].0), 4), PutBig(Unsigned(ps[0].1), 4), EncodePoints(ps[1..]);
    PartOfSum(x + y, rest, bytes, at);
    if i == 0 {
      PartOfSum(x, y, bytes, at);
      ReadPutFixed(bytes, at, ps[0].0);
      ReadPutFixed(bytes, at + 4, ps[0].1);
    } else {
      PointRead(ps[1..], bytes, at + POINT, i - 1);
    }
  }

  /** An entry is read back, and its length is its own. */
  lemma EntryRead(e: Entry, bytes: seq<Byte>, at: nat)
    requires |e.points| < 0x1_0000 && PartOf(EncodeEntry(e), bytes, at)
    ensures EntryAt(bytes, at) == e && Length(bytes, at) == |EncodeEntry(e)|
  {
    var a, n, ps := PutBig(Unsigned(e.acceleration), 4), PutBig(|e.points|, 2), EncodePoints(e.points);
    PartOfSum(a + n, ps, bytes, at);
    PartOfSum(a, n, bytes, at);
    Powers();
    ReadPutFixed(bytes, at, e.acceleration);
    ReadPut(bytes, at + 4, |e.points|, 2);
    assert Count(bytes, at) == |e.points|;
    var points := EntryAt(bytes, at).points;
    forall i: nat | i < |e.points| ensures points[i] == e.points[i] {
      PointRead(e.points, bytes, at + ENTRY_HEADER, i);
      assert points[i] == PointAt(bytes, at, i);
    }
    assert points == e.points;
  }

  /** The walk over entries of varying length arrives at entry `i`, whatever the
      header holds and whatever follows the table. */
  lemma {:induction false} WalkArrives(es: seq<Entry>, bytes: seq<Byte>, at: nat, i: nat)
    requires (forall e <- es :: |e.points| < 0x1_0000) && PartOf(EncodeEntries(es), bytes, at) && i < |es|
    ensures EntryAt(bytes, Skip(bytes, at, i)) == es[i]
    decreases i
  {
    assert es[0] in es && forall e <- es[1..] :: e in es;
    PartOfSum(EncodeEntry(es[0]), EncodeEntries(es[1..]), bytes, at);
    EntryRead(es[0], bytes, at);
    if i > 0 {
      WalkArrives(es[1..], bytes, at + |EncodeEntry(es[0])|, i - 1);
    }
  }

  /** The curve of an entry, in doubles. */
  function AsCurve(e: Entry): (c: TableAcceleration.Entry)
    ensures |c.points| == |e.points|
  {
    TableAcceleration.Entry(ToDouble(e.acceleration), seq(|e.points|, i requires 0 <= i < |e.points| =>
      TableAcceleration.Point(ToDouble(e.points[i].0), ToDouble(e.points[i].1))))
  }

  /** FIXED_TO_DOUBLE */
  function ToDouble(i: Fixed): real {
    i as real / 65536.0
  }

  predicate Rising(ps: seq<(Fixed, Fixed)>, start: Fixed)
    decreases |ps|
  {
    ps != [] ==> start < ps[0].0 && Rising(ps[1..], ps[0].0)
  }

  lemma ToDoubleStrict(i: Fixed, j: Fixed)
    requires i < j
    ensures ToDouble(i) < ToDouble(j)
  {
  }

  /** The conversion keeps the order of speeds, so an entry with increasing
      positive fixed-point speeds is a valid curve. */
  lemma {:induction false} AsCurveIncreasing(ps: seq<(Fixed, Fixed)>, start: Fixed)
    requires Rising(ps, start)
    ensures TableAcceleration.Increasing(ToDouble(start), AsCurve(Entry(0, ps)).points)
    decreases |ps|
  {
    if ps != [] {
      ToDoubleStrict(start, ps[0].0);
      AsCurveIncreasing(ps[1..], ps[0].0);
      assert AsCurve(Entry(0, ps)).points[1..] == AsCurve(Entry(0, ps[1..])).points;
    }
  }

  // ------------------------------------------------------------- byte by byte

  /** Four bytes, the highest first, in two's complement. */
  function FixedOf(b: seq<Byte>): int
    requires |b| == 4
  {
    var u := 16777216 * b[0] as int + 65536 * b[1] as int + 256 * b[2] as int + b[3] as int;
    if b[0] >= 128 then u - 0x1_0000_0000 else u
  }

  lemma LastByte(s: seq<Byte>)
    requires s != []
    ensures Big(s) == 256 * Big(s[..|s| - 1]) + s[|s| - 1]
  {
  }

  lemma FourBytes(bytes: seq<Byte>, at: nat)
    requires at + 4 <= |bytes|
    ensures ReadFixed(bytes, at) == FixedOf(bytes[at..at + 4])
  {
    var s := bytes[at..at + 4];
    assert s[..3][..2] == s[..2] && s[..2][..1] == s[..1] && s[..1][..0] == [];
    LastByte(s);
    LastByte(s[..3]);
    LastByte(s[..2]);
    LastByte(s[..1]);
    Powers();
  }

  /** What is where in an entry, and what it becomes: bytes 0 to 3 are the
      acceleration, bytes 4 and 5 the number of points, and each point takes eight
      more, speed before height; numbers count in 65536ths. */
  lemma EntryIs(bytes: seq<Byte>, at: nat, i: nat)
    requires at + 6 <= |bytes|
    ensures var n := 256 * bytes[at + 4] as int + bytes[at + 5] as int;
      var c, p := AsCurve(EntryAt(bytes, at)), at + 6 + 8 * i;
      && |c.points| == n && Length(bytes, at) == 6 + 8 * n
      && c.acceleration * 65536.0 == FixedOf(bytes[at..at + 4]) as real
      && (i < n && p + 8 <= |bytes| ==>
            && c.points[i].x * 65536.0 == FixedOf(bytes[p..p + 4]) as real
            && c.points[i].y * 65536.0 == FixedOf(bytes[p + 4..p + 8]) as real)
  {
    hide Big, Read, FixedOf, Signed;
    FourBytes(bytes, at);
    TwoBytes(bytes, at + 4);
    var p := at + 6 + 8 * i;
    if i < Count(bytes, at) && p + 8 <= |bytes| {
      FourBytes(bytes, p);
      FourBytes(bytes, p + 4);
      PointIs(bytes, at, i);
    }
  }

  lemma PointIs(bytes: seq<Byte>, at: nat, i: nat)
    requires i < Count(bytes, at)
    ensures var p := at + 6 + 8 * i; EntryAt(bytes, at).points[i] == (ReadFixed(bytes, p), ReadFixed(bytes, p + 4))
  {
    hide ReadFixed, Count;
    assert EntryAt(bytes, at).points[i] == PointAt(bytes, at, i);
  }

  lemma TwoBytes(bytes: seq<Byte>, at: nat)
    requires at + 2 <= |bytes|
    ensures Read(bytes, at, 2) == 256 * bytes[at] as int + bytes[at + 1] as int
  {
    var s := bytes[at..at + 2];
    assert s[..1][..0] == [];
    LastByte(s);
    LastByte(s[..1]);
  }

  // ------------------------------------------------------ the whole table

  function Curves(es: seq<Entry>): (cs: seq<TableAcceleration.Entry>)
    ensures |cs| == |es|
  {
    seq(|es|, i requires 0 <= i < |es| => AsCurve(es[i]))
  }

  /** signature, which is read in the order of the host, little-endian. */
  function Signature(bytes: seq<Byte>): nat
    requires |bytes| >= HEADER
  {
    Number(bytes[SIGNATURE..COUNT], 8)
  }

  /** The signature is in bytes 4 to 7. */
  lemma SignatureIs(bytes: seq<Byte>)
    requires |bytes| >= HEADER
    ensures Signature(bytes) == bytes[4] as int + 256 * bytes[5] as int + 65536 * bytes[6] as int + 16777216 * bytes[7] as int
  {
    var s := bytes[4..8];
    assert s == [bytes[4], bytes[5], bytes[6], bytes[7]];
    FirstDigit(s);
    FirstDigit(s[1..]);
    FirstDigit(s[2..]);
    FirstDigit(s[3..]);
    assert s[4..] == [] && s[1..][1..] == s[2..] && s[2..][1..] == s[3..] && s[3..][1..] == s[4..];
  }

  lemma FirstDigit(s: seq<Byte>)
    requires s != []
    ensures Number(s, 8) == s[0] + 256 * Number(s[1..], 8)
  {
    hide Pow2;
    var n := Number(s[1..], 8);
    ShlIsProduct(n, 8);
    Pow2Values();
    assert Number(s, 8) == s[0] + Shl(n, 8);
  }

  /** The bytes are a table of these entries, each a curve of rising positive
      speeds, after any header with their number, and with anything after them. */
  ghost predicate IsTable(bytes: seq<Byte>, es: seq<Entry>) {
    && |bytes| >= HEADER && es != [] && Read(bytes, COUNT, 2) == |es|
    && PartOf(EncodeEntries(es), bytes, HEADER)
    && forall e <- es :: 0 < |e.points| < 0x1_0000 && Rising(e.points, 0) && e.acceleration != -0x1_0000
  }

  lemma CurvesValid(es: seq<Entry>)
    requires es != [] && forall e <- es :: 0 < |e.points| && Rising(e.points, 0) && e.acceleration != -0x1_0000
    ensures TableAcceleration.ValidEntries(Curves(es))
  {
    forall c | c in Curves(es)
      ensures TableAcceleration.ValidPoints(c.points) && c.acceleration + 1.0 != 0.0
    {
      var i :| 0 <= i < |es| && Curves(es)[i] == c;
      AsCurveIncreasing(es[i].points, 0);
      assert c.points == AsCurve(Entry(0, es[i].points)).points && ToDouble(0) == 0.0;
      NotMinusOne(es[i].acceleration);
    }
  }

  lemma NotMinusOne(i: Fixed)
    requires i != -0x1_0000
    ensures ToDouble(i) + 1.0 != 0.0
  {
    assert ToDouble(i) * 65536.0 == i as real;
  }

  /** The entries as CreateWithTable reads them, one walk for each. */
  method ReadEntries(bytes: seq<Byte>) returns (entries: seq<TableAcceleration.Entry>)
    requires |bytes| >= HEADER
    ensures |entries| == Read(bytes, COUNT, 2)
    ensures forall i :: 0 <= i < |entries| ==> entries[i] == AsCurve(EntryAt(bytes, Skip(bytes, HEADER, i)))
  {
    entries := [];
    for i := 0 to Read(bytes, COUNT, 2)
      invariant |entries| == i
      invariant forall j :: 0 <= j < i ==> entries[j] == AsCurve(EntryAt(bytes, Skip(bytes, HEADER, j)))
    {
      var at := EntryOffset(bytes, i);
      entries := entries + [AsCurve(EntryAt(bytes, at))];
    }
  }

  /** From the bytes of a table to the curve: the object that CreateWithTable
      makes of them gives the scaled curve that the listed entries ask for at
      every speed, always where one entry is used, and for two exactly when they
      lie the right way round or the acceleration is half-way between them. */
  method CreateWithTable(bytes: seq<Byte>, ghost es: seq<Entry>, acceleration: real, resolution: real, rate: real)
    returns (self: TableAcceleration.IOHIDTableAcceleration?, ghost c: TableAcceleration.Choice)
    requires IsTable(bytes, es) && resolution > 0.0 && rate > 0.0
    ensures self == null <==> Signature(bytes) != 0x30303240 && Signature(bytes) != 0x2a425355
    ensures TableAcceleration.ValidEntries(Curves(es))
    ensures self != null ==> fresh(self) && TableAcceleration.Suits(Curves(es), acceleration, c) && self.segments != []
    ensures self != null ==>
              (TableAcceleration.Exact(self.segments, resolution / rate, Curves(es), acceleration, c)
               <==> TableAcceleration.RightWayRound(Curves(es), acceleration, c))
  {
    var entries := ReadEntries(bytes);
    forall i: nat | i < |es| ensures entries[i] == Curves(es)[i] {
      WalkArrives(es, bytes, HEADER, i);
    }
    assert entries == Curves(es);
    CurvesValid(es);
    self, c := TableAcceleration.CreateWithTable(Signature(bytes), entries, acceleration, resolution, rate);
    if self != null {
      TableAcceleration.TableExactIff(entries, acceleration, c, resolution / rate);
    }
  }
}
