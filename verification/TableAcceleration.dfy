/**
 IOHIDTableAcceleration: acceleration curves given as tables of points, the
 choice and the merging of the two curves around an acceleration, and the
 segment table that multiplier searches. Doubles are reals.
 */
module TableAcceleration {
  import opened Reals

  const CURSOR_SCALE := 96.0 / 67.0

  datatype Point = Point(x: real, y: real)
  datatype Entry = Entry(acceleration: real, points: seq<Point>)
  datatype Segment = Segment(m: real, b: real, x: real)

  const ORIGIN := Point(0.0, 0.0)

  // ------------------------------------------------------------------ lines

  function SlopeOf(p: Point, q: Point): real
    requires p.x != q.x
  {
    (q.y - p.y) / (q.x - p.x)
  }

  function Offset(p: Point, q: Point): real
    requires p.x != q.x
  {
    q.y - SlopeOf(p, q) * q.x
  }

  function Line(m: real, b: real, x: real): real { m * x + b }

  /** The line through two points. */
  function Through(p: Point, q: Point, x: real): real
    requires p.x != q.x
  {
    Line(SlopeOf(p, q), Offset(p, q), x)
  }

  lemma ThroughBoth(p: Point, q: Point)
    requires p.x != q.x
    ensures Through(p, q, p.x) == p.y && Through(p, q, q.x) == q.y
  {
    var m := SlopeOf(p, q);
    assert m * (q.x - p.x) == q.y - p.y;
    assert m * (q.x - p.x) == m * q.x - m * p.x;
  }

  /** Two points of a line determine it. */
  lemma OnlyLine(p: Point, q: Point, m: real, b: real)
    requires p.x != q.x && p.y == Line(m, b, p.x) && q.y == Line(m, b, q.x)
    ensures SlopeOf(p, q) == m && Offset(p, q) == b
  {
    var d, s := q.x - p.x, SlopeOf(p, q);
    assert s * d == q.y - p.y;
    assert m * d == q.y - p.y;
    Cancel(s, m, d);
  }

  lemma Cancel(x: real, y: real, d: real)
    requires d != 0.0 && x * d == y * d
    ensures x == y
  {
    if d > 0.0 {
      FactorOrder(x, y, d);
      FactorOrder(y, x, d);
    } else {
      assert x * -d == y * -d;
      FactorOrder(x, y, -d);
      FactorOrder(y, x, -d);
    }
  }

  // ----------------------------------------------------------------- curves

  predicate Increasing(start: real, ps: seq<Point>)
    decreases |ps|
  {
    ps != [] ==> start < ps[0].x && Increasing(ps[0].x, ps[1..])
  }

  /** The curve through `start` and the points, on beyond the last of them. */
  function EvalFrom(start: Point, ps: seq<Point>, x: real): real
    requires ps != [] && Increasing(start.x, ps)
    decreases |ps|
  {
    if |ps| == 1 || x <= ps[0].x then Through(start, ps[0], x)
    else EvalFrom(ps[0], ps[1..], x)
  }

  /** A curve of points at increasing positive speeds, which starts at the origin. */
  predicate ValidPoints(ps: seq<Point>) {
    ps != [] && Increasing(0.0, ps)
  }

  function Eval(ps: seq<Point>, x: real): real
    requires ValidPoints(ps)
  {
    EvalFrom(ORIGIN, ps, x)
  }

  /** The point at `x` and `y` is on the line through two points. */
  predicate IsOn(p: Point, q: Point, x: real, y: real) {
    p.x < q.x && (y - p.y) * (q.x - p.x) == (q.y - p.y) * (x - p.x)
  }

  lemma OnLine(p: Point, q: Point, x: real)
    requires p.x < q.x
    ensures IsOn(p, q, x, Through(p, q, x))
  {
    ThroughBoth(p, q);
    var m := SlopeOf(p, q);
    assert m * (q.x - p.x) == q.y - p.y;
    assert Through(p, q, x) - p.y == m * (x - p.x);
    assert m * (x - p.x) * (q.x - p.x) == m * (q.x - p.x) * (x - p.x);
  }

  function StartOf(start: Point, ps: seq<Point>, i: nat): Point
    requires i < |ps|
  {
    if i == 0 then start else ps[i - 1]
  }

  /** From each point to the next the curve goes straight, through both; beyond the
      last point it goes straight on. */
  lemma {:induction false} EvalIsStraight(start: Point, ps: seq<Point>, i: nat, x: real)
    requires i < |ps| && Increasing(start.x, ps)
    requires (i > 0 ==> ps[i - 1].x < x) && (i + 1 < |ps| ==> x <= ps[i].x)
    ensures IsOn(StartOf(start, ps, i), ps[i], x, EvalFrom(start, ps, x))
    decreases i
  {
    hide IsOn, Through;
    if i == 0 {
      OnLine(start, ps[0], x);
    } else {
      Rises(ps[0].x, ps[1..], i - 1);
      if i > 1 {
        Rises(ps[0].x, ps[1..], i - 2);
      }
      EvalIsStraight(ps[0], ps[1..], i - 1, x);
    }
  }

  lemma {:induction false} Rises(start: real, ps: seq<Point>, i: nat)
    requires i < |ps| && Increasing(start, ps)
    ensures start < ps[i].x && (i > 0 ==> ps[i - 1].x < ps[i].x)
    decreases i
  {
    if i > 0 {
      Rises(ps[0].x, ps[1..], i - 1);
    }
  }

  /** The line that the curve follows just above `a`. */
  function PieceFrom(start: Point, ps: seq<Point>, a: real): (l: (real, real))
    requires ps != [] && Increasing(start.x, ps)
    decreases |ps|
  {
    if |ps| == 1 || a < ps[0].x then (SlopeOf(start, ps[0]), Offset(start, ps[0]))
    else PieceFrom(ps[0], ps[1..], a)
  }

  /** No point of the curve but its last lies strictly between `a` and `x`. */
  predicate Gap(ps: seq<Point>, a: real, x: real) {
    |ps| > 1 ==> (ps[0].x <= a || x <= ps[0].x) && Gap(ps[1..], a, x)
  }

  /** From `a` to the next point the curve is that line. */
  lemma {:induction false} FollowsPiece(start: Point, ps: seq<Point>, a: real, x: real)
    requires ps != [] && Increasing(start.x, ps) && a <= x && Gap(ps, a, x)
    ensures var l := PieceFrom(start, ps, a); EvalFrom(start, ps, x) == Line(l.0, l.1, x)
    decreases |ps|
  {
    if |ps| > 1 && ps[0].x <= a {
      FollowsPiece(ps[0], ps[1..], a, x);
      if x <= ps[0].x {
        ThroughBoth(start, ps[0]);
        ThroughBoth(ps[0], ps[1]);
      }
    }
  }

  lemma {:induction false} GapInside(ps: seq<Point>, a: real, x: real)
    requires forall p <- ps :: p.x <= a || x <= p.x
    ensures Gap(ps, a, x)
  {
    if |ps| > 1 {
      assert ps[0] in ps && forall p <- ps[1..] :: p in ps;
      GapInside(ps[1..], a, x);
    }
  }

  lemma {:induction false} GapBeyond(start: real, ps: seq<Point>, a: real, b: real, x: real)
    requires Increasing(start, ps) && a < b && forall p <- ps :: p.x <= a || p.x == b
    ensures Gap(ps, a, x)
    decreases |ps|
  {
    if |ps| > 1 {
      assert ps[0] in ps && ps[1] in ps && ps[1..][0] == ps[1] && forall p <- ps[1..] :: p in ps;
      GapBeyond(ps[0].x, ps[1..], a, b, x);
    }
  }

  predicate HasX(ps: seq<Point>, x: real) {
    exists p <- ps :: p.x == x
  }

  lemma {:induction false} AllAbove(start: real, ps: seq<Point>)
    requires Increasing(start, ps)
    ensures forall p <- ps :: p.x > start
    decreases |ps|
  {
    if ps != [] {
      AllAbove(ps[0].x, ps[1..]);
      assert forall p <- ps :: p == ps[0] || p in ps[1..];
    }
  }

  /** The curve passes through its points. */
  lemma {:induction false} Hits(start: Point, ps: seq<Point>, q: Point)
    requires ps != [] && Increasing(start.x, ps) && q in ps
    ensures EvalFrom(start, ps, q.x) == q.y
    decreases |ps|
  {
    ThroughBoth(start, ps[0]);
    AllAbove(ps[0].x, ps[1..]);
    if q != ps[0] {
      assert q in ps[1..];
      Hits(ps[0], ps[1..], q);
    }
  }

  /** Beyond a point the curve is that of the later points. */
  lemma {:induction false} Skip(start: Point, ps: seq<Point>, k: nat, x: real)
    requires Increasing(start.x, ps) && 0 < k < |ps| && x > ps[k - 1].x
    ensures Increasing(ps[k - 1].x, ps[k..]) && EvalFrom(start, ps, x) == EvalFrom(ps[k - 1], ps[k..], x)
    decreases |ps|
  {
    if k > 1 {
      Before(ps[0].x, ps[1..], k - 2);
      Skip(ps[0], ps[1..], k - 1, x);
      assert ps[1..][k - 1..] == ps[k..];
    }
  }

  lemma Before(start: real, ps: seq<Point>, k: nat)
    requires Increasing(start, ps) && k < |ps|
    ensures start < ps[k].x
  {
    AllAbove(start, ps);
  }

  // ---------------------------------------------------------- merging curves

  function Min(a: real, b: real): real { if a < b then a else b }
  function Abs(x: real): real { if x < 0.0 then -x else x }

  /** Between two heights. */
  function Mix(low: real, high: real, ratio: real): real {
    (1.0 - ratio) * low + ratio * high
  }

  /** How InterpolatePoint mixes two heights, whichever curve is the higher. */
  function MixUp(y: real, z: real, ratio: real): real {
    Min(y, z) + Abs(y - z) * ratio
  }

  lemma MixUpSymmetric(y: real, z: real, ratio: real)
    ensures MixUp(y, z, ratio) == MixUp(z, y, ratio)
  {
    assert Abs(y - z) == Abs(z - y);
  }

  /** It is the mix by the ratio exactly when the curves lie the right way
      round, or the ratio is one half. */
  lemma MixUpIff(low: real, high: real, ratio: real)
    ensures MixUp(low, high, ratio) == Mix(low, high, ratio) <==> low <= high || ratio == 0.5
  {
    if low <= high {
      assert low + (high - low) * ratio == Mix(low, high, ratio);
    } else {
      Difference(low, high, ratio);
      if ratio != 0.5 {
        NonzeroProduct(low - high, 2.0 * ratio - 1.0);
      }
    }
  }

  lemma Difference(low: real, high: real, ratio: real)
    ensures high + (low - high) * ratio - Mix(low, high, ratio) == (low - high) * (2.0 * ratio - 1.0)
  {
  }

  lemma NonzeroProduct(x: real, y: real)
    requires x != 0.0 && y != 0.0
    ensures x * y != 0.0
  {
  }

  /** InterpolatePoint (ratio form): a point against the line of the other curve. */
  function InterpolatePoint(p: Point, p0: Point, p1: Point, ratio: real): Point
    requires p0.x != p1.x
  {
    Point(p.x, MixUp(p.y, Through(p0, p1, p.x), ratio))
  }

  /** A point against the other curve. */
  function MergePoint(p: Point, other: seq<Point>, ratio: real): Point
    requires ValidPoints(other)
  {
    Point(p.x, MixUp(p.y, Eval(other, p.x), ratio))
  }

  /** Insertion into the set of points, which is ordered by x alone and keeps
      what it has. */
  function Insert(f: seq<Point>, p: Point): (r: seq<Point>)
    ensures r != []
  {
    if f == [] then [p]
    else if p.x < f[0].x then [p] + f
    else if f[0].x < p.x then [f[0]] + Insert(f[1..], p)
    else f
  }

  lemma {:induction false} InsertKeeps(f: seq<Point>, p: Point, start: real)
    requires Increasing(start, f) && start < p.x
    ensures Increasing(start, Insert(f, p))
    ensures forall q <- Insert(f, p) :: q in f || q == p
    ensures forall x :: HasX(Insert(f, p), x) <==> HasX(f, x) || x == p.x
    decreases |f|
  {
    var r := Insert(f, p);
    if f == [] {
      assert p in r;
    } else if p.x < f[0].x {
      assert r[0] == p && r[1..] == f;
      SameXs(r, [p], f);
    } else if f[0].x < p.x {
      InsertKeeps(f[1..], p, f[0].x);
      assert r[1..] == Insert(f[1..], p) && r[0] == f[0];
      SameXs(r, [f[0]], r[1..]);
      SameXs(f, [f[0]], f[1..]);
    } else {
      assert f[0] in f;
    }
  }

  lemma SameXs(all: seq<Point>, a: seq<Point>, b: seq<Point>)
    requires all == a + b
    ensures forall x :: HasX(all, x) <==> HasX(a, x) || HasX(b, x)
    ensures |a| == 1 ==> forall x :: HasX(a, x) <==> x == a[0].x
  {
    forall x ensures HasX(all, x) <==> HasX(a, x) || HasX(b, x) {
      assert forall p :: p in all <==> p in a || p in b;
    }
    if |a| == 1 {
      assert a[0] in a && forall p <- a :: p == a[0];
    }
  }

  /** The set after the first `n` points of a curve have been interpolated
      against the other. */
  function InsertMerged(f: seq<Point>, ps: seq<Point>, other: seq<Point>, ratio: real, n: nat): seq<Point>
    requires ValidPoints(other) && n <= |ps|
  {
    if n == 0 then f
    else Insert(InsertMerged(f, ps, other, ratio, n - 1), MergePoint(ps[n - 1], other, ratio))
  }

  method InterpolateFunction(lo: seq<Point>, hi: seq<Point>, ratio: real, result: seq<Point>) returns (f: seq<Point>)
    requires ValidPoints(lo) && ValidPoints(hi)
    ensures f == InsertMerged(result, lo, hi, ratio, |lo|)
  {
    f := result;
    var hindex := 0;
    var ph0, ph1 := ORIGIN, hi[0];
    for index := 0 to |lo|
      invariant hindex < |hi| && ph1 == hi[hindex] && ph0 == (if hindex == 0 then ORIGIN else hi[hindex - 1])
      invariant index < |lo| && hindex > 0 ==> ph0.x < lo[index].x
      invariant f == InsertMerged(result, lo, hi, ratio, index)
    {
      var p := lo[index];
      while p.x > ph1.x && hindex < |hi| - 1
        invariant hindex < |hi| && ph1 == hi[hindex] && ph0 == (if hindex == 0 then ORIGIN else hi[hindex - 1])
        invariant hindex > 0 ==> ph0.x < p.x
        decreases |hi| - hindex
      {
        ph0 := ph1;
        hindex := hindex + 1;
        ph1 := hi[hindex];
      }
      Bracketed(hi, hindex, p.x);
      f := Insert(f, InterpolatePoint(p, ph0, ph1, ratio));
      if index + 1 < |lo| {
        Ordered(lo, index);
      }
    }
  }

  /** The line between two neighbouring points of the other curve is the curve there. */
  lemma Bracketed(ps: seq<Point>, k: nat, x: real)
    requires ValidPoints(ps) && k < |ps| && (k > 0 ==> ps[k - 1].x < x) && (x <= ps[k].x || k == |ps| - 1)
    ensures var p0 := if k == 0 then ORIGIN else ps[k - 1]; p0.x != ps[k].x && Eval(ps, x) == Through(p0, ps[k], x)
  {
    if k > 0 {
      Skip(ORIGIN, ps, k, x);
    }
  }

  lemma {:induction false} OrderedFrom(start: real, ps: seq<Point>, k: nat)
    requires Increasing(start, ps) && k + 1 < |ps|
    ensures ps[k].x < ps[k + 1].x
    decreases |ps|
  {
    if k > 0 {
      OrderedFrom(ps[0].x, ps[1..], k - 1);
    }
  }

  lemma Ordered(ps: seq<Point>, k: nat)
    requires ValidPoints(ps) && k + 1 < |ps|
    ensures ps[k].x < ps[k + 1].x
  {
    OrderedFrom(0.0, ps, k);
  }

  // ------------------------------------------------------- the merged curve

  /** The points of both curves, each mixed with the height of the other curve. */
  function MergedPoints(lo: seq<Point>, hi: seq<Point>, ratio: real): seq<Point>
    requires ValidPoints(lo) && ValidPoints(hi)
  {
    InsertMerged(InsertMerged([], lo, hi, ratio, |lo|), hi, lo, ratio, |hi|)
  }

  /** The convex combination of the two curves. */
  function Both(lo: seq<Point>, hi: seq<Point>, ratio: real, x: real): real
    requires ValidPoints(lo) && ValidPoints(hi)
  {
    Mix(Eval(lo, x), Eval(hi, x), ratio)
  }

  /** What the points of the merged curve are: at each x the mixed heights. */
  ghost predicate OnMix(f: seq<Point>, lo: seq<Point>, hi: seq<Point>, ratio: real)
    requires ValidPoints(lo) && ValidPoints(hi)
  {
    forall q <- f :: q.y == MixUp(Eval(lo, q.x), Eval(hi, q.x), ratio)
  }

  lemma {:induction false} InsertMergedKeeps(f: seq<Point>, ps: seq<Point>, other: seq<Point>, ratio: real, n: nat)
    requires ValidPoints(ps) && ValidPoints(other) && Increasing(0.0, f) && n <= |ps|
    ensures var r := InsertMerged(f, ps, other, ratio, n);
      && Increasing(0.0, r) && (n > 0 ==> r != [])
      && (forall q <- r :: q in f || (exists p <- ps :: q == MergePoint(p, other, ratio)))
      && (forall x :: HasX(r, x) <==> HasX(f, x) || HasX(ps[..n], x))
  {
    if n > 0 {
      InsertMergedKeeps(f, ps, other, ratio, n - 1);
      AllAbove(0.0, ps);
      InsertKeeps(InsertMerged(f, ps, other, ratio, n - 1), MergePoint(ps[n - 1], other, ratio), 0.0);
      assert ps[n - 1] in ps && ps[..n] == ps[..n - 1] + [ps[n - 1]];
      SameXs(ps[..n], ps[..n - 1], [ps[n - 1]]);
      SameXs([ps[n - 1]], [ps[n - 1]], []);
    }
  }

  lemma MergePointOn(p: Point, ps: seq<Point>, other: seq<Point>, ratio: real)
    requires ValidPoints(ps) && ValidPoints(other) && p in ps
    ensures MergePoint(p, other, ratio) == Point(p.x, MixUp(Eval(ps, p.x), Eval(other, p.x), ratio))
  {
    Hits(ORIGIN, ps, p);
  }

  /** The merged curve has a point at every x of either curve, at the mixed height. */
  lemma MergedPointsAre(lo: seq<Point>, hi: seq<Point>, ratio: real)
    requires ValidPoints(lo) && ValidPoints(hi)
    ensures var f := MergedPoints(lo, hi, ratio);
      ValidPoints(f) && OnMix(f, lo, hi, ratio) && forall x :: HasX(f, x) <==> HasX(lo, x) || HasX(hi, x)
  {
    var g, f := InsertMerged([], lo, hi, ratio, |lo|), MergedPoints(lo, hi, ratio);
    InsertMergedKeeps([], lo, hi, ratio, |lo|);
    InsertMergedKeeps(g, hi, lo, ratio, |hi|);
    assert lo[..|lo|] == lo && hi[..|hi|] == hi;
    forall q | q in f ensures q.y == MixUp(Eval(lo, q.x), Eval(hi, q.x), ratio) {
      if q in g {
        var p :| p in lo && q == MergePoint(p, hi, ratio);
        MergePointOn(p, lo, hi, ratio);
      } else {
        var p :| p in hi && q == MergePoint(p, lo, ratio);
        MergePointOn(p, hi, lo, ratio);
        MixUpSymmetric(Eval(hi, p.x), Eval(lo, p.x), ratio);
      }
    }
  }

  lemma MixLines(m: real, b: real, n: real, c: real, ratio: real, x: real)
    ensures Mix(Line(m, b, x), Line(n, c, x), ratio) == Line(Mix(m, n, ratio), Mix(b, c, ratio), x)
  {
  }

  /** Where neither curve turns, their combination is a line. */
  lemma BothFollows(lo: seq<Point>, hi: seq<Point>, ratio: real, a: real, x: real)
    requires ValidPoints(lo) && ValidPoints(hi) && a <= x && Gap(lo, a, x) && Gap(hi, a, x)
    ensures var l, h := PieceFrom(ORIGIN, lo, a), PieceFrom(ORIGIN, hi, a);
      Both(lo, hi, ratio, x) == Line(Mix(l.0, h.0, ratio), Mix(l.1, h.1, ratio), x)
  {
    var l, h := PieceFrom(ORIGIN, lo, a), PieceFrom(ORIGIN, hi, a);
    FollowsPiece(ORIGIN, lo, a, x);
    FollowsPiece(ORIGIN, hi, a, x);
    MixLines(l.0, l.1, h.0, h.1, ratio, x);
  }

  /** The line through two heights of the combination, with no turn between, is
      the combination wherever it does not turn. */
  lemma ExactOnPiece(lo: seq<Point>, hi: seq<Point>, ratio: real, p: Point, q: Point, x: real)
    requires ValidPoints(lo) && ValidPoints(hi) && p.x < q.x && p.x <= x
    requires p.y == Both(lo, hi, ratio, p.x) && q.y == Both(lo, hi, ratio, q.x)
    requires Gap(lo, p.x, p.x) && Gap(hi, p.x, p.x) && Gap(lo, p.x, q.x) && Gap(hi, p.x, q.x) && Gap(lo, p.x, x) && Gap(hi, p.x, x)
    ensures Through(p, q, x) == Both(lo, hi, ratio, x)
  {
    var l, h := PieceFrom(ORIGIN, lo, p.x), PieceFrom(ORIGIN, hi, p.x);
    BothFollows(lo, hi, ratio, p.x, p.x);
    BothFollows(lo, hi, ratio, p.x, q.x);
    BothFollows(lo, hi, ratio, p.x, x);
    OnlyLine(p, q, Mix(l.0, h.0, ratio), Mix(l.1, h.1, ratio));
  }

  /** Every turn of a curve beyond `a` is at a point of `fs`. */
  ghost predicate TurnsIn(ps: seq<Point>, a: real, fs: seq<Point>) {
    forall p <- ps :: p.x <= a || HasX(fs, p.x)
  }

  lemma Gaps(ps: seq<Point>, a: real, fs: seq<Point>, x: real)
    requires ValidPoints(ps) && fs != [] && Increasing(a, fs) && TurnsIn(ps, a, fs) && (|fs| == 1 || x <= fs[0].x)
    ensures Gap(ps, a, a) && Gap(ps, a, fs[0].x) && Gap(ps, a, x)
  {
    AllAbove(fs[0].x, fs[1..]);
    forall p | p in ps ensures p.x <= a || (p.x >= fs[0].x && (|fs| == 1 ==> p.x == fs[0].x)) {
      if p.x > a {
        assert HasX(fs, p.x);
        var q :| q in fs && q.x == p.x;
        assert q == fs[0] || q in fs[1..];
      }
    }
    GapInside(ps, a, a);
    GapInside(ps, a, fs[0].x);
    if |fs| == 1 {
      GapBeyond(0.0, ps, a, fs[0].x, x);
    } else {
      GapInside(ps, a, x);
    }
  }

  lemma TurnsOn(ps: seq<Point>, a: real, fs: seq<Point>)
    requires fs != [] && TurnsIn(ps, a, fs) && a < fs[0].x
    ensures TurnsIn(ps, fs[0].x, fs[1..])
  {
    SameXs(fs, [fs[0]], fs[1..]);
    SameXs([fs[0]], [fs[0]], []);
    assert [fs[0]] + fs[1..] == fs;
  }

  /** A curve through heights of the combination at all its turns is the
      combination, on beyond the last turn. */
  lemma {:induction false} ExactFrom(lo: seq<Point>, hi: seq<Point>, ratio: real, start: Point, fs: seq<Point>, x: real)
    requires ValidPoints(lo) && ValidPoints(hi) && fs != [] && Increasing(start.x, fs) && start.x <= x
    requires start.y == Both(lo, hi, ratio, start.x) && forall q <- fs :: q.y == Both(lo, hi, ratio, q.x)
    requires TurnsIn(lo, start.x, fs) && TurnsIn(hi, start.x, fs)
    ensures EvalFrom(start, fs, x) == Both(lo, hi, ratio, x)
    decreases |fs|
  {
    assert fs[0] in fs && forall q <- fs[1..] :: q in fs;
    if |fs| == 1 || x <= fs[0].x {
      Gaps(lo, start.x, fs, x);
      Gaps(hi, start.x, fs, x);
      ExactOnPiece(lo, hi, ratio, start, fs[0], x);
    } else {
      TurnsOn(lo, start.x, fs);
      TurnsOn(hi, start.x, fs);
      ExactFrom(lo, hi, ratio, fs[0], fs[1..], x);
    }
  }

  /** The curves lie the right way round at every point of either. */
  ghost predicate LowBelowHigh(lo: seq<Point>, hi: seq<Point>)
    requires ValidPoints(lo) && ValidPoints(hi)
  {
    forall p <- lo + hi :: Eval(lo, p.x) <= Eval(hi, p.x)
  }

  lemma BothAtOrigin(lo: seq<Point>, hi: seq<Point>, ratio: real)
    requires ValidPoints(lo) && ValidPoints(hi)
    ensures Both(lo, hi, ratio, 0.0) == 0.0
  {
    ThroughBoth(ORIGIN, lo[0]);
    ThroughBoth(ORIGIN, hi[0]);
  }

  /** The merged curve is the convex combination of the two curves at every
      speed, exactly when the low curve is nowhere above the high one at a point
      of either, or the ratio is one half. */
  lemma MergeExactIff(lo: seq<Point>, hi: seq<Point>, ratio: real)
    requires ValidPoints(lo) && ValidPoints(hi)
    ensures ValidPoints(MergedPoints(lo, hi, ratio))
    ensures (forall x :: x >= 0.0 ==> Eval(MergedPoints(lo, hi, ratio), x) == Both(lo, hi, ratio, x))
            <==> LowBelowHigh(lo, hi) || ratio == 0.5
  {
    var f := MergedPoints(lo, hi, ratio);
    MergedPointsAre(lo, hi, ratio);
    AllAbove(0.0, f);
    if LowBelowHigh(lo, hi) || ratio == 0.5 {
      forall q | q in f ensures q.y == Both(lo, hi, ratio, q.x) {
        assert HasX(f, q.x);
        MixUpIff(Eval(lo, q.x), Eval(hi, q.x), ratio);
      }
      BothAtOrigin(lo, hi, ratio);
      forall x | x >= 0.0 ensures Eval(f, x) == Both(lo, hi, ratio, x) {
        forall p | p in lo || p in hi ensures HasX(f, p.x) {
          assert HasX(lo, p.x) || HasX(hi, p.x);
        }
        ExactFrom(lo, hi, ratio, ORIGIN, f, x);
      }
    } else {
      var p :| p in lo + hi && Eval(lo, p.x) > Eval(hi, p.x);
      assert HasX(lo, p.x) || HasX(hi, p.x);
      assert HasX(f, p.x);
      var q :| q in f && q.x == p.x;
      Hits(ORIGIN, f, q);
      MixUpIff(Eval(lo, q.x), Eval(hi, q.x), ratio);
      assert Eval(f, q.x) != Both(lo, hi, ratio, q.x);
    }
  }

  // --------------------------------------------------------- segment tables

  /** A point in device units, from the point of the curve. */
  function Scaled(p: Point, scale: real): Point {
    Point(p.x * scale, p.y * CURSOR_SCALE)
  }

  lemma ScaledApart(p: Point, q: Point, scale: real)
    requires p.x < q.x && scale > 0.0
    ensures Scaled(p, scale).x < Scaled(q, scale).x
  {
    ProductPositive(q.x - p.x, scale);
    assert (q.x - p.x) * scale == q.x * scale - p.x * scale;
  }

  function Segments(start: Point, ps: seq<Point>, scale: real): (r: seq<Segment>)
    requires Increasing(start.x, ps) && scale > 0.0
    ensures |r| == |ps|
    decreases |ps|
  {
    if ps == [] then []
    else
      ScaledApart(start, ps[0], scale);
      var p0, p1 := Scaled(start, scale), Scaled(ps[0], scale);
      [Segment(SlopeOf(p0, p1), Offset(p0, p1), p1.x)] + Segments(ps[0], ps[1..], scale)
  }

  /** The segment for a value: the first that ends at or beyond it, else the last. */
  function Search(segments: seq<Segment>, value: real): real
    requires segments != []
  {
    if |segments| == 1 || !(value > segments[0].x) then Line(segments[0].m, segments[0].b, value)
    else Search(segments[1..], value)
  }

  lemma ScaledLine(p: Point, q: Point, scale: real, x: real)
    requires p.x < q.x && scale > 0.0
    ensures Scaled(p, scale).x != Scaled(q, scale).x
    ensures Through(Scaled(p, scale), Scaled(q, scale), x * scale) == CURSOR_SCALE * Through(p, q, x)
  {
    ScaledApart(p, q, scale);
    var m, b := SlopeOf(p, q), Offset(p, q);
    ThroughBoth(p, q);
    var n := CURSOR_SCALE * m / scale;
    assert n * scale == CURSOR_SCALE * m;
    LineAt(n, m, b, scale, p.x);
    LineAt(n, m, b, scale, q.x);
    LineAt(n, m, b, scale, x);
    OnlyLine(Scaled(p, scale), Scaled(q, scale), n, CURSOR_SCALE * b);
  }

  lemma LineAt(n: real, m: real, b: real, scale: real, x: real)
    requires n * scale == CURSOR_SCALE * m
    ensures Line(n, CURSOR_SCALE * b, x * scale) == CURSOR_SCALE * Line(m, b, x)
  {
    assert n * (x * scale) == n * scale * x;
  }

  /** The segment table computes the scaled curve. */
  lemma {:induction false} SearchIsEval(start: Point, ps: seq<Point>, scale: real, x: real)
    requires ps != [] && Increasing(start.x, ps) && scale > 0.0
    ensures Search(Segments(start, ps, scale), x * scale) == CURSOR_SCALE * EvalFrom(start, ps, x)
    decreases |ps|
  {
    ScaledLine(start, ps[0], scale, x);
    ScaledOrder(x, ps[0], scale);
    if |ps| > 1 {
      assert Segments(start, ps, scale)[1..] == Segments(ps[0], ps[1..], scale);
      SearchIsEval(ps[0], ps[1..], scale, x);
    }
  }

  /** In numbers: the multiplier of a movement is 96 for every 67 of the curve's height
      at its speed in standard units. */
  lemma MultiplierInUnits(ps: seq<Point>, resolution: real, rate: real, value: real)
    requires ValidPoints(ps) && resolution > 0.0 && rate > 0.0
    ensures resolution / rate > 0.0
    ensures Search(Segments(ORIGIN, ps, resolution / rate), value) * 67.0 == 96.0 * Eval(ps, value * rate / resolution)
  {
    QuotientPositive(resolution, rate);
    var scale, u := resolution / rate, value * rate / resolution;
    assert scale * rate == resolution && u * resolution == value * rate;
    assert u * (scale * rate) == u * scale * rate;
    Cancel(u * scale, value, rate);
    SearchIsEval(ORIGIN, ps, scale, u);
  }

  lemma ScaledOrder(x: real, p: Point, scale: real)
    requires scale > 0.0
    ensures x * scale > Scaled(p, scale).x <==> x > p.x
  {
    if x > p.x {
      ScaledApart(p, Point(x, 0.0), scale);
      assert Scaled(Point(x, 0.0), scale).x == x * scale;
    } else {
      ProductMonotone(x, p.x, scale);
    }
  }

  // ----------------------------------------------------- choosing two curves

  const MT_SIGNATURE: nat := 0x2a425355
  const DEFAULT_SIGNATURE: nat := 0x30303240

  /** Which curves an acceleration uses: one, scaled, or two with a ratio. */
  datatype Choice = One(index: nat) | Two(lo: nat, hi: nat)

  /** One curve when the acceleration is its own, or lies before the first or
      beyond the last; otherwise the two neighbours around it. */
  ghost predicate Suits(entries: seq<Entry>, acceleration: real, c: Choice) {
    match c
    case One(k) =>
      && k < |entries|
      && (forall j :: 0 <= j < k ==> entries[j].acceleration < acceleration)
      && (entries[k].acceleration == acceleration
          || (k == 0 && acceleration <= entries[k].acceleration)
          || (k == |entries| - 1 && entries[k].acceleration < acceleration))
    case Two(l, k) =>
      && l + 1 == k < |entries|
      && (forall j :: 0 <= j < k ==> entries[j].acceleration < acceleration)
      && acceleration < entries[k].acceleration
  }

  /** Only one choice suits. */
  lemma SuitsOnce(entries: seq<Entry>, acceleration: real, c: Choice, d: Choice)
    requires Suits(entries, acceleration, c) && Suits(entries, acceleration, d)
    ensures c == d
  {
  }

  method Choose(entries: seq<Entry>, acceleration: real) returns (c: Choice)
    requires entries != []
    ensures Suits(entries, acceleration, c)
  {
    var hi, lo := 0, 0;
    var found := false;
    for i := 0 to |entries|
      invariant hi < |entries| && lo < |entries| && !found
      invariant i == 0 ==> hi == 0
      invariant i > 0 ==> hi == i - 1 && lo == (if i == 1 then 0 else i - 2)
      invariant forall j :: 0 <= j < i ==> entries[j].acceleration < acceleration
    {
      lo := hi;
      hi := i;
      if acceleration <= entries[hi].acceleration {
        if acceleration == entries[hi].acceleration {
          lo := hi;
        }
        found := true;
        break;
      }
    }
    if hi == lo || acceleration > entries[hi].acceleration {
      c := One(hi);
    } else {
      c := Two(lo, hi);
    }
  }

  function Stretch(p: Point, factor: real): Point {
    Point(p.x, p.y * factor)
  }

  /** The points of a single curve, scaled to an acceleration. */
  function Stretched(ps: seq<Point>, factor: real): (r: seq<Point>)
    ensures |r| == |ps|
  {
    if ps == [] then [] else [Stretch(ps[0], factor)] + Stretched(ps[1..], factor)
  }

  function Factor(acceleration: real, own: real): real
    requires own + 1.0 != 0.0
  {
    (acceleration + 1.0) / (own + 1.0)
  }

  lemma {:induction false} StretchedIncreasing(start: real, ps: seq<Point>, factor: real)
    requires Increasing(start, ps)
    ensures Increasing(start, Stretched(ps, factor))
    decreases |ps|
  {
    if ps != [] {
      StretchedIncreasing(ps[0].x, ps[1..], factor);
    }
  }

  lemma StretchedLine(p: Point, q: Point, factor: real, x: real)
    requires p.x < q.x
    ensures Through(Stretch(p, factor), Stretch(q, factor), x) == Through(p, q, x) * factor
  {
    var m, b := SlopeOf(p, q), Offset(p, q);
    ThroughBoth(p, q);
    FactoredLine(m, b, factor, p.x);
    FactoredLine(m, b, factor, q.x);
    FactoredLine(m, b, factor, x);
    OnlyLine(Stretch(p, factor), Stretch(q, factor), m * factor, b * factor);
  }

  lemma FactoredLine(m: real, b: real, factor: real, x: real)
    ensures Line(m * factor, b * factor, x) == Line(m, b, x) * factor
  {
  }

  lemma {:induction false} StretchedEval(start: Point, ps: seq<Point>, factor: real, x: real)
    requires ps != [] && Increasing(start.x, ps)
    ensures Increasing(start.x, Stretched(ps, factor))
    ensures EvalFrom(Stretch(start, factor), Stretched(ps, factor), x) == EvalFrom(start, ps, x) * factor
    decreases |ps|
  {
    StretchedIncreasing(start.x, ps, factor);
    if |ps| == 1 || x <= ps[0].x {
      StretchedLine(start, ps[0], factor, x);
    } else {
      StretchedEval(ps[0], ps[1..], factor, x);
      assert Stretched(ps, factor)[1..] == Stretched(ps[1..], factor);
    }
  }

  lemma {:induction false} InsertLast(start: real, f: seq<Point>, p: Point)
    requires Increasing(start, f) && start < p.x && (f != [] ==> f[|f| - 1].x < p.x)
    ensures Insert(f, p) == f + [p]
    decreases |f|
  {
    if f != [] {
      if |f| > 1 {
        Before(f[0].x, f[1..], |f| - 2);
      }
      InsertLast(f[0].x, f[1..], p);
    }
  }

  lemma {:induction false} StretchedTake(ps: seq<Point>, factor: real, n: nat)
    requires n < |ps|
    ensures Stretched(ps[..n + 1], factor) == Stretched(ps[..n], factor) + [Stretch(ps[n], factor)]
    ensures n > 0 ==> Stretched(ps[..n], factor)[n - 1].x == ps[n - 1].x
    decreases n
  {
    if n > 0 {
      StretchedTake(ps[1..], factor, n - 1);
      assert ps[..n + 1][1..] == ps[1..][..n] && ps[..n][1..] == ps[1..][..n - 1];
      assert ps[1..][n - 1] == ps[n];
    } else {
      assert ps[..1] == [ps[0]] && ps[..0] == [] && [ps[0]][1..] == [];
      assert Stretched([ps[0]], factor) == [Stretch(ps[0], factor)] + Stretched([], factor);
    }
  }

  /** The points used for an acceleration. */
  function CurveFor(entries: seq<Entry>, acceleration: real, c: Choice): (f: seq<Point>)
    requires ValidEntries(entries) && Suits(entries, acceleration, c)
  {
    match c
    case One(k) => Stretched(entries[k].points, Factor(acceleration, entries[k].acceleration))
    case Two(l, k) => MergedPoints(entries[l].points, entries[k].points, RatioOf(entries, acceleration, l, k))
  }

  function RatioOf(entries: seq<Entry>, acceleration: real, l: nat, k: nat): real
    requires l < |entries| && k < |entries| && entries[l].acceleration < acceleration < entries[k].acceleration
  {
    (acceleration - entries[l].acceleration) / (entries[k].acceleration - entries[l].acceleration)
  }

  /** The entries of a table: valid curves, at accelerations other than minus one. */
  ghost predicate ValidEntries(entries: seq<Entry>) {
    entries != [] && forall e <- entries :: ValidPoints(e.points) && e.acceleration + 1.0 != 0.0
  }

  lemma CurveForValid(entries: seq<Entry>, acceleration: real, c: Choice)
    requires ValidEntries(entries) && Suits(entries, acceleration, c)
    ensures ValidPoints(CurveFor(entries, acceleration, c))
  {
    match c
    case One(k) =>
      StretchedIncreasing(0.0, entries[k].points, Factor(acceleration, entries[k].acceleration));
    case Two(l, k) =>
      MergedPointsAre(entries[l].points, entries[k].points, RatioOf(entries, acceleration, l, k));
  }

  lemma SegmentsStep(last: Point, f: seq<Point>, i: nat, scale: real)
    requires i < |f| && Increasing(last.x, f[i..]) && scale > 0.0
    ensures last.x < f[i].x && Increasing(f[i].x, f[i + 1..]) && Scaled(last, scale).x < Scaled(f[i], scale).x
    ensures var p0, p1 := Scaled(last, scale), Scaled(f[i], scale);
      Segments(last, f[i..], scale)
      == [Segment(SlopeOf(p0, p1), Offset(p0, p1), p1.x)] + Segments(f[i], f[i + 1..], scale)
  {
    assert f[i..][0] == f[i] && f[i..][1..] == f[i + 1..];
    ScaledApart(last, f[i], scale);
  }

  // ------------------------------------------------------------- the object

  class IOHIDTableAcceleration {
    var segments: seq<Segment>

    constructor ()
      ensures segments == []
    {
      segments := [];
    }

    /** The last loop of CreateWithTable. */
    method AddSegments(f: seq<Point>, scale: real)
      requires ValidPoints(f) && scale > 0.0 && segments == []
      modifies this
      ensures segments == Segments(ORIGIN, f, scale)
    {
      var p0, p1 := ORIGIN, ORIGIN;
      ghost var last := ORIGIN;
      assert f[0..] == f && Scaled(ORIGIN, scale) == ORIGIN;
      for i := 0 to |f|
        invariant p1 == Scaled(last, scale) && Increasing(last.x, f[i..])
        invariant segments + Segments(last, f[i..], scale) == Segments(ORIGIN, f, scale)
      {
        SegmentsStep(last, f, i, scale);
        ghost var rest := Segments(f[i], f[i + 1..], scale);
        p0 := p1;
        p1 := Scaled(f[i], scale);
        var segment := Segment(SlopeOf(p0, p1), Offset(p0, p1), p1.x);
        assert segments + ([segment] + rest) == (segments + [segment]) + rest;
        segments := segments + [segment];
        last := f[i];
      }
    }

    method Multiplier(value: real) returns (r: real)
      requires segments != []
      ensures r == Search(segments, value)
    {
      var curve := segments[0];
      var i := 0;
      while i < |segments|
        invariant i <= |segments|
        invariant i < |segments| ==> Search(segments[i..], value) == Search(segments, value)
        invariant i == |segments| ==> Line(curve.m, curve.b, value) == Search(segments, value)
      {
        curve := segments[i];
        if !(value > curve.x) {
          assert segments[i..][0] == curve;
          return curve.m * value + curve.b;
        }
        assert segments[i..][1..] == segments[i + 1..];
        i := i + 1;
      }
      r := curve.m * value + curve.b;
    }
  }

  /** The points of CreateWithTable, before they become segments. */
  method Points(entries: seq<Entry>, acceleration: real) returns (f: seq<Point>, ghost c: Choice)
    requires ValidEntries(entries)
    ensures Suits(entries, acceleration, c) && f == CurveFor(entries, acceleration, c)
  {
    f := [];
    var choice := Choose(entries, acceleration);
    c := choice;
    match choice
    case One(k) =>
      var ps, scale := entries[k].points, Factor(acceleration, entries[k].acceleration);
      for index := 0 to |ps|
        invariant f == Stretched(ps[..index], scale)
      {
        var point := ps[index];
        StretchedTake(ps, scale, index);
        TakeIncreasing(0.0, ps, index);
        StretchedIncreasing(0.0, ps[..index], scale);
        Before(0.0, ps, index);
        if index > 0 {
          Ordered(ps, index - 1);
        }
        var moved := Stretch(point, scale);
        InsertLast(0.0, f, moved);
        f := Insert(f, moved);
        assert f == Stretched(ps[..index], scale) + [moved];
      }
      assert ps[..|ps|] == ps;
    case Two(l, k) =>
      var lo, hi := entries[l], entries[k];
      var ratio := (acceleration - lo.acceleration) / (hi.acceleration - lo.acceleration);
      f := InterpolateFunction(lo.points, hi.points, ratio, f);
      f := InterpolateFunction(hi.points, lo.points, ratio, f);
  }

  lemma {:induction false} TakeIncreasing(start: real, ps: seq<Point>, n: nat)
    requires Increasing(start, ps) && n <= |ps|
    ensures Increasing(start, ps[..n])
    decreases n
  {
    if n > 0 {
      TakeIncreasing(ps[0].x, ps[1..], n - 1);
      assert ps[..n][1..] == ps[1..][..n - 1];
    }
  }

  /** CreateWithTable; null for a table with another signature. */
  method CreateWithTable(signature: nat, entries: seq<Entry>, acceleration: real, resolution: real, rate: real)
    returns (self: IOHIDTableAcceleration?, ghost c: Choice)
    requires ValidEntries(entries) && resolution > 0.0 && rate > 0.0
    ensures self == null <==> signature != DEFAULT_SIGNATURE && signature != MT_SIGNATURE
    ensures self != null ==> fresh(self) && Suits(entries, acceleration, c) && resolution / rate > 0.0
    ensures self != null ==>
              ValidPoints(CurveFor(entries, acceleration, c))
              && self.segments == Segments(ORIGIN, CurveFor(entries, acceleration, c), resolution / rate)
  {
    if signature != DEFAULT_SIGNATURE && signature != MT_SIGNATURE {
      return null, One(0);
    }
    self := new IOHIDTableAcceleration();
    var f;
    f, c := Points(entries, acceleration);
    CurveForValid(entries, acceleration, c);
    QuotientPositive(resolution, rate);
    self.AddSegments(f, resolution / rate);
  }

  // ------------------------------------------------------------- the theorem

  /** The curve that an acceleration asks for. */
  function Wanted(entries: seq<Entry>, acceleration: real, c: Choice, u: real): real
    requires ValidEntries(entries) && Suits(entries, acceleration, c)
  {
    match c
    case One(k) => Eval(entries[k].points, u) * Factor(acceleration, entries[k].acceleration)
    case Two(l, k) => Both(entries[l].points, entries[k].points, RatioOf(entries, acceleration, l, k), u)
  }

  /** The ratio of two neighbours mixes their accelerations to the one asked for. */
  lemma RatioMixes(entries: seq<Entry>, acceleration: real, l: nat, k: nat)
    requires l < |entries| && k < |entries| && entries[l].acceleration < acceleration < entries[k].acceleration
    ensures var lo, hi, ratio := entries[l].acceleration, entries[k].acceleration, RatioOf(entries, acceleration, l, k);
      0.0 < ratio < 1.0 && (1.0 - ratio) * lo + ratio * hi == acceleration
  {
    var lo, hi, ratio := entries[l].acceleration, entries[k].acceleration, RatioOf(entries, acceleration, l, k);
    assert ratio * (hi - lo) == acceleration - lo;
    assert ratio * hi - ratio * lo == ratio * (hi - lo);
    QuotientPositive(acceleration - lo, hi - lo);
    if ratio >= 1.0 {
      ProductMonotone(1.0, ratio, hi - lo);
    }
  }

  lemma OverItself(x: real)
    requires x != 0.0
    ensures x / x == 1.0
  {
    var q := x / x;
    assert q * x == x;
  }

  /** At the acceleration of an entry the curve asked for is the entry's own; at
      another, beyond all entries, its heights are to each other as the accelerations,
      each counted from minus one. */
  lemma SingleCurveWanted(entries: seq<Entry>, acceleration: real, k: nat, u: real)
    requires ValidEntries(entries) && Suits(entries, acceleration, One(k))
    ensures var own := entries[k].acceleration;
      && Wanted(entries, acceleration, One(k), u) * (own + 1.0) == Eval(entries[k].points, u) * (acceleration + 1.0)
      && (acceleration == own ==> Wanted(entries, acceleration, One(k), u) == Eval(entries[k].points, u))
  {
    assert entries[k] in entries;
    var own, y := entries[k].acceleration, Eval(entries[k].points, u);
    var factor := Factor(acceleration, own);
    assert factor * (own + 1.0) == acceleration + 1.0;
    OverItself(own + 1.0);
    assert y * factor * (own + 1.0) == y * (factor * (own + 1.0));
  }

  /** One curve, or two of which the first is nowhere above the second, or an
      acceleration half-way between them. */
  ghost predicate RightWayRound(entries: seq<Entry>, acceleration: real, c: Choice)
    requires ValidEntries(entries) && Suits(entries, acceleration, c)
  {
    match c
    case One(k) => true
    case Two(l, k) => LowBelowHigh(entries[l].points, entries[k].points) || RatioOf(entries, acceleration, l, k) == 0.5
  }

  /** The segments give, for every speed from zero on, the wanted curve. */
  ghost predicate Exact(segments: seq<Segment>, scale: real, entries: seq<Entry>, acceleration: real, c: Choice)
    requires segments != [] && ValidEntries(entries) && Suits(entries, acceleration, c)
  {
    forall u :: u >= 0.0 ==> Search(segments, u * scale) == CURSOR_SCALE * Wanted(entries, acceleration, c, u)
  }

  /** The segment table gives, for every speed from zero on, the wanted curve at
      the speed in standard units, scaled to the cursor: always for one curve,
      and for two exactly when they lie the right way round or the acceleration
      is half-way between them. */
  lemma TableExactIff(entries: seq<Entry>, acceleration: real, c: Choice, scale: real)
    requires ValidEntries(entries) && Suits(entries, acceleration, c) && scale > 0.0
    ensures ValidPoints(CurveFor(entries, acceleration, c))
    ensures Exact(Segments(ORIGIN, CurveFor(entries, acceleration, c), scale), scale, entries, acceleration, c)
            <==> RightWayRound(entries, acceleration, c)
  {
    var f := CurveFor(entries, acceleration, c);
    CurveForValid(entries, acceleration, c);
    assert Segments(ORIGIN, f, scale) != [];
    forall u
      ensures Search(Segments(ORIGIN, f, scale), u * scale) == CURSOR_SCALE * Wanted(entries, acceleration, c, u)
              <==> Eval(f, u) == Wanted(entries, acceleration, c, u)
    {
      SearchIsEval(ORIGIN, f, scale, u);
      SameScaled(Eval(f, u), Wanted(entries, acceleration, c, u));
    }
    match c
    case One(k) =>
      forall u ensures Eval(f, u) == Wanted(entries, acceleration, c, u) {
        OneExact(entries, acceleration, k, u);
      }
    case Two(l, k) =>
      MergeExactIff(entries[l].points, entries[k].points, RatioOf(entries, acceleration, l, k));
  }

  lemma SameScaled(x: real, y: real)
    ensures CURSOR_SCALE * x == CURSOR_SCALE * y <==> x == y
  {
    assert CURSOR_SCALE == 96.0 / 67.0;
  }

  lemma OneExact(entries: seq<Entry>, acceleration: real, k: nat, u: real)
    requires ValidEntries(entries) && Suits(entries, acceleration, One(k))
    ensures ValidPoints(CurveFor(entries, acceleration, One(k)))
    ensures Eval(CurveFor(entries, acceleration, One(k)), u) == Wanted(entries, acceleration, One(k), u)
  {
    CurveForValid(entries, acceleration, One(k));
    var factor := Factor(acceleration, entries[k].acceleration);
    StretchedEval(ORIGIN, entries[k].points, factor, u);
    assert Stretch(ORIGIN, factor) == ORIGIN;
  }
}