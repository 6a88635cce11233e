/**
 Bit strings as natural numbers: shifting, masking, bit fields, bitwise or,
 and little-endian numbers held in sequences of digits. A byte buffer or a
 32-bit word buffer is read as one (large) number, and a bit field of the
 buffer as some consecutive bits of that number.

 Everything is defined bit by bit, which keeps the proofs linear; ClosedForm
 relates the definitions to division and remainder.
 */
module Numbers {

  type Byte = b: int | 0 <= b < 0x100
  type Word = w: int | 0 <= w < 0x1_0000_0000

  function Pow2(n: nat): (p: nat)
    ensures p > 0
  {
    if n == 0 then 1 else 2 * Pow2(n - 1)
  }

  /** x * 2^n */
  function Shl(x: int, n: nat): int {
    if n == 0 then x else 2 * Shl(x, n - 1)
  }

  /** x / 2^n */
  function Above(x: nat, n: nat): nat {
    if n == 0 then x else Above(x / 2, n - 1)
  }

  /** x % 2^n */
  function Low(x: nat, n: nat): nat {
    if n == 0 then 0 else x % 2 + 2 * Low(x / 2, n - 1)
  }

  lemma Pow2Values()
    ensures Pow2(8) == 0x100 && Pow2(32) == 0x1_0000_0000
  {
    assert Pow2(8) == 0x100;
    assert Pow2(16) == 0x1_0000;
    assert Pow2(24) == 0x100_0000;
  }

  lemma {:induction false} Pow2Monotone(a: nat, b: nat)
    requires a <= b
    ensures Pow2(a) <= Pow2(b)
    decreases b
  {
    if a < b {
      Pow2Monotone(a, b - 1);
    }
  }

  lemma {:induction false} ShlSum(x: int, y: int, n: nat)
    ensures Shl(x + y, n) == Shl(x, n) + Shl(y, n)
    ensures Shl(x - y, n) == Shl(x, n) - Shl(y, n)
    ensures Shl(0, n) == 0
    ensures x >= 0 ==> Shl(x, n) >= 0
  {
    if n > 0 {
      ShlSum(x, y, n - 1);
    }
  }

  lemma {:induction false} ShlShl(x: int, a: nat, b: nat)
    ensures Shl(Shl(x, a), b) == Shl(x, a + b)
    decreases b
  {
    if b > 0 {
      ShlShl(x, a, b - 1);
    }
  }

  lemma {:induction false} ShlPow2(n: nat)
    ensures Shl(1, n) == Pow2(n)
  {
    if n > 0 {
      ShlPow2(n - 1);
    }
  }

  lemma {:induction false} Parts(x: nat, n: nat)
    ensures x == Low(x, n) + Shl(Above(x, n), n)
    ensures Low(x, n) < Pow2(n)
  {
    if n > 0 {
      Parts(x / 2, n - 1);
    }
  }

  lemma {:induction false} Unique(x: nat, n: nat, lo: nat, hi: nat)
    requires lo < Pow2(n) && x == lo + Shl(hi, n)
    ensures Low(x, n) == lo && Above(x, n) == hi
  {
    if n > 0 {
      Unique(x / 2, n - 1, lo / 2, hi);
    }
  }

  lemma {:induction false} AboveAbove(x: nat, a: nat, b: nat)
    ensures Above(Above(x, a), b) == Above(x, a + b)
    decreases a
  {
    if a > 0 {
      AboveAbove(x / 2, a - 1, b);
    }
  }

  lemma {:induction false} LowSplit(x: nat, a: nat, b: nat)
    ensures Low(x, a + b) == Low(x, a) + Shl(Low(Above(x, a), b), a)
    decreases a
  {
    if a > 0 {
      LowSplit(x / 2, a - 1, b);
    }
  }

  lemma {:induction false} InsideLow(x: nat, n: nat, a: nat)
    requires a <= n
    ensures Low(Low(x, n), a) == Low(x, a)
    ensures Above(Low(x, n), a) == Low(Above(x, a), n - a)
    decreases a
  {
    if a > 0 {
      InsideLow(x / 2, n - 1, a - 1);
      assert Low(x, n) % 2 == x % 2 && Low(x, n) / 2 == Low(x / 2, n - 1);
    }
  }

  lemma {:induction false} LowOfSmall(x: nat, n: nat)
    requires x < Pow2(n)
    ensures Low(x, n) == x && Above(x, n) == 0
  {
    ShlSum(0, 0, n);
    Unique(x, n, x, 0);
  }

  lemma {:induction false} ShlBound(f: nat, n: nat, s: nat)
    requires f < Pow2(n)
    ensures Shl(f, s) + Pow2(s) <= Pow2(s + n)
    decreases s
  {
    if s > 0 {
      ShlBound(f, n, s - 1);
    }
  }

  lemma {:induction false} LowZero(n: nat)
    ensures Low(0, n) == 0 && Above(0, n) == 0
  {
    if n > 0 {
      LowZero(n - 1);
    }
  }

  /** Shifting and masking are multiplication, quotient and remainder. */
  lemma {:induction false} ClosedForm(x: nat, n: nat)
    ensures Shl(x, n) == x * Pow2(n)
    ensures Above(x, n) == x / Pow2(n) && Low(x, n) == x % Pow2(n)
  {
    ShlIsProduct(x, n);
    Parts(x, n);
    var q := Above(x, n);
    ShlIsProduct(q, n);
    DivModUnique(x, Pow2(n), q, Low(x, n));
  }

  lemma {:induction false} ShlIsProduct(x: nat, n: nat)
    ensures Shl(x, n) == x * Pow2(n)
  {
    if n > 0 {
      ShlIsProduct(x, n - 1);
      var p := Pow2(n - 1);
      assert x * (2 * p) == 2 * (x * p);
    }
  }

  lemma DivModUnique(x: nat, d: nat, q: nat, r: nat)
    requires d > 0 && r < d && x == q * d + r
    ensures x / d == q && x % d == r
  {
    var q', r' := x / d, x % d;
    assert x == q' * d + r';
    if q' > q {
      Bigger(q', q, d);
    } else if q > q' {
      Bigger(q, q', d);
    }
  }

  lemma Bigger(a: nat, b: nat, d: nat)
    requires a > b && d > 0
    ensures a * d >= b * d + d
  {
    var k := a - b - 1;
    assert a * d == b * d + d + k * d;
    assert k * d >= 0;
  }

  // ------------------------------------------------------------ bit fields

  /** The `n` bits of `x` from bit `start` upwards, as a number. */
  function Field(x: nat, start: nat, n: nat): nat {
    Low(Above(x, start), n)
  }

  lemma FieldBound(x: nat, start: nat, n: nat)
    ensures Field(x, start, n) < Pow2(n)
  {
    Parts(Above(x, start), n);
  }

  /** A field of a + b bits is one of a bits followed by one of b bits. */
  lemma FieldSplit(x: nat, s: nat, a: nat, b: nat)
    ensures Field(x, s, a + b) == Field(x, s, a) + Shl(Field(x, s + a, b), a)
  {
    LowSplit(Above(x, s), a, b);
    AboveAbove(x, s, a);
  }

  /** A field of a field is a field. */
  lemma FieldOfField(x: nat, s: nat, n: nat, a: nat, b: nat)
    requires a + b <= n
    ensures Field(Field(x, s, n), a, b) == Field(x, s + a, b)
  {
    InsideLow(Above(x, s), n, a);
    AboveAbove(x, s, a);
    InsideLow(Above(x, s + a), n - a, b);
  }

  /** Two bit ranges that do not meet. */
  predicate Apart(a: nat, b: nat, s: nat, n: nat) {
    a + b <= s || s + n <= a
  }

  /** `x` with the `n` bits at `start` replaced by `f`. */
  function ReplaceField(x: nat, start: nat, n: nat, f: nat): nat {
    ShlSum(f, 0, start);
    ShlSum(Above(x, start + n), 0, start + n);
    Low(x, start) + Shl(f, start) + Shl(Above(x, start + n), start + n)
  }

  lemma ReplacedParts(x: nat, s: nat, n: nat, f: nat)
    requires f < Pow2(n)
    ensures Low(ReplaceField(x, s, n, f), s) == Low(x, s)
    ensures Field(ReplaceField(x, s, n, f), s, n) == f
    ensures Above(ReplaceField(x, s, n, f), s + n) == Above(x, s + n)
  {
    var hi := Above(x, s + n);
    ShlSum(f, Shl(hi, n), s);
    ShlSum(hi, 0, n);
    ShlShl(hi, n, s);
    Parts(x, s);
    Unique(ReplaceField(x, s, n, f), s, Low(x, s), f + Shl(hi, n));
    Unique(f + Shl(hi, n), n, f, hi);
    AboveAbove(ReplaceField(x, s, n, f), s, n);
  }

  lemma ReplacedElsewhere(x: nat, s: nat, n: nat, f: nat, a: nat, b: nat)
    requires f < Pow2(n) && Apart(a, b, s, n)
    ensures Field(ReplaceField(x, s, n, f), a, b) == Field(x, a, b)
  {
    var y := ReplaceField(x, s, n, f);
    ReplacedParts(x, s, n, f);
    if a + b <= s {
      InsideLow(x, s, a);
      InsideLow(y, s, a);
      InsideLow(Above(x, a), s - a, b);
      InsideLow(Above(y, a), s - a, b);
    } else {
      AboveAbove(x, s + n, a - (s + n));
      AboveAbove(y, s + n, a - (s + n));
    }
  }

  /** The replaced number is the old one plus the change at that place. */
  lemma ReplacedDifference(x: nat, s: nat, n: nat, f: nat)
    ensures ReplaceField(x, s, n, f) == x + Shl(f - Field(x, s, n), s)
  {
    Parts(x, s);
    Parts(Above(x, s), n);
    AboveAbove(x, s, n);
    var g, hi := Field(x, s, n), Above(x, s + n);
    ShlSum(g, Shl(hi, n), s);
    ShlShl(hi, n, s);
    ShlSum(f, g, s);
  }

  /** Replacing a field by what it holds changes nothing. */
  lemma ReplacedBySelf(x: nat, s: nat, n: nat)
    ensures ReplaceField(x, s, n, Field(x, s, n)) == x
  {
    ReplacedDifference(x, s, n, Field(x, s, n));
    ShlSum(0, 0, s);
  }

  /** Replacing a field and then the next one replaces both at once. */
  lemma ReplacedTwice(x: nat, s: nat, a: nat, b: nat, f: nat, g: nat)
    requires f < Pow2(a)
    ensures f + Shl(g, a) >= 0
    ensures ReplaceField(ReplaceField(x, s, a, f), s + a, b, g) == ReplaceField(x, s, a + b, f + Shl(g, a))
  {
    var y := ReplaceField(x, s, a, f);
    ReplacedParts(x, s, a, f);
    ReplacedDifference(x, s, a, f);
    ReplacedDifference(y, s + a, b, g);
    AboveAbove(y, s + a, b);
    AboveAbove(x, s + a, b);
    ShlSum(g, 0, a);
    ReplacedDifference(x, s, a + b, f + Shl(g, a));
    FieldSplit(x, s, a, b);
    var f0, g0 := Field(x, s, a), Field(x, s + a, b);
    ShlSum(g, g0, a);
    ShlSum(f - f0, Shl(g - g0, a), s);
    ShlShl(g - g0, a, s);
  }

  // ------------------------------------------------------------ bitwise or

  function Or(a: nat, b: nat): nat {
    if a == 0 && b == 0 then 0
    else (if a % 2 == 1 || b % 2 == 1 then 1 else 0) + 2 * Or(a / 2, b / 2)
  }

  lemma {:induction false} OrZero(a: nat)
    ensures Or(0, a) == a
  {
    if a > 0 {
      OrZero(a / 2);
    }
  }

  /** Or works on the low bits and on the high bits separately. */
  lemma {:induction false} OrParts(a: nat, b: nat, n: nat)
    ensures Low(Or(a, b), n) == Or(Low(a, n), Low(b, n))
    ensures Above(Or(a, b), n) == Or(Above(a, n), Above(b, n))
  {
    if n > 0 {
      OrParts(a / 2, b / 2, n - 1);
      assert Or(a, b) / 2 == Or(a / 2, b / 2);
      assert Or(a, b) % 2 == (if a % 2 == 1 || b % 2 == 1 then 1 else 0);
      assert Low(a, n) / 2 == Low(a / 2, n - 1) && Low(a, n) % 2 == a % 2;
      assert Low(b, n) / 2 == Low(b / 2, n - 1) && Low(b, n) % 2 == b % 2;
      assert Or(Low(a, n), Low(b, n)) / 2 == Or(Low(a / 2, n - 1), Low(b / 2, n - 1));
    }
  }

  lemma OrBound(a: nat, b: nat, n: nat)
    requires a < Pow2(n) && b < Pow2(n)
    ensures Or(a, b) < Pow2(n)
  {
    OrParts(a, b, n);
    LowOfSmall(a, n);
    LowOfSmall(b, n);
    Parts(Or(a, b), n);
    ShlSum(0, 0, n);
  }

  lemma OrSmall(u: nat, n: nat, f: nat)
    requires f < Pow2(n)
    ensures Or(u, f) == Or(Low(u, n), f) + Shl(Above(u, n), n)
  {
    LowOfSmall(f, n);
    OrParts(u, f, n);
    OrZeroRight(Above(u, n));
    Parts(Or(u, f), n);
  }

  lemma OrShift(x: nat, s: nat, f: nat)
    ensures Shl(f, s) >= 0
    ensures Or(x, Shl(f, s)) == Low(x, s) + Shl(Or(Above(x, s), f), s)
  {
    ShlSum(f, 0, s);
    Unique(Shl(f, s), s, 0, f);
    OrParts(x, Shl(f, s), s);
    OrZeroRight(Low(x, s));
    Parts(Or(x, Shl(f, s)), s);
  }

  /** Or with a shifted field: only that field changes. */
  lemma OrShifted(x: nat, s: nat, n: nat, f: nat)
    requires f < Pow2(n)
    ensures Shl(f, s) >= 0
    ensures Or(x, Shl(f, s)) == ReplaceField(x, s, n, Or(Field(x, s, n), f))
  {
    OrShift(x, s, f);
    OrSmall(Above(x, s), n, f);
    AboveAbove(x, s, n);
    var hi := Above(x, s + n);
    ShlSum(Or(Field(x, s, n), f), Shl(hi, n), s);
    ShlShl(hi, n, s);
  }

  lemma {:induction false} OrZeroRight(a: nat)
    ensures Or(a, 0) == a
  {
    if a > 0 {
      OrZeroRight(a / 2);
    }
  }

  // -------------------------------------------------- little-endian digits

  /** The number whose digits, of `width` bits each, are `s`, lowest first. */
  function Number(s: seq<nat>, width: nat): nat {
    if s == [] then 0 else
      ShlSum(Number(s[1..], width), 0, width);
      s[0] + Shl(Number(s[1..], width), width)
  }

  ghost predicate Digits(s: seq<nat>, width: nat) {
    forall i :: 0 <= i < |s| ==> s[i] < Pow2(width)
  }

  /** Dropping `k` digits shifts the number right by `k` digits. */
  lemma {:induction false} NumberDrop(s: seq<nat>, width: nat, k: nat)
    requires Digits(s, width) && k <= |s|
    ensures Above(Number(s, width), width * k) == Number(s[k..], width)
    decreases k
  {
    if k == 0 {
      assert s[0..] == s;
    } else {
      NumberDrop(s[1..], width, k - 1);
      assert s[1..][k - 1..] == s[k..];
      Unique(Number(s, width), width, s[0], Number(s[1..], width));
      AboveAbove(Number(s, width), width, width * (k - 1));
      assert width + width * (k - 1) == width * k;
    }
  }

  /** The first `k` digits are the low bits. */
  lemma {:induction false} NumberTake(s: seq<nat>, width: nat, k: nat)
    requires Digits(s, width) && k <= |s|
    ensures width * k >= 0
    ensures Number(s[..k], width) == Low(Number(s, width), width * k)
    decreases k
  {
    if k == 0 {
    } else {
      NumberTake(s[1..], width, k - 1);
      assert s[..k][1..] == s[1..][..k - 1];
      assert s[..k][0] == s[0];
      Unique(Number(s, width), width, s[0], Number(s[1..], width));
      LowSplit(Number(s, width), width, width * (k - 1));
      assert width + width * (k - 1) == width * k;
    }
  }

  lemma NumberSlice(s: seq<nat>, width: nat, a: nat, m: nat)
    requires Digits(s, width) && a + m <= |s|
    ensures width * a >= 0 && width * m >= 0
    ensures Number(s[a..a + m], width) == Field(Number(s, width), width * a, width * m)
  {
    NumberDrop(s, width, a);
    NumberTake(s[a..], width, m);
    assert s[a..][..m] == s[a..a + m];
  }

  /** Bits [a, a + b) of digit `k` are bits [width * k + a, ...) of the number. */
  lemma DigitField(s: seq<nat>, width: nat, k: nat, a: nat, b: nat)
    requires Digits(s, width) && k < |s| && a + b <= width
    ensures width * k + a >= 0
    ensures Field(Number(s, width), width * k + a, b) == Field(s[k], a, b)
  {
    var x := Number(s, width);
    NumberDrop(s, width, k);
    AboveAbove(x, width * k, a);
    var y := Number(s[k..], width);
    assert s[k..][0] == s[k];
    Unique(y, width, s[k], Number(s[k..][1..], width));
    InsideLow(y, width, a);
    InsideLow(Above(y, a), width - a, b);
  }

  lemma Digit(s: seq<nat>, width: nat, k: nat)
    requires Digits(s, width) && k < |s|
    ensures width * k >= 0
    ensures Field(Number(s, width), width * k, width) == s[k]
  {
    DigitField(s, width, k, 0, width);
    LowOfSmall(s[k], width);
  }

  /** Changing digit `k` adds the difference at that digit's place. */
  lemma {:induction false} NumberUpdate(s: seq<nat>, width: nat, k: nat, d: nat)
    requires k < |s|
    ensures width * k >= 0
    ensures Number(s[k := d], width) == Number(s, width) + Shl(d - s[k], width * k)
    decreases k
  {
    if k == 0 {
      assert s[0 := d][1..] == s[1..];
    } else {
      NumberUpdate(s[1..], width, k - 1, d);
      assert s[k := d][1..] == s[1..][k - 1 := d];
      assert s[k := d][0] == s[0];
      assert width + width * (k - 1) == width * k;
      var e := Shl(d - s[k], width * (k - 1));
      ShlSum(Number(s[1..], width), e, width);
      ShlShl(d - s[k], width * (k - 1), width);
    }
  }

  lemma ReplacedBound(x: nat, width: nat, a: nat, b: nat, f: nat)
    requires x < Pow2(width) && a + b <= width && f < Pow2(b)
    ensures ReplaceField(x, a, b, f) < Pow2(width)
  {
    ReplacedParts(x, a, b, f);
    var y := ReplaceField(x, a, b, f);
    AboveAbove(x, a + b, width - (a + b));
    AboveAbove(y, a + b, width - (a + b));
    LowOfSmall(x, width);
    Parts(y, width);
    ShlSum(0, 0, width);
  }

  /** Replacing bits inside one digit replaces the same bits of the number. */
  lemma DigitReplaced(s: seq<nat>, width: nat, k: nat, a: nat, b: nat, f: nat)
    requires Digits(s, width) && k < |s| && a + b <= width
    ensures width * k + a >= 0
    ensures Number(s[k := ReplaceField(s[k], a, b, f)], width) == ReplaceField(Number(s, width), width * k + a, b, f)
  {
    var d := ReplaceField(s[k], a, b, f);
    NumberUpdate(s, width, k, d);
    DigitField(s, width, k, a, b);
    ReplacedDifference(s[k], a, b, f);
    ReplacedDifference(Number(s, width), width * k + a, b, f);
    ShlShl(f - Field(s[k], a, b), a, width * k);
  }

  /** Equal numbers have equal digits. */
  lemma NumberInjective(s: seq<nat>, t: seq<nat>, width: nat)
    requires |s| == |t| && Digits(s, width) && Digits(t, width)
    requires Number(s, width) == Number(t, width)
    ensures s == t
  {
    forall k | 0 <= k < |s| ensures s[k] == t[k] {
      Digit(s, width, k);
      Digit(t, width, k);
    }
  }
}
