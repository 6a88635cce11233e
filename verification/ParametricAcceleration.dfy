/**
 IOHIDParametricAcceleration: an acceleration curve in up to three pieces, a
 polynomial, a line and a square root. Doubles are reals; a square root is
 described by its square.
 */
module ParametricAcceleration {
  import opened Reals
  import opened Options

  const CURSOR_SCALE := 96.0 / 67.0

  /** ACCELL_CURVE */
  datatype Curve = Curve(index: real, linear: real, parabolic: real, cubic: real, quartic: real,
                         tangentLinear: real, tangentRoot: real)
  {
    predicate IsValid() {
      linear != 0.0 || parabolic != 0.0 || cubic != 0.0 || quartic != 0.0
    }

    predicate NonnegativeGains() {
      linear >= 0.0 && parabolic >= 0.0 && cubic >= 0.0 && quartic >= 0.0
    }
  }

  /** A tangent speed; `Never` stands for the largest double. */
  datatype Speed = Never | At(x: real)

  datatype Parametric = Parametric(curve: Curve, tangent0: Speed, tangent1: Speed, m0: real, b0: real, m1: real, b1: real)

  /** What multiplier computes: a number, or the root of a number. */
  datatype Value = Exactly(y: real) | RootOf(square: real)

  predicate Means(v: Value, y: real) {
    match v
    case Exactly(z) => y == z
    case RootOf(square) => IsRoot(y, square)
  }

  /** The root of a negative number is no number. */
  predicate Defined(v: Value) {
    v.RootOf? ==> v.square >= 0.0
  }

  /** The first number is at most the second, without taking a root. */
  predicate AtMost(v: Value, w: Value) {
    match (v, w)
    case (Exactly(y), Exactly(z)) => y <= z
    case (Exactly(y), RootOf(square)) => y <= 0.0 || Pow2(y) <= square
    case (RootOf(square), Exactly(z)) => z >= 0.0 && square <= Pow2(z)
    case (RootOf(square), RootOf(other)) => square <= other
  }

  lemma AtMostIff(v: Value, w: Value, y: real, z: real)
    requires Means(v, y) && Means(w, z)
    ensures Defined(v) && Defined(w)
    ensures AtMost(v, w) <==> y <= z
  {
    PowersNonnegative(y);
    PowersNonnegative(z);
    if 0.0 <= y <= z {
      SquareMonotone(y, z);
    } else if 0.0 <= z < y {
      SquareStrict(z, y);
    }
  }

  // ------------------------------------------------------------ the pieces

  /** The first piece. */
  function Polynomial(c: Curve, x: real): real {
    c.linear * x + Pow2(c.parabolic * x) + Pow3(c.cubic * x) + Pow4(c.quartic * x)
  }

  /** Its derivative, as CreateWithParameters writes it. */
  function Slope(c: Curve, x: real): real {
    c.linear + 2.0 * x * Pow2(c.parabolic) + 3.0 * Pow2(x) * Pow3(c.cubic) + 4.0 * Pow3(x) * Pow4(c.quartic)
  }

  // b[0] of a line of slope m through y at t
  function Intercept(y: real, m: real, t: real): real { y - m * t }

  // m[1] and b[1] after a line of slope m that reaches y at t
  function RootSlope(y: real, m: real): real { 2.0 * y * m }
  function RootOffset(y: real, slope: real, t: real): real { Pow2(y) - slope * t }

  function Line(m: real, b: real, x: real): real { m * x + b }

  /** The pieces of a curve, by which of its tangent speeds are given. Numbers
      that CreateWithParameters leaves unset, because no speed reaches their
      piece, are zero here. */
  function Build(c: Curve): Parametric {
    var t, u := c.tangentLinear, c.tangentRoot;
    if t != 0.0 then
      var m0 := Slope(c, t);
      var b0 := Intercept(Polynomial(c, t), m0, t);
      if u != 0.0 then
        var y1 := Line(m0, b0, u);
        var m1 := RootSlope(y1, m0);
        Parametric(c, At(t), At(u), m0, b0, m1, RootOffset(y1, m1, u))
      else
        Parametric(c, At(t), Never, m0, b0, 0.0, 0.0)
    else if u != 0.0 then
      var m1 := Slope(c, u);
      Parametric(c, At(u), Never, 0.0, 0.0, m1, RootOffset(Polynomial(c, u), m1, u))
    else
      Parametric(c, Never, Never, 0.0, 0.0, 0.0, 0.0)
  }

  predicate Within(x: real, s: Speed) {
    match s
    case Never => true
    case At(t) => x <= t
  }

  /** The curve at a standardised speed: multiplier between its two scalings. */
  function Evaluate(a: Parametric, x: real): Value {
    if Within(x, a.tangent0) then Exactly(Polynomial(a.curve, x))
    else if Within(x, a.tangent1) && a.tangent0 == At(a.curve.tangentLinear) then Exactly(Line(a.m0, a.b0, x))
    else RootOf(Line(a.m1, a.b1, x))
  }

  // ------------------------------------------------- quartics on the reals

  function Quartic(l: real, p: real, c: real, q: real, x: real): real {
    l * x + p * Pow2(x) + c * Pow3(x) + q * Pow4(x)
  }

  function QuarticSlope(l: real, p: real, c: real, q: real, x: real): real {
    l + 2.0 * (p * x) + 3.0 * (c * Pow2(x)) + 4.0 * (q * Pow3(x))
  }

  /** The quadratic left over when the double contact at `t` is divided out. */
  function Remainder(p: real, c: real, q: real, t: real, x: real): real {
    p + c * (x + 2.0 * t) + q * (Pow2(x) + 2.0 * (x * t) + 3.0 * Pow2(t))
  }

  lemma RemainderNonnegative(p: real, c: real, q: real, t: real, x: real)
    requires p >= 0.0 && c >= 0.0 && q >= 0.0 && t >= 0.0 && x >= 0.0
    ensures Remainder(p, c, q, t, x) >= 0.0
  {
    var sum := Pow2(x) + 2.0 * (x * t) + 3.0 * Pow2(t);
    Product(x, t);
    PowersNonnegative(x);
    PowersNonnegative(t);
    assert sum >= 0.0;
    SumNonnegative(p, c, x + 2.0 * t, q, sum);
  }

  lemma SumNonnegative(p: real, c: real, a: real, q: real, b: real)
    requires p >= 0.0 && c >= 0.0 && q >= 0.0 && a >= 0.0 && b >= 0.0
    ensures p + c * a + q * b >= 0.0
  {
    Product(c, a);
    Product(q, b);
  }

  lemma QuarticMonotone(l: real, p: real, c: real, q: real, x: real, y: real)
    requires l >= 0.0 && p >= 0.0 && c >= 0.0 && q >= 0.0 && 0.0 <= x <= y
    ensures Quartic(l, p, c, q, x) <= Quartic(l, p, c, q, y)
  {
    SquareMonotone(x, y);
    CubeMonotone(x, y);
    FourthMonotone(x, y);
    SumMonotone(l, p, c, q, x, Pow2(x), Pow3(x), Pow4(x), y, Pow2(y), Pow3(y), Pow4(y));
  }

  lemma SumMonotone(l: real, p: real, c: real, q: real, x: real, x2: real, x3: real, x4: real,
                    y: real, y2: real, y3: real, y4: real)
    requires l >= 0.0 && p >= 0.0 && c >= 0.0 && q >= 0.0 && x <= y && x2 <= y2 && x3 <= y3 && x4 <= y4
    ensures l * x + p * x2 + c * x3 + q * x4 <= l * y + p * y2 + c * y3 + q * y4
  {
    ScaleMonotone(l, x, y);
    ScaleMonotone(p, x2, y2);
    ScaleMonotone(c, x3, y3);
    ScaleMonotone(q, x4, y4);
  }

  lemma SlopeSign(l: real, p: real, c: real, q: real, t: real)
    requires l >= 0.0 && p >= 0.0 && c >= 0.0 && q >= 0.0 && t >= 0.0
    ensures QuarticSlope(l, p, c, q, t) >= 0.0
    ensures t > 0.0 && (l > 0.0 || p > 0.0 || c > 0.0 || q > 0.0) ==> QuarticSlope(l, p, c, q, t) > 0.0
  {
    PowersNonnegative(t);
    if t > 0.0 {
      PowersPositive(t);
    }
    Term(p, t);
    Term(c, Pow2(t));
    Term(q, Pow3(t));
  }

  lemma Term(k: real, x: real)
    requires k >= 0.0 && x >= 0.0
    ensures k * x >= 0.0 && (k > 0.0 && x > 0.0 ==> k * x > 0.0)
  {
  }

  // ------------------------------------------------------- gains as a quartic

  function P(c: Curve): real { Pow2(c.parabolic) }
  function C(c: Curve): real { Pow3(c.cubic) }
  function Q(c: Curve): real { Pow4(c.quartic) }

  lemma AsQuartic(c: Curve, x: real)
    ensures Polynomial(c, x) == Quartic(c.linear, P(c), C(c), Q(c), x)
  {
  }

  lemma AsQuarticSlope(c: Curve, x: real)
    ensures Slope(c, x) == QuarticSlope(c.linear, P(c), C(c), Q(c), x)
  {
  }

  lemma Gains(c: Curve)
    requires c.NonnegativeGains()
    ensures P(c) >= 0.0 && C(c) >= 0.0 && Q(c) >= 0.0
    ensures c.IsValid() ==> c.linear > 0.0 || P(c) > 0.0 || C(c) > 0.0 || Q(c) > 0.0
  {
    PowersNonnegative(c.parabolic);
    PowersNonnegative(c.cubic);
    PowersNonnegative(c.quartic);
    if c.parabolic > 0.0 {
      PowersPositive(c.parabolic);
    } else if c.cubic > 0.0 {
      PowersPositive(c.cubic);
    } else if c.quartic > 0.0 {
      PowersPositive(c.quartic);
    }
  }

  lemma PolynomialMonotone(c: Curve, x: real, y: real)
    requires c.NonnegativeGains() && 0.0 <= x <= y
    ensures 0.0 <= Polynomial(c, x) <= Polynomial(c, y)
  {
    Gains(c);
    AsQuartic(c, 0.0);
    AsQuartic(c, x);
    AsQuartic(c, y);
    QuarticMonotone(c.linear, P(c), C(c), Q(c), 0.0, x);
    QuarticMonotone(c.linear, P(c), C(c), Q(c), x, y);
    assert Polynomial(c, 0.0) == 0.0;
  }

  lemma SlopeOf(c: Curve, x: real)
    requires c.NonnegativeGains() && x >= 0.0
    ensures Slope(c, x) >= 0.0 && (c.IsValid() && x > 0.0 ==> Slope(c, x) > 0.0)
  {
    Gains(c);
    AsQuarticSlope(c, x);
    SlopeSign(c.linear, P(c), C(c), Q(c), x);
  }

  function Ramp(y: real, k: real, d: real): real { y + k * d }

  lemma RampGrows(y: real, k: real, d: real, e: real)
    requires k >= 0.0 && 0.0 <= d <= e
    ensures y <= Ramp(y, k, d) <= Ramp(y, k, e)
  {
    Product(k, d);
    ScaleMonotone(k, d, e);
  }

  lemma RampOn(y: real, k: real, d: real, e: real)
    ensures Ramp(Ramp(y, k, d), k, e) == Ramp(y, k, d + e)
  {
  }

  /** The tangent to the polynomial at `t`. */
  function Tangent(c: Curve, t: real, x: real): real {
    Ramp(Polynomial(c, t), Slope(c, t), x - t)
  }

  /** The line that Slope gives touches the polynomial twice at `t`, so Slope is
      its derivative there. */
  lemma TangentTouches(c: Curve, t: real, x: real)
    ensures Polynomial(c, x) - Polynomial(c, t) - Slope(c, t) * (x - t) == Pow2(x - t) * Remainder(P(c), C(c), Q(c), t, x)
  {
  }

  /** With nonnegative gains the tangent lies below the polynomial. */
  lemma TangentBelow(c: Curve, t: real, x: real)
    requires c.NonnegativeGains() && t >= 0.0 && x >= 0.0
    ensures Tangent(c, t, x) <= Polynomial(c, x)
  {
    TangentTouches(c, t, x);
    Gains(c);
    RemainderNonnegative(P(c), C(c), Q(c), t, x);
    PowersNonnegative(x - t);
    Product(Pow2(x - t), Remainder(P(c), C(c), Q(c), t, x));
  }

  lemma TangentGrows(c: Curve, t: real, x: real, z: real)
    requires c.NonnegativeGains() && 0.0 <= t <= x <= z
    ensures 0.0 <= Polynomial(c, t) <= Tangent(c, t, x) <= Tangent(c, t, z)
  {
    SlopeOf(c, t);
    PolynomialMonotone(c, t, t);
    RampGrows(Polynomial(c, t), Slope(c, t), x - t, z - t);
  }

  lemma LineForm(y: real, m: real, t: real, x: real)
    ensures Line(m, Intercept(y, m, t), x) == Ramp(y, m, x - t)
  {
  }

  // --------------------------------------------------------- the root piece

  /** The number under the root after a line of slope m that reaches y at t. */
  function Under(y: real, m: real, t: real, x: real): real {
    Line(RootSlope(y, m), RootOffset(y, RootSlope(y, m), t), x)
  }

  /** It is the square of the line at the joint, and as much more as the line's
      square has slope there. */
  lemma RootForm(y: real, m: real, t: real, x: real)
    ensures Under(y, m, t, x) == Ramp(Pow2(y), 2.0 * (y * m), x - t)
    ensures Pow2(Ramp(y, m, x - t)) - Under(y, m, t, x) == Pow2(m * (x - t))
  {
    UnderForm(y, m, t, x);
    SquaredSum(y, m * (x - t));
    Regrouped(y, m, x - t);
  }

  lemma UnderForm(y: real, m: real, t: real, x: real)
    ensures Under(y, m, t, x) == Ramp(Pow2(y), 2.0 * (y * m), x - t)
  {
  }

  lemma SquaredSum(y: real, w: real)
    ensures Pow2(y + w) == Pow2(y) + 2.0 * (y * w) + Pow2(w)
  {
  }

  lemma Regrouped(y: real, m: real, d: real)
    ensures Ramp(Pow2(y), 2.0 * (y * m), d) == Pow2(y) + 2.0 * (y * (m * d))
  {
  }

  lemma UnderGrows(y: real, m: real, t: real, x: real, z: real)
    requires y >= 0.0 && m >= 0.0 && t <= x <= z
    ensures Pow2(y) <= Under(y, m, t, x) <= Under(y, m, t, z)
  {
    Product(y, m);
    RampGrows(Pow2(y), 2.0 * (y * m), x - t, z - t);
    RootForm(y, m, t, x);
    RootForm(y, m, t, z);
  }

  /** After the joint the root lies between its height there and the line. */
  lemma RootTail(y: real, m: real, t: real, x: real, r: real)
    requires y >= 0.0 && m >= 0.0 && t <= x && IsRoot(r, Under(y, m, t, x))
    ensures y <= r <= Ramp(y, m, x - t)
  {
    var line := Ramp(y, m, x - t);
    UnderGrows(y, m, t, x, x);
    RootMonotone(y, r, Pow2(y), Under(y, m, t, x));
    RampGrows(y, m, x - t, x - t);
    RootForm(y, m, t, x);
    PowersNonnegative(m * (x - t));
    RootMonotone(r, line, Under(y, m, t, x), Pow2(line));
  }

  // ----------------------------------------------------- three-piece curves

  predicate ThreePieces(c: Curve) {
    c.tangentLinear != 0.0 && c.tangentRoot != 0.0
  }

  predicate Ordered(c: Curve) {
    && c.NonnegativeGains() && c.tangentLinear >= 0.0 && c.tangentRoot >= 0.0
    && (ThreePieces(c) ==> c.tangentLinear <= c.tangentRoot)
  }

  lemma BuiltLine(c: Curve, x: real)
    requires c.tangentLinear != 0.0
    ensures Line(Build(c).m0, Build(c).b0, x) == Tangent(c, c.tangentLinear, x)
  {
    LineForm(Polynomial(c, c.tangentLinear), Slope(c, c.tangentLinear), c.tangentLinear, x);
  }

  lemma BuiltRoot(c: Curve, x: real)
    requires ThreePieces(c)
    ensures var t, u := c.tangentLinear, c.tangentRoot;
      Line(Build(c).m1, Build(c).b1, x) == Under(Tangent(c, t, u), Slope(c, t), u, x)
  {
    BuiltLine(c, c.tangentRoot);
  }

  /** The three pieces by their meaning. */
  lemma PieceAt(c: Curve, x: real)
    requires ThreePieces(c)
    ensures var t, u := c.tangentLinear, c.tangentRoot;
      Evaluate(Build(c), x)
      == if x <= t then Exactly(Polynomial(c, x))
         else if x <= u then Exactly(Tangent(c, t, x))
         else RootOf(Under(Tangent(c, t, u), Slope(c, t), u, x))
  {
    BuiltLine(c, x);
    BuiltRoot(c, x);
  }

  /** Neighbouring pieces agree where they meet. */
  lemma JointsAgree(c: Curve)
    requires Ordered(c) && ThreePieces(c)
    ensures var a, t, u := Build(c), c.tangentLinear, c.tangentRoot;
      && Line(a.m0, a.b0, t) == Polynomial(c, t)
      && IsRoot(Line(a.m0, a.b0, u), Line(a.m1, a.b1, u))
  {
    var t, u := c.tangentLinear, c.tangentRoot;
    BuiltLine(c, t);
    BuiltLine(c, u);
    BuiltRoot(c, u);
    TangentGrows(c, t, t, u);
    RootForm(Tangent(c, t, u), Slope(c, t), u, u);
  }

  /** The line touches the third piece twice where they meet, so it is the tangent of
      the root there. */
  lemma RootTouches(c: Curve, d: real)
    requires ThreePieces(c)
    ensures var a, x := Build(c), c.tangentRoot + d; Pow2(Line(a.m0, a.b0, x)) - Line(a.m1, a.b1, x) == Pow2(a.m0 * d)
  {
    hide Polynomial, Slope, Intercept;
    TouchesAt(Build(c).m0, Build(c).b0, c.tangentRoot, d);
  }

  lemma TouchesAt(m: real, b: real, u: real, d: real)
    ensures var y := Line(m, b, u);
      var m1 := RootSlope(y, m);
      Pow2(Line(m, b, u + d)) - Line(m1, RootOffset(y, m1, u), u + d) == Pow2(m * d)
  {
  }

  /** A gain is a factor of the speed, and goes into the power with it: `k` times all
      gains do what `k` times the speed does. */
  lemma GainsScaleSpeed(c: Curve, k: real, x: real)
    ensures Polynomial(c.(linear := k * c.linear, parabolic := k * c.parabolic, cubic := k * c.cubic, quartic := k * c.quartic), x)
            == Polynomial(c, k * x)
  {
    assert k * c.linear * x == c.linear * (k * x) && k * c.parabolic * x == c.parabolic * (k * x);
    assert k * c.cubic * x == c.cubic * (k * x) && k * c.quartic * x == c.quartic * (k * x);
  }

  /** The third piece never rises above the line of the second. */
  lemma TailBelowLine(c: Curve, x: real, y: real)
    requires Ordered(c) && ThreePieces(c) && x > c.tangentRoot && Means(Evaluate(Build(c), x), y)
    ensures y <= Line(Build(c).m0, Build(c).b0, x)
  {
    var t, u := c.tangentLinear, c.tangentRoot;
    PieceAt(c, x);
    TangentGrows(c, t, t, u);
    SlopeOf(c, t);
    RootTail(Tangent(c, t, u), Slope(c, t), u, x, y);
    BuiltLine(c, x);
    RampOn(Polynomial(c, t), Slope(c, t), u - t, x - u);
    assert u - t + (x - u) == x - t;
  }

  /** Both numbers exist, and the curve does not fall from one to the other. */
  predicate RisesFrom(c: Curve, x: real, z: real) {
    var v, w := Evaluate(Build(c), x), Evaluate(Build(c), z);
    Defined(v) && Defined(w) && AtMost(v, w)
  }

  lemma ThreePiecesRise(c: Curve, x: real, z: real)
    requires Ordered(c) && ThreePieces(c) && 0.0 <= x <= z
    ensures RisesFrom(c, x, z)
  {
    var t, u := c.tangentLinear, c.tangentRoot;
    var joint, m := Tangent(c, t, u), Slope(c, t);
    PieceAt(c, x);
    PieceAt(c, z);
    TangentGrows(c, t, t, u);
    SlopeOf(c, t);
    PowersNonnegative(joint);
    if z > u {
      UnderGrows(joint, m, u, z, z);
      var y := if x <= t then Polynomial(c, x) else Tangent(c, t, x);
      if x <= u {
        ReachesJoint(c, x, y);
        SquareMonotone(y, joint);
      } else {
        UnderGrows(joint, m, u, x, z);
      }
    } else if x <= t {
      PolynomialMonotone(c, x, if z <= t then z else t);
      if z > t {
        TangentGrows(c, t, t, z);
      }
    } else {
      TangentGrows(c, t, x, z);
    }
  }

  /** The first two pieces stay below their end. */
  lemma ReachesJoint(c: Curve, x: real, y: real)
    requires Ordered(c) && ThreePieces(c) && 0.0 <= x <= c.tangentRoot
    requires y == if x <= c.tangentLinear then Polynomial(c, x) else Tangent(c, c.tangentLinear, x)
    ensures 0.0 <= y <= Tangent(c, c.tangentLinear, c.tangentRoot)
  {
    var t, u := c.tangentLinear, c.tangentRoot;
    if x <= t {
      PolynomialMonotone(c, x, t);
      TangentGrows(c, t, t, u);
    } else {
      TangentGrows(c, t, x, u);
    }
  }

  // -------------------------------------------- curves with fewer pieces

  /** The number under a root straight after the polynomial. */
  function UnderAlone(y: real, k: real, t: real, x: real): real {
    Line(k, RootOffset(y, k, t), x)
  }

  lemma AloneForm(y: real, k: real, t: real, x: real)
    ensures UnderAlone(y, k, t, x) == Ramp(Pow2(y), k, x - t)
  {
  }

  lemma AloneGap(y: real, w: real)
    ensures Pow2(y + w) - (Pow2(y) + w) == w * (2.0 * y - 1.0 + w)
  {
  }

  lemma TwoPieces(c: Curve, x: real)
    requires !ThreePieces(c)
    ensures var t, u := c.tangentLinear, c.tangentRoot;
      Evaluate(Build(c), x)
      == if t != 0.0 then Exactly(if x <= t then Polynomial(c, x) else Tangent(c, t, x))
         else if u == 0.0 || x <= u then Exactly(Polynomial(c, x))
         else RootOf(UnderAlone(Polynomial(c, u), Slope(c, u), u, x))
  {
    if c.tangentLinear != 0.0 {
      BuiltLine(c, x);
    }
  }

  lemma TwoPiecesRise(c: Curve, x: real, z: real)
    requires Ordered(c) && !ThreePieces(c) && 0.0 <= x <= z
    ensures RisesFrom(c, x, z)
  {
    var t, u := c.tangentLinear, c.tangentRoot;
    TwoPieces(c, x);
    TwoPieces(c, z);
    if t != 0.0 {
      if x <= t {
        PolynomialMonotone(c, x, if z <= t then z else t);
      } else {
        TangentGrows(c, t, x, z);
      }
      if z > t {
        TangentGrows(c, t, t, z);
      }
    } else if u == 0.0 || z <= u {
      PolynomialMonotone(c, x, z);
    } else {
      AloneRises(c, x, z);
    }
  }

  lemma AloneRises(c: Curve, x: real, z: real)
    requires c.NonnegativeGains() && 0.0 < c.tangentRoot < z && 0.0 <= x <= z
    ensures var u := c.tangentRoot;
      var joint, k := Polynomial(c, u), Slope(c, u);
      && 0.0 <= UnderAlone(joint, k, u, z)
      && if x <= u then 0.0 <= Polynomial(c, x) && Pow2(Polynomial(c, x)) <= UnderAlone(joint, k, u, z)
         else 0.0 <= UnderAlone(joint, k, u, x) <= UnderAlone(joint, k, u, z)
  {
    var u := c.tangentRoot;
    var joint, k := Polynomial(c, u), Slope(c, u);
    SlopeOf(c, u);
    PowersNonnegative(joint);
    var low := if x <= u then u else x;
    RampGrows(Pow2(joint), k, low - u, z - u);
    AloneForm(joint, k, u, low);
    AloneForm(joint, k, u, z);
    if x <= u {
      PolynomialMonotone(c, x, u);
      SquareMonotone(Polynomial(c, x), joint);
    }
  }

  // ---------------------------------------- tangent speeds the wrong way round

  predicate Misordered(c: Curve) {
    c.NonnegativeGains() && 0.0 < c.tangentRoot < c.tangentLinear
  }

  /** The number under the root of slope `m`, when the line reached `y` at `t`
      but the root starts earlier, where the line was lower by `w`. */
  function TailUnder(y: real, m: real, w: real, e: real): real {
    Pow2(y) - Pow2(w) + 2.0 * (m * (y - w)) * e
  }

  /** How far the line falls from the end of the first piece back to the place
      where the root should have begun. */
  function Fall(c: Curve): real {
    Slope(c, c.tangentLinear) * (c.tangentLinear - c.tangentRoot)
  }

  /** What lies under the root right after the first piece. */
  lemma MisorderedTail(c: Curve, x: real)
    requires Misordered(c) && x > c.tangentLinear
    ensures var t := c.tangentLinear;
      Evaluate(Build(c), x) == RootOf(TailUnder(Polynomial(c, t), Slope(c, t), Fall(c), x - t))
  {
    hide Polynomial, Slope, Under, TailUnder, Build, Evaluate;
    var t, u := c.tangentLinear, c.tangentRoot;
    PieceAt(c, x);
    TailFrom(Tangent(c, t, u), Polynomial(c, t), Slope(c, t), Fall(c), t, u, x);
  }

  lemma TailFrom(p: real, y: real, m: real, w: real, t: real, u: real, x: real)
    requires p == Ramp(y, m, u - t) && w == m * (t - u)
    ensures Under(p, m, u, x) == TailUnder(y, m, w, x - t)
  {
    Negated(m, t, u);
    UnderForm(p, m, u, x);
    Expanded(p, y, m, w, t - u, x - t, x - u);
  }

  lemma Negated(m: real, a: real, b: real)
    ensures m * (b - a) == -(m * (a - b))
  {
  }

  lemma Expanded(p: real, y: real, m: real, w: real, d: real, e: real, f: real)
    requires w == m * d && p == y - w && f == d + e
    ensures Ramp(Pow2(p), 2.0 * (p * m), f) == TailUnder(y, m, w, e)
  {
    var k := 2.0 * (p * m);
    assert k == 2.0 * (m * (y - w));
    assert k * f == k * d + k * e;
    assert k * d == 2.0 * (p * w);
    assert Pow2(p) + 2.0 * (p * w) == Pow2(y) - Pow2(w);
  }

  lemma TailSign(y: real, m: real, w: real, e: real)
    requires y >= 0.0 && m >= 0.0 && w >= 0.0 && e >= 0.0
    ensures TailUnder(y, m, w, e) < 0.0 <==> w > y
  {
    if w > y {
      SquareStrict(y, w);
      Product(m, w - y);
      Product(m * (w - y), e);
      Negated(m, w, y);
      Doubled(m * (w - y), e);
    } else {
      SquareMonotone(w, y);
      Product(m, y - w);
      Product(2.0 * (m * (y - w)), e);
    }
  }

  lemma Doubled(k: real, e: real)
    ensures 2.0 * (-k) * e == -2.0 * (k * e)
  {
  }

  lemma FallPositive(c: Curve)
    requires Misordered(c)
    ensures Fall(c) >= 0.0 && Slope(c, c.tangentLinear) >= 0.0 && Polynomial(c, c.tangentLinear) >= 0.0
    ensures c.IsValid() ==> Fall(c) > 0.0
  {
    hide Polynomial, Slope;
    var t := c.tangentLinear;
    SlopeOf(c, t);
    PolynomialMonotone(c, t, t);
    Product(Slope(c, t), t - c.tangentRoot);
    if c.IsValid() {
      PartPositive(Slope(c, t), t - c.tangentRoot, Fall(c));
    }
  }

  /** Beyond the first piece there is no value at all, just when the tangent has
      fallen below zero where the root piece should have begun. */
  lemma UndefinedIff(c: Curve, x: real)
    requires Misordered(c) && x > c.tangentLinear
    ensures !Defined(Evaluate(Build(c), x)) <==> Fall(c) > Polynomial(c, c.tangentLinear)
  {
    var t := c.tangentLinear;
    MisorderedTail(c, x);
    FallPositive(c);
    TailSign(Polynomial(c, t), Slope(c, t), Fall(c), x - t);
  }

  /** Otherwise the curve falls at once: at some speed beyond the first piece it
      is below the height that the first piece reached. */
  lemma Drops(c: Curve) returns (z: real)
    requires Misordered(c) && c.IsValid() && Fall(c) <= Polynomial(c, c.tangentLinear)
    ensures z > c.tangentLinear && Defined(Evaluate(Build(c), z))
    ensures !AtMost(Evaluate(Build(c), c.tangentLinear), Evaluate(Build(c), z))
  {
    hide Polynomial, Slope, Fall, Build, Evaluate, Pow2;
    var t := c.tangentLinear;
    var y, m, w := Polynomial(c, t), Slope(c, t), Fall(c);
    FallPositive(c);
    SquarePositive(w);
    Product(m, y - w);
    var d := SmallRun(2.0 * (m * (y - w)), Pow2(w));
    z := t + d;
    assert z - t == d;
    MisorderedTail(c, z);
    UndefinedIff(c, z);
    PieceAt(c, t);
  }

  lemma SmallRun(k: real, s: real) returns (d: real)
    requires k >= 0.0 && s > 0.0
    ensures d > 0.0 && k * d < s
  {
    if k == 0.0 {
      d := 1.0;
    } else {
      d := s / (2.0 * k);
      QuotientPositive(s, 2.0 * k);
      HalfQuotient(s, k);
    }
  }

  // ------------------------------------------------ is the tail a tangent?

  predicate TailUnderTangent(c: Curve, x: real) {
    var v := Evaluate(Build(c), x);
    v.RootOf? && v.square <= Pow2(Tangent(c, c.tangentRoot, x))
  }

  /** The square-root tail of a curve without a linear piece stays below the
      tangent of the polynomial at the joint exactly when the curve is flat
      there or has reached one half: m[1] is set to the slope, not to twice the
      height times the slope. */
  lemma AloneTailBelowTangentIff(c: Curve)
    requires c.NonnegativeGains() && c.tangentLinear == 0.0 && c.tangentRoot > 0.0
    ensures (forall x :: x > c.tangentRoot ==> TailUnderTangent(c, x))
            <==> Slope(c, c.tangentRoot) == 0.0 || 2.0 * Polynomial(c, c.tangentRoot) >= 1.0
  {
    var u := c.tangentRoot;
    var y, k := Polynomial(c, u), Slope(c, u);
    SlopeOf(c, u);
    if k == 0.0 || 2.0 * y >= 1.0 {
      forall x | x > u ensures TailUnderTangent(c, x) {
        AloneBelow(y, k, u, x);
      }
    } else {
      var x := Escape(y, k, u);
      assert !TailUnderTangent(c, x);
    }
  }

  lemma AloneGapAt(y: real, k: real, t: real, x: real)
    ensures Pow2(Ramp(y, k, x - t)) - UnderAlone(y, k, t, x) == k * (x - t) * (2.0 * y - 1.0 + k * (x - t))
  {
    AloneForm(y, k, t, x);
    AloneGap(y, k * (x - t));
  }

  lemma AloneBelow(y: real, k: real, u: real, x: real)
    requires k >= 0.0 && x > u && (k == 0.0 || 2.0 * y >= 1.0)
    ensures UnderAlone(y, k, u, x) <= Pow2(Ramp(y, k, x - u))
  {
    AloneGapAt(y, k, u, x);
    if k > 0.0 {
      Product(k, x - u);
      Product(k * (x - u), 2.0 * y - 1.0 + k * (x - u));
    }
  }

  /** A speed at which the root is above the tangent. */
  lemma Escape(y: real, k: real, u: real) returns (x: real)
    requires k > 0.0 && 2.0 * y < 1.0
    ensures x > u && Pow2(Ramp(y, k, x - u)) < UnderAlone(y, k, u, x)
  {
    var e := 1.0 - 2.0 * y;
    var d := e / (2.0 * k);
    x := u + d;
    QuotientPositive(e, 2.0 * k);
    HalfQuotient(e, k);
    AloneGapAt(y, k, u, x);
    assert k * (x - u) == e / 2.0;
    SquarePositive(k * (x - u));
    EscapeGap(k * (x - u), 2.0 * y - 1.0 + k * (x - u));
  }

  lemma EscapeGap(w: real, z: real)
    requires z == -w
    ensures w * z == -Pow2(w)
  {
  }

  lemma HalfQuotient(e: real, k: real)
    requires k > 0.0
    ensures k * (e / (2.0 * k)) == e / 2.0
  {
  }

  // ----------------------------------------------------------- the whole curve

  /** The curve has a value at every speed, and never falls. */
  ghost predicate Rises(c: Curve) {
    forall x, z :: 0.0 <= x <= z ==> RisesFrom(c, x, z)
  }

  predicate Plausible(c: Curve) {
    c.IsValid() && c.NonnegativeGains() && c.tangentLinear >= 0.0 && c.tangentRoot >= 0.0
  }

  lemma OrderedRises(c: Curve, x: real, z: real)
    requires Ordered(c) && 0.0 <= x <= z
    ensures RisesFrom(c, x, z)
  {
    if ThreePieces(c) {
      ThreePiecesRise(c, x, z);
    } else {
      TwoPiecesRise(c, x, z);
    }
  }

  /** A curve has a value everywhere and never falls if and only if its tangent
      speeds, when both are given, are in order. */
  lemma RisesIffOrdered(c: Curve)
    requires Plausible(c)
    ensures Rises(c) <==> Ordered(c)
  {
    if Ordered(c) {
      forall x, z | 0.0 <= x <= z ensures RisesFrom(c, x, z) {
        OrderedRises(c, x, z);
      }
    } else {
      var t := c.tangentLinear;
      UndefinedIff(c, t + 1.0);
      if Fall(c) > Polynomial(c, t) {
        assert !RisesFrom(c, t, t + 1.0);
      } else {
        var z := Drops(c);
        assert !RisesFrom(c, t, z);
      }
    }
  }

  /** There is a value at every speed exactly when the tangent speeds are in order
      or the tangent is still above zero at the earlier one. */
  lemma DefinedIff(c: Curve)
    requires Plausible(c)
    ensures (forall x :: 0.0 <= x ==> Defined(Evaluate(Build(c), x)))
            <==> Ordered(c) || Fall(c) <= Polynomial(c, c.tangentLinear)
  {
    var t := c.tangentLinear;
    if Ordered(c) {
      forall x | 0.0 <= x ensures Defined(Evaluate(Build(c), x)) {
        OrderedRises(c, x, x);
      }
    } else if Fall(c) <= Polynomial(c, t) {
      forall x | 0.0 <= x ensures Defined(Evaluate(Build(c), x)) {
        PieceAt(c, x);
        if x > t {
          UndefinedIff(c, x);
        }
      }
    } else {
      UndefinedIff(c, t + 1.0);
    }
  }

  /** The numbers that an ordered curve gives are nondecreasing. */
  lemma Nondecreasing(c: Curve, x: real, z: real, y: real, w: real)
    requires Ordered(c) && 0.0 <= x <= z
    requires Means(Evaluate(Build(c), x), y) && Means(Evaluate(Build(c), z), w)
    ensures y <= w
  {
    OrderedRises(c, x, z);
    AtMostIff(Evaluate(Build(c), x), Evaluate(Build(c), z), y, w);
  }

  // ------------------------------------------------- choosing between curves

  function Mix(a: real, b: real, ratio: real): real {
    a + ratio * (b - a)
  }

  lemma MixBetween(a: real, b: real, ratio: real)
    requires 0.0 <= ratio <= 1.0
    ensures a <= b ==> a <= Mix(a, b, ratio) <= b
    ensures a >= b ==> a >= Mix(a, b, ratio) >= b
  {
    if a <= b {
      MixUpwards(a, b, ratio);
    } else {
      MixUpwards(b, a, 1.0 - ratio);
      assert Mix(b, a, 1.0 - ratio) == Mix(a, b, ratio);
    }
  }

  lemma MixUpwards(a: real, b: real, ratio: real)
    requires 0.0 <= ratio <= 1.0 && a <= b
    ensures a <= Mix(a, b, ratio) <= b
  {
    Product(ratio, b - a);
    Product(1.0 - ratio, b - a);
    assert b - Mix(a, b, ratio) == (1.0 - ratio) * (b - a);
  }

  lemma MixOrdered(a: real, b: real, c: real, d: real, ratio: real)
    requires 0.0 <= ratio <= 1.0 && a <= c && b <= d
    ensures Mix(a, b, ratio) <= Mix(c, d, ratio)
  {
    MixBetween(c - a, d - b, ratio);
    assert Mix(c, d, ratio) - Mix(a, b, ratio) == Mix(c - a, d - b, ratio);
  }

  function Blend(lo: Curve, hi: Curve, ratio: real): Curve {
    Curve(Mix(lo.index, hi.index, ratio), Mix(lo.linear, hi.linear, ratio), Mix(lo.parabolic, hi.parabolic, ratio),
          Mix(lo.cubic, hi.cubic, ratio), Mix(lo.quartic, hi.quartic, ratio),
          Mix(lo.tangentLinear, hi.tangentLinear, ratio), Mix(lo.tangentRoot, hi.tangentRoot, ratio))
  }

  /** A blend leads from the one curve to the other in a straight line: nothing of the
      ratio gives the first, all of it the second, and half-way between two blends is
      the blend half-way. */
  lemma BlendIsStraight(lo: Curve, hi: Curve, r: real, s: real)
    ensures Blend(lo, hi, 0.0) == lo && Blend(lo, hi, 1.0) == hi
    ensures Blend(Blend(lo, hi, r), Blend(lo, hi, s), 0.5) == Blend(lo, hi, (r + s) / 2.0)
  {
    MixStraight(lo.index, hi.index, r, s);
    MixStraight(lo.linear, hi.linear, r, s);
    MixStraight(lo.parabolic, hi.parabolic, r, s);
    MixStraight(lo.cubic, hi.cubic, r, s);
    MixStraight(lo.quartic, hi.quartic, r, s);
    MixStraight(lo.tangentLinear, hi.tangentLinear, r, s);
    MixStraight(lo.tangentRoot, hi.tangentRoot, r, s);
  }

  lemma MixStraight(a: real, b: real, r: real, s: real)
    ensures Mix(a, b, 0.0) == a && Mix(a, b, 1.0) == b
    ensures Mix(Mix(a, b, r), Mix(a, b, s), 0.5) == Mix(a, b, (r + s) / 2.0)
  {
    var d := b - a;
    assert (r + s) / 2.0 * d == 0.5 * (r * d) + 0.5 * (s * d);
  }

  /** Two curves between which every blend is in order: they have no line, or no
      root, or both speeds of each are in order even where one is missing. */
  predicate Compatible(lo: Curve, hi: Curve) {
    || (lo.tangentLinear == 0.0 && hi.tangentLinear == 0.0)
    || (lo.tangentRoot == 0.0 && hi.tangentRoot == 0.0)
    || (lo.tangentLinear <= lo.tangentRoot && hi.tangentLinear <= hi.tangentRoot)
  }

  /** Two ordered curves blend into an ordered curve at every ratio between them
      if and only if they are compatible. */
  lemma BlendsOrderedIff(lo: Curve, hi: Curve)
    requires Ordered(lo) && Ordered(hi)
    ensures (forall ratio :: 0.0 < ratio < 1.0 ==> Ordered(Blend(lo, hi, ratio))) <==> Compatible(lo, hi)
  {
    if Compatible(lo, hi) {
      forall ratio | 0.0 < ratio < 1.0 ensures Ordered(Blend(lo, hi, ratio)) {
        BlendOrdered(lo, hi, ratio);
      }
    } else if lo.tangentLinear > lo.tangentRoot {
      var ratio := Crossing(lo.tangentLinear, hi.tangentLinear, hi.tangentRoot);
      assert !Ordered(Blend(lo, hi, ratio));
    } else {
      var ratio := Crossing(hi.tangentLinear, lo.tangentLinear, lo.tangentRoot);
      MixTurned(hi.tangentLinear, lo.tangentLinear, ratio);
      MixTurned(hi.tangentRoot, lo.tangentRoot, ratio);
      assert !Ordered(Blend(lo, hi, 1.0 - ratio));
    }
  }

  lemma MixTurned(a: real, b: real, ratio: real)
    ensures Mix(b, a, 1.0 - ratio) == Mix(a, b, ratio)
  {
  }

  /** Near a curve with a line and no root, a blend with a curve that has a root
      has both, the root first. */
  lemma Crossing(t: real, s: real, u: real) returns (ratio: real)
    requires t > 0.0 && s >= 0.0 && u > 0.0
    ensures 0.0 < ratio < 1.0 && 0.0 < Mix(0.0, u, ratio) < Mix(t, s, ratio)
  {
    ratio := t / (2.0 * (t + u));
    QuotientPositive(t, 2.0 * (t + u));
    HalfQuotient(t, t + u);
    assert (t + u) * ratio == t / 2.0;
    ProductPositive(u, ratio);
    ProductPositive(t, ratio);
    Product(s, ratio);
    assert t * ratio + u * ratio == t / 2.0;
    assert ratio < 1.0 by {
      if ratio >= 1.0 {
        ProductMonotone(1.0, ratio, t + u);
        assert false;
      }
    }
    assert Mix(t, s, ratio) == t + s * ratio - t * ratio && Mix(0.0, u, ratio) == u * ratio;
  }

  lemma BlendOrdered(lo: Curve, hi: Curve, ratio: real)
    requires 0.0 <= ratio <= 1.0 && Ordered(lo) && Ordered(hi) && Compatible(lo, hi)
    ensures Ordered(Blend(lo, hi, ratio))
  {
    BlendPlausible(lo, hi, ratio);
    if lo.tangentLinear <= lo.tangentRoot && hi.tangentLinear <= hi.tangentRoot {
      MixOrdered(lo.tangentLinear, hi.tangentLinear, lo.tangentRoot, hi.tangentRoot, ratio);
    }
  }

  /** A blend keeps gains and tangent speeds from being negative. */
  lemma BlendPlausible(lo: Curve, hi: Curve, ratio: real)
    requires 0.0 <= ratio <= 1.0 && lo.NonnegativeGains() && hi.NonnegativeGains()
    requires lo.tangentLinear >= 0.0 && lo.tangentRoot >= 0.0 && hi.tangentLinear >= 0.0 && hi.tangentRoot >= 0.0
    ensures var c := Blend(lo, hi, ratio);
      c.NonnegativeGains() && c.tangentLinear >= 0.0 && c.tangentRoot >= 0.0 && (lo.IsValid() && hi.IsValid() ==> c.IsValid())
  {
    MixNonnegative(lo.linear, hi.linear, ratio);
    MixNonnegative(lo.parabolic, hi.parabolic, ratio);
    MixNonnegative(lo.cubic, hi.cubic, ratio);
    MixNonnegative(lo.quartic, hi.quartic, ratio);
    MixNonnegative(lo.tangentLinear, hi.tangentLinear, ratio);
    MixNonnegative(lo.tangentRoot, hi.tangentRoot, ratio);
  }

  lemma MixNonnegative(a: real, b: real, ratio: real)
    requires 0.0 <= ratio <= 1.0 && a >= 0.0 && b >= 0.0
    ensures Mix(a, b, ratio) >= 0.0
    ensures (a > 0.0 && ratio < 1.0) || (b > 0.0 && ratio == 1.0) ==> Mix(a, b, ratio) > 0.0
  {
    MixBetween(a, b, ratio);
    Product(ratio, b);
    assert Mix(a, b, ratio) == (1.0 - ratio) * a + ratio * b;
    if a > 0.0 && ratio < 1.0 {
      ProductPositive(1.0 - ratio, a);
    }
  }

  lemma MixStrict(a: real, b: real, ratio: real)
    requires 0.0 < ratio < 1.0 && a < b
    ensures a < Mix(a, b, ratio) < b
  {
    PartPositive(ratio, b - a, ratio * (b - a));
    PartSmaller(ratio, b - a, ratio * (b - a));
  }

  lemma PartPositive(ratio: real, d: real, p: real)
    requires ratio > 0.0 && d > 0.0 && p == ratio * d
    ensures p > 0.0
  {
    ProductPositive(ratio, d);
  }

  lemma PartSmaller(ratio: real, d: real, p: real)
    requires ratio < 1.0 && d > 0.0 && p == ratio * d
    ensures p < d
  {
    Remaining(ratio, d);
  }

  lemma Remaining(ratio: real, d: real)
    requires ratio < 1.0 && d > 0.0
    ensures ratio * d < d
  {
    ProductPositive(1.0 - ratio, d);
    assert (1.0 - ratio) * d == d - ratio * d;
  }

  lemma RatioBetween(lo: real, hi: real, x: real)
    requires lo < x < hi
    ensures 0.0 <= (x - lo) / (hi - lo) <= 1.0 && Mix(lo, hi, (x - lo) / (hi - lo)) == x
  {
    var r := (x - lo) / (hi - lo);
    assert r * (hi - lo) == x - lo;
    QuotientMonotone(0.0, x - lo, hi - lo);
    QuotientMonotone(x - lo, hi - lo, hi - lo);
    assert (hi - lo) / (hi - lo) == 1.0;
  }

  /** `c` is the curve for an acceleration: a listed one, or a blend of two
      neighbours that lies exactly at the acceleration. */
  ghost predicate Chosen(curves: seq<Curve>, acceleration: real, c: Curve) {
    exists k: nat :: k < |curves| && ChosenAt(curves, acceleration, c, k)
  }

  /** `k` is the last curve at or below the acceleration, or the first curve. */
  ghost predicate ChosenAt(curves: seq<Curve>, acceleration: real, c: Curve, k: nat)
    requires k < |curves|
  {
    && (curves[k].index <= acceleration || k == 0)
    && (forall j :: k < j < |curves| ==> curves[j].index > acceleration)
    && if curves[k].index < acceleration && k + 1 < |curves| then
         IsBlend(curves[k], curves[k + 1], c) && c.index == acceleration
       else c == curves[k]
  }

  ghost predicate IsBlend(lo: Curve, hi: Curve, c: Curve) {
    exists ratio :: 0.0 <= ratio <= 1.0 && c == Blend(lo, hi, ratio)
  }

  /** Ordered curves, each compatible with the next. */
  ghost predicate Smooth(curves: seq<Curve>) {
    && (forall c <- curves :: Ordered(c))
    && (forall k: nat :: k + 1 < |curves| ==> Compatible(curves[k], curves[k + 1]))
  }

  lemma ChosenOrdered(curves: seq<Curve>, acceleration: real, c: Curve)
    requires Smooth(curves) && Chosen(curves, acceleration, c)
    ensures Ordered(c)
  {
    var k: nat :| k < |curves| && ChosenAt(curves, acceleration, c, k);
    if curves[k].index < acceleration && k + 1 < |curves| {
      var ratio :| 0.0 <= ratio <= 1.0 && c == Blend(curves[k], curves[k + 1], ratio);
      BlendOrdered(curves[k], curves[k + 1], ratio);
    }
  }

  /** A list of plausible curves at increasing accelerations. */
  ghost predicate PlausibleList(curves: seq<Curve>) {
    && (forall c <- curves :: Plausible(c) && c.index >= 0.0)
    && (forall j, k :: 0 <= j < k < |curves| ==> curves[j].index < curves[k].index)
  }

  /** At every acceleration the chosen curve has values everywhere and never
      falls, if and only if the listed curves are ordered and each is compatible
      with the next. */
  lemma RisesAtEveryAccelerationIff(curves: seq<Curve>)
    requires PlausibleList(curves)
    ensures (forall acceleration, c :: acceleration >= 0.0 && Chosen(curves, acceleration, c) ==> Rises(c)) <==> Smooth(curves)
  {
    if Smooth(curves) {
      forall acceleration, c | acceleration >= 0.0 && Chosen(curves, acceleration, c) ensures Rises(c) {
        ChosenOrdered(curves, acceleration, c);
        ChosenPlausible(curves, acceleration, c);
        RisesIffOrdered(c);
      }
    }
    if forall acceleration, c :: acceleration >= 0.0 && Chosen(curves, acceleration, c) ==> Rises(c) {
      forall k: nat | k < |curves| ensures Ordered(curves[k]) {
        assert ChosenAt(curves, curves[k].index, curves[k], k);
        assert Chosen(curves, curves[k].index, curves[k]);
        RisesIffOrdered(curves[k]);
      }
      forall k: nat | k + 1 < |curves| ensures Compatible(curves[k], curves[k + 1]) {
        MustBeCompatible(curves, k, curves[k], curves[k + 1]);
      }
    }
  }

  lemma MustBeCompatible(curves: seq<Curve>, k: nat, lo: Curve, hi: Curve)
    requires PlausibleList(curves) && k + 1 < |curves| && lo == curves[k] && hi == curves[k + 1] && Ordered(lo) && Ordered(hi)
    requires forall acceleration, c :: acceleration >= 0.0 && Chosen(curves, acceleration, c) ==> Rises(c)
    ensures Compatible(lo, hi)
  {
    forall ratio | 0.0 < ratio < 1.0 ensures Ordered(Blend(lo, hi, ratio)) {
      BlendChosen(curves, k, ratio);
      BlendPlausible(lo, hi, ratio);
      RisesIffOrdered(Blend(lo, hi, ratio));
    }
    BlendsOrderedIff(lo, hi);
  }

  lemma ChosenPlausible(curves: seq<Curve>, acceleration: real, c: Curve)
    requires PlausibleList(curves) && Chosen(curves, acceleration, c)
    ensures Plausible(c)
  {
    var k: nat :| k < |curves| && ChosenAt(curves, acceleration, c, k);
    if curves[k].index < acceleration && k + 1 < |curves| {
      var ratio :| 0.0 <= ratio <= 1.0 && c == Blend(curves[k], curves[k + 1], ratio);
      BlendPlausible(curves[k], curves[k + 1], ratio);
    }
  }

  /** Every blend of neighbours is chosen at some acceleration. */
  lemma BlendChosen(curves: seq<Curve>, k: nat, ratio: real)
    requires PlausibleList(curves) && k + 1 < |curves| && 0.0 < ratio < 1.0
    ensures var c := Blend(curves[k], curves[k + 1], ratio);
      c.index >= 0.0 && Chosen(curves, c.index, c)
  {
    var lo, hi := curves[k], curves[k + 1];
    var c := Blend(lo, hi, ratio);
    MixStrict(lo.index, hi.index, ratio);
    assert IsBlend(lo, hi, c);
    forall j | k < j < |curves| ensures curves[j].index > c.index {
      assert j == k + 1 || curves[k + 1].index < curves[j].index;
    }
    assert ChosenAt(curves, c.index, c, k);
  }

  /** CreateWithParameters on a list of valid curves; None is the null result. */
  method CreateWithParameters(curves: seq<Curve>, acceleration: real) returns (a: Option<Parametric>)
    requires forall c <- curves :: c.IsValid()
    ensures a.None? <==> acceleration < 0.0 || curves == []
    ensures a.Some? ==> Chosen(curves, acceleration, a.value.curve) && a.value == Build(a.value.curve)
    ensures a.Some? && Smooth(curves) ==> Ordered(a.value.curve)
  {
    if acceleration < 0.0 {
      return None;
    }
    var currentIndex := 0;
    for index := 0 to |curves|
      invariant currentIndex < |curves| || |curves| == 0
      invariant index == 0 ==> currentIndex == 0
      invariant currentIndex <= index
      invariant currentIndex < |curves| ==> curves[currentIndex].index <= acceleration || currentIndex == 0
      invariant forall j :: currentIndex < j < index ==> curves[j].index > acceleration
    {
      if acceleration >= curves[index].index {
        currentIndex := index;
      }
    }
    if |curves| == 0 {
      return None;
    }
    var c := curves[currentIndex];
    if c.index < acceleration && currentIndex + 1 < |curves| {
      var next := curves[currentIndex + 1];
      var ratio := (acceleration - c.index) / (next.index - c.index);
      RatioBetween(c.index, next.index, acceleration);
      var blend := Blend(c, next, ratio);
      assert IsBlend(c, next, blend);
      c := blend;
    }
    assert ChosenAt(curves, acceleration, c, currentIndex);
    if Smooth(curves) {
      ChosenOrdered(curves, acceleration, c);
    }
    a := Some(Build(c));
  }

  // ------------------------------------------------------------- multiplier

  /** `r` is what multiplier returns for `value`. */
  ghost predicate Multiplier(a: Parametric, resolution: real, rate: real, value: real, r: real)
    requires resolution > 0.0 && rate > 0.0
  {
    exists y :: Means(Evaluate(a, Standardised(resolution, rate, value)), y) && r == y * CURSOR_SCALE
  }

  function Standardised(resolution: real, rate: real, value: real): real
    requires resolution > 0.0 && rate > 0.0
  {
    QuotientPositive(resolution, rate);
    value / (resolution / rate)
  }

  /** In numbers: 96 for every 67 of the curve's height at the speed in standard units. */
  lemma MultiplierInUnits(a: Parametric, resolution: real, rate: real, value: real, r: real)
    requires resolution > 0.0 && rate > 0.0
    ensures Multiplier(a, resolution, rate, value, r)
            <==> Means(Evaluate(a, value * rate / resolution), r * 67.0 / 96.0)
  {
    var s, u := Standardised(resolution, rate, value), value * rate / resolution;
    StandardisedIs(resolution, rate, value);
    assert u * resolution == value * rate;
    SameFactor(s, u, resolution);
    var y := r * 67.0 / 96.0;
    assert r == y * CURSOR_SCALE;
  }

  /** On a device of `k` times the resolution a movement counts for one `k`-th, at
      `k` times the rate for `k` times as much, so the same movement in inches per
      second gets the same result. */
  lemma StandardisedScales(resolution: real, rate: real, value: real, k: real)
    requires resolution > 0.0 && rate > 0.0 && k > 0.0
    ensures k * resolution > 0.0 && k * rate > 0.0
    ensures Standardised(resolution, rate, value) * resolution == value * rate
    ensures Standardised(k * resolution, rate, k * value) == Standardised(resolution, rate, value)
    ensures Standardised(resolution, k * rate, value) == k * Standardised(resolution, rate, value)
  {
    ProductPositive(k, resolution);
    ProductPositive(k, rate);
    StandardisedIs(resolution, rate, value);
    StandardisedIs(k * resolution, rate, k * value);
    StandardisedIs(resolution, k * rate, value);
    assert k * value * rate == k * (value * rate) && value * (k * rate) == k * (value * rate);
    assert Standardised(k * resolution, rate, k * value) * (k * resolution)
           == Standardised(k * resolution, rate, k * value) * resolution * k;
    SameFactor(Standardised(k * resolution, rate, k * value) * resolution, Standardised(resolution, rate, value) * resolution, k);
    SameFactor(Standardised(k * resolution, rate, k * value), Standardised(resolution, rate, value), resolution);
    assert k * Standardised(resolution, rate, value) * resolution == k * (Standardised(resolution, rate, value) * resolution);
    SameFactor(Standardised(resolution, k * rate, value), k * Standardised(resolution, rate, value), resolution);
  }

  lemma StandardisedIs(resolution: real, rate: real, value: real)
    requires resolution > 0.0 && rate > 0.0
    ensures Standardised(resolution, rate, value) * resolution == value * rate
  {
    QuotientPositive(resolution, rate);
    var q := resolution / rate;
    var s := value / q;
    assert q * rate == resolution && s * q == value;
    assert s * (q * rate) == s * q * rate;
  }

  lemma SameFactor(x: real, y: real, n: real)
    requires n > 0.0 && x * n == y * n
    ensures x == y
  {
    FactorOrder(x, y, n);
    FactorOrder(y, x, n);
  }

  /** A faster movement is never slowed down below a slower one, at any
      acceleration between compatible curves. */
  lemma MultiplierNondecreasing(curves: seq<Curve>, acceleration: real, c: Curve, resolution: real, rate: real,
                                v: real, w: real, r: real, s: real)
    requires Smooth(curves) && Chosen(curves, acceleration, c)
    requires resolution > 0.0 && rate > 0.0 && 0.0 <= v <= w
    requires Multiplier(Build(c), resolution, rate, v, r) && Multiplier(Build(c), resolution, rate, w, s)
    ensures r <= s
  {
    var x, z := Standardised(resolution, rate, v), Standardised(resolution, rate, w);
    QuotientPositive(resolution, rate);
    QuotientMonotone(0.0, v, resolution / rate);
    QuotientMonotone(v, w, resolution / rate);
    var y :| Means(Evaluate(Build(c), x), y) && r == y * CURSOR_SCALE;
    var y' :| Means(Evaluate(Build(c), z), y') && s == y' * CURSOR_SCALE;
    ChosenOrdered(curves, acceleration, c);
    Nondecreasing(c, x, z, y, y');
    ProductMonotone(y, y', CURSOR_SCALE);
  }
}
