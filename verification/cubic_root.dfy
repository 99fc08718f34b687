/**
 The cube-root collection `cubic_root_v0` .. `cubic_root_v10`.

 Every variant derives its tolerance from the number of characters before
 the decimal point of the printed input, then runs either a one-point
 update (Newton, Halley, Babylonian, Heron, Householder), a bracketing
 search (binary search, two bisections, Illinois regula falsi) or
 Steffensen's method until its exit test holds.  The printed form of the
 input and the context precision are parameters; each `while` loop is a
 recursion bounded by `fuel`, and running out of fuel is reported apart
 from the exits of the loop itself.
 */
module CubicRoot {
  import opened Exact

  /** How a driver ended. */
  datatype Outcome =
    | Root(x: real)        // the loop exited and returned x
    | Failed(fault: Fault) // an exception escaped the function
    | OutOfFuel            // the fuel bound was reached first

  // ---------------------------------------------------------------------
  // Tolerance
  // ---------------------------------------------------------------------

  /** `len(str(a).split(".")[0])`: the characters before the first '.', or
      the whole printed form when there is none; a sign or an exponent
      counts like a digit. */
  function LeadingDigits(repr: string): (n: nat)
    ensures n <= |repr|
    ensures forall i :: 0 <= i < n ==> repr[i] != '.'
    ensures n < |repr| ==> repr[n] == '.'
  {
    if repr == [] || repr[0] == '.' then 0 else 1 + LeadingDigits(repr[1..])
  }

  function Pow10Nat(n: nat): (p: real)
    ensures 1.0 <= p
  {
    if n == 0 then 1.0 else 10.0 * Pow10Nat(n - 1)
  }

  /** `Decimal(10) ** k` for an integer exponent. */
  function Pow10(k: int): real {
    if 0 <= k then Pow10Nat(k) else 1.0 / Pow10Nat(-k)
  }

  /** `eps = 10 ** -(prec - cln)`: positive, and at least one exactly when
      the leading characters use up the whole precision. */
  function Epsilon(prec: int, cln: nat): (eps: real)
    ensures 0.0 < eps
    ensures 1.0 <= eps <==> prec <= cln
    ensures eps * Pow10(prec - cln) == 1.0
  {
    var k := cln - prec;
    if 0 <= k then
      assert Pow10(prec - cln) == 1.0 / Pow10Nat(k);
      Pow10(k)
    else
      assert 10.0 <= Pow10Nat(-k) by { assert Pow10Nat(-k) == 10.0 * Pow10Nat(-k - 1); }
      Pow10(k)
  }

  /** The tolerance every variant computes from the printed input. */
  function Tolerance(repr: string, prec: int): (eps: real)
    ensures 0.0 < eps
    ensures 1.0 <= eps <==> prec <= LeadingDigits(repr)
  {
    Epsilon(prec, LeadingDigits(repr))
  }

  // ---------------------------------------------------------------------
  // One-point updates
  // ---------------------------------------------------------------------

  /** Newton-Raphson: `(2*x + a/(x*x)) / 3`; it moves nowhere exactly at a
      cube root. */
  function NewtonStep(a: real, x: real): (r: Result<real>)
    ensures r.Ok? <==> x != 0.0
    ensures r.Ok? ==> (r.value == x <==> Cube(x) == a)
  {
    var q :- Div(a, x * x);
    Ok((2.0 * x + q) / 3.0)
  }

  /** Halley: `x * (x^3 + 2a) / (2x^3 + a)`; besides the cube roots, 0 is
      the only point it leaves in place. */
  function HalleyStep(a: real, x: real): (r: Result<real>)
    ensures r.Ok? <==> 2.0 * Cube(x) + a != 0.0
    ensures r.Ok? ==> (r.value == x <==> x == 0.0 || Cube(x) == a)
  {
    var c := Cube(x);
    Div(x * (c + 2.0 * a), 2.0 * c + a)
  }

  /** Heron: `x - (x^3 - a) / (3x^2)`. */
  function HeronStep(a: real, x: real): (r: Result<real>)
    ensures r.Ok? <==> x != 0.0
    ensures r.Ok? ==> (r.value == x <==> Cube(x) == a)
  {
    SquarePositive(x);
    var q :- Div(Cube(x) - a, 3.0 * (x * x));
    Ok(x - q)
  }

  /** Householder of order two (Chebyshev):
      `x - f/f' - f^2 * f'' / (2 f'^3)` with f = x^3 - a.  Besides the cube
      root it has the extraneous fixed point a = 4x^3. */
  function HouseholderStep(a: real, x: real): (r: Result<real>)
    ensures r.Ok? <==> x != 0.0
    ensures r.Ok? ==> (r.value == x <==> Cube(x) == a || a == 4.0 * Cube(x))
  {
    var f := Cube(x) - a;
    var d := 3.0 * (x * x);
    SquarePositive(x);
    match Div(f, d)
    case Err(e) => Err(e)
    case Ok(q1) =>
      // the second divisor 2 * d^3 is non-zero whenever d is
      assert 0.0 < d * d * d by {
        assert 0.0 < d;
        CubeOrder(0.0, d);
      }
      var q2 := f * f * 6.0 * x / (2.0 * (d * d * d));
      HouseholderFixedPoints(a, x, f, d, q1, q2);
      Ok(x - q1 - q2)
  }

  lemma HouseholderFixedPoints(a: real, x: real, f: real, d: real, q1: real, q2: real)
    requires x != 0.0 && f == Cube(x) - a && d == 3.0 * (x * x)
    requires q1 * d == f && q2 * (2.0 * (d * d * d)) == f * f * 6.0 * x
    ensures x - q1 - q2 == x <==> Cube(x) == a || a == 4.0 * Cube(x)
  {
    var c := Cube(x);
    var k := 3.0 * c * d;
    SquarePositive(x);
    assert c != 0.0 by { CubeOrder(x, 0.0); }
    assert k != 0.0 by {
      if 0.0 < c { MulPositive(3.0 * c, d); } else { MulPositive(-3.0 * c, d); }
    }
    assert q1 * k == 3.0 * c * f;
    assert 2.0 * (d * d * d) == (6.0 * x) * k;
    assert (q2 * k) * (6.0 * x) == (f * f) * (6.0 * x);
    Cancel(q2 * k, f * f, 6.0 * x);
    HouseholderCore(c, k, f, q1, q2);
  }

  /** With q1 = 3cf/k and q2 = f^2/k the correction vanishes exactly when
      f = 0 or f = -3c. */
  lemma HouseholderCore(c: real, k: real, f: real, q1: real, q2: real)
    requires k != 0.0 && q1 * k == 3.0 * c * f && q2 * k == f * f
    ensures q1 + q2 == 0.0 <==> f == 0.0 || f == -3.0 * c
  {
    assert (q1 + q2) * k == f * (3.0 * c + f);
    if q1 + q2 == 0.0 {
      assert f * (3.0 * c + f) == 0.0;
      if f != 0.0 {
        assert (3.0 * c + f) * f == 0.0 * f;
        Cancel(3.0 * c + f, 0.0, f);
      }
    } else {
      if f == 0.0 || f == -3.0 * c {
        Cancel(q1 + q2, 0.0, k);
      }
    }
  }

  /** Newton's form and Heron's form are the same update. */
  lemma NewtonIsHeron(a: real, x: real)
    requires x != 0.0
    ensures NewtonStep(a, x) == HeronStep(a, x)
  {
    var x2 := x * x;
    SquarePositive(x);
    var n := (2.0 * x + a / x2) / 3.0;
    var h := x - (Cube(x) - a) / (3.0 * x2);
    assert (Cube(x) - a) / (3.0 * x2) == x / 3.0 - a / x2 / 3.0;
    assert n == h;
  }

  /** The Babylonian pair update of v6: `y := (2y + w)/3; w := x / y^2`;
      the new pair keeps `w * y^2 == x`. */
  function BabylonianStep(x: real, y: real, w: real): (r: Result<(real, real)>)
    ensures r.Ok? <==> 2.0 * y + w != 0.0
    ensures r.Ok? ==> r.value.0 == (2.0 * y + w) / 3.0 && r.value.0 != 0.0
    ensures r.Ok? ==> r.value.1 * (r.value.0 * r.value.0) == x
  {
    var y' := (2.0 * y + w) / 3.0;
    SquarePositive(y');
    var w' :- Div(x, y' * y');
    Ok((y', w'))
  }

  /** From `w * y^2 == x` with y != 0, w is the quotient the loop compares. */
  lemma PairQuotient(x: real, y: real, w: real)
    requires y != 0.0 && w * (y * y) == x
    ensures w == x / Square(y)
  {
    SquarePositive(y);
    assert (x / Square(y)) * Square(y) == x;
    Cancel(w, x / Square(y), Square(y));
  }

  /** The residual test v6 ends on, once a pass has run: y is non-zero and
      `x / y^2` is within eps of y. */
  predicate ResidualBelow(x: real, y: real, eps: real) {
    y != 0.0 && (SquarePositive(y); Abs(x / Square(y) - y) < eps)
  }

  /** At a cube root the Babylonian pair stays where it is. */
  lemma BabylonianFixedPoint(x: real, c: real)
    requires c != 0.0 && Cube(c) == x
    ensures BabylonianStep(x, c, c) == Ok((c, c))
  {
    var r := BabylonianStep(x, c, c);
    SquarePositive(c);
    assert r.Ok?;
    assert r.value.0 == c;
    assert r.value.1 * (c * c) == c * (c * c);
    Cancel(r.value.1, c, c * c);
  }

  // ---------------------------------------------------------------------
  // One-point drivers (v0, v1, v2, v7, v8)
  // ---------------------------------------------------------------------

  /** The loop test: `abs(xn - x0) >= eps`, or `> eps` in v2. */
  predicate Continues(x0: real, xn: real, eps: real, inclusive: bool) {
    if inclusive then Abs(xn - x0) >= eps else Abs(xn - x0) > eps
  }

  /** `while <test>: x0 = xn; xn = step(x0)`.  On exit the last two iterates
      are one update apart and pass the exit test. */
  function Iterate(step: real -> Result<real>, x0: real, xn: real, eps: real, inclusive: bool, fuel: nat): (r: Outcome)
    requires step(x0) == Ok(xn)
    ensures r.Root? ==> exists p :: step(p) == Ok(r.x) && !Continues(p, r.x, eps, inclusive)
    ensures r.Failed? ==> 0 < fuel
    decreases fuel
  {
    if !Continues(x0, xn, eps, inclusive) then Root(xn)
    else if fuel == 0 then OutOfFuel
    else
      match step(xn)
      case Err(f) => Failed(f)
      case Ok(x) => Iterate(step, xn, x, eps, inclusive, fuel - 1)
  }

  /** A fixed point of the update is returned at once. */
  lemma IterateFixedPoint(step: real -> Result<real>, c: real, eps: real, inclusive: bool, fuel: nat)
    requires step(c) == Ok(c) && 0.0 < eps
    ensures Iterate(step, c, c, eps, inclusive, fuel) == Root(c)
  {
  }

  /** Runs a one-point variant from its start value `x0`. */
  function OnePoint(step: real -> Result<real>, x0: real, eps: real, inclusive: bool, fuel: nat): (r: Outcome)
    ensures r.Root? ==> exists p :: step(p) == Ok(r.x) && !Continues(p, r.x, eps, inclusive)
    ensures step(x0).Err? ==> r == Failed(step(x0).fault)
  {
    match step(x0)
    case Err(f) => Failed(f)
    case Ok(xn) => Iterate(step, x0, xn, eps, inclusive, fuel)
  }

  /** v0, Newton-Raphson from x0 = a. */
  function CubicRootV0(a: real, repr: string, prec: int, fuel: nat): (r: Outcome)
    ensures r.Root? ==> exists p :: NewtonStep(a, p) == Ok(r.x) && Abs(r.x - p) < Tolerance(repr, prec)
    ensures a == 0.0 ==> r == Failed(InvalidOperation)
  {
    OnePoint(x => NewtonStep(a, x), a, Tolerance(repr, prec), true, fuel)
  }

  /** cubic_root_v0(1) returns 1 without a single pass of the loop. */
  lemma CubicRootV0OfOne(prec: int, fuel: nat)
    ensures CubicRootV0(1.0, "1", prec, fuel) == Root(1.0)
  {
    assert NewtonStep(1.0, 1.0) == Ok(1.0);
  }

  /** v1, Halley from x0 = a. */
  function CubicRootV1(a: real, repr: string, prec: int, fuel: nat): (r: Outcome)
    ensures r.Root? ==> exists p :: HalleyStep(a, p) == Ok(r.x) && Abs(r.x - p) < Tolerance(repr, prec)
    ensures a == 0.0 ==> r == Failed(InvalidOperation)
  {
    OnePoint(x => HalleyStep(a, x), a, Tolerance(repr, prec), true, fuel)
  }

  /** v2's start value: 1/3 for an input of 1, else (n - 1)/3; never 0. */
  function V2Start(decnum: real): (x0: real)
    ensures x0 != 0.0
    ensures decnum != 1.0 ==> 3.0 * x0 + 1.0 == decnum
  {
    if decnum == 1.0 then 1.0 / 3.0 else (decnum - 1.0) / 3.0
  }

  /** v2, Newton-Raphson from V2Start with the strict test `> eps`; since the
      start value is never 0, the first update never divides by zero. */
  function CubicRootV2(decnum: real, repr: string, prec: int, fuel: nat): (r: Outcome)
    ensures r.Root? ==> exists p :: NewtonStep(decnum, p) == Ok(r.x) && Abs(r.x - p) <= Tolerance(repr, prec)
    ensures r.Failed? ==> 0 < fuel
  {
    OnePoint(x => NewtonStep(decnum, x), V2Start(decnum), Tolerance(repr, prec), false, fuel)
  }

  /** v7, Heron from x0 = a. */
  function CubicRootV7(a: real, repr: string, prec: int, fuel: nat): (r: Outcome)
    ensures r.Root? ==> exists p :: HeronStep(a, p) == Ok(r.x) && Abs(r.x - p) < Tolerance(repr, prec)
    ensures a == 0.0 ==> r == Failed(InvalidOperation)
  {
    OnePoint(x => HeronStep(a, x), a, Tolerance(repr, prec), true, fuel)
  }

  /** v8, Householder from x0 = a. */
  function CubicRootV8(a: real, repr: string, prec: int, fuel: nat): (r: Outcome)
    ensures r.Root? ==> exists p :: HouseholderStep(a, p) == Ok(r.x) && Abs(r.x - p) < Tolerance(repr, prec)
    ensures a == 0.0 ==> r == Failed(InvalidOperation)
  {
    OnePoint(x => HouseholderStep(a, x), a, Tolerance(repr, prec), true, fuel)
  }

  /** The loop of v6: `while abs(w - y) >= eps` update the pair. */
  function BabylonianLoop(x: real, y: real, w: real, eps: real, fuel: nat): (r: Outcome)
    ensures r.Root? ==> (r.x == y && Abs(w - y) < eps) || ResidualBelow(x, r.x, eps)
    decreases fuel
  {
    if Abs(w - y) < eps then Root(y)
    else if fuel == 0 then OutOfFuel
    else
      match BabylonianStep(x, y, w)
      case Err(f) => Failed(f)
      case Ok(p) =>
        PairQuotient(x, p.0, p.1);
        BabylonianLoop(x, p.0, p.1, eps, fuel - 1)
  }

  /** v6, the Babylonian pair from y = x, w = 1: on exit the residual
      `x / y^2 - y` is below eps, or the input was within eps of 1. */
  function CubicRootV6(x: real, repr: string, prec: int, fuel: nat): (r: Outcome)
    ensures r.Root? ==> (r.x == x && Abs(1.0 - x) < Tolerance(repr, prec))
                        || ResidualBelow(x, r.x, Tolerance(repr, prec))
  {
    BabylonianLoop(x, x, 1.0, Tolerance(repr, prec), fuel)
  }

  // ---------------------------------------------------------------------
  // v3: binary search
  // ---------------------------------------------------------------------

  /** The `diff` helper: the distance between `num` and `mid^3`. */
  function Diff(num: real, mid: real): (d: real)
    ensures d == Abs(num - Cube(mid))
  {
    if num > mid * mid * mid then num - mid * mid * mid else mid * mid * mid - num
  }

  /** v3's invariant: the cube of `low` is below num, that of `high` not. */
  predicate BelowAndAtOrAbove(num: real, low: real, high: real) {
    Cube(low) < num <= Cube(high)
  }

  /** One pass of v3: the half of the interval that keeps the root. */
  function BinarySearchStep(num: real, low: real, high: real): (r: (real, real))
    ensures r.1 - r.0 == (high - low) / 2.0
    ensures BelowAndAtOrAbove(num, low, high) ==> BelowAndAtOrAbove(num, r.0, r.1)
    ensures low <= high ==> low <= r.0 <= r.1 <= high
  {
    var mid := (low + high) / 2.0;
    if Cube(mid) >= num then (low, mid) else (mid, high)
  }

  /** The bracket always has room for a strict midpoint. */
  lemma BracketMidpoint(num: real, low: real, high: real)
    ensures BelowAndAtOrAbove(num, low, high) ==> low < (low + high) / 2.0 < high
  {
    CubeOrder(low, high);
  }

  function BinarySearchLoop(num: real, eps: real, low: real, high: real, fuel: nat): (r: Outcome)
    ensures r.Root? ==> Abs(Cube(r.x) - num) <= eps
    ensures r.Root? && BelowAndAtOrAbove(num, low, high) ==> low < r.x < high
    ensures !r.Failed?
    decreases fuel
  {
    if fuel == 0 then OutOfFuel
    else
      var mid := (low + high) / 2.0;
      BracketMidpoint(num, low, high);
      if Diff(num, mid) <= eps then Root(mid)
      else
        var (lo, hi) := BinarySearchStep(num, low, high);
        BinarySearchLoop(num, eps, lo, hi, fuel - 1)
  }

  /** v3's start bracket `[0, 2]` or `[0, 2*num]` holds the root of every
      positive input. */
  function BinarySearchStart(num: real): (r: (real, real))
    ensures 0.0 < num ==> BelowAndAtOrAbove(num, r.0, r.1)
  {
    DoubledCubeAbove(num);
    (0.0, if num <= 1.0 then 2.0 else 2.0 * num)
  }

  /** The cubes of the doubled start bounds clear the input. */
  lemma DoubledCubeAbove(num: real)
    ensures 1.0 <= num ==> num < Cube(2.0 * num) && num <= Cube(num)
    ensures num < 1.0 ==> num < Cube(2.0)
  {
    if 1.0 <= num {
      assert num * num >= 1.0 by { MulPositive(num, 1.0); assert num * num >= num * 1.0; }
      assert Cube(num) == num * (num * num);
      assert Cube(2.0 * num) == 8.0 * Cube(num);
    } else {
      assert Cube(2.0) == 8.0;
    }
  }

  /** v3, binary search: it only returns a midpoint whose cube is within
      eps of num, and for a positive input that midpoint lies strictly
      inside the start bracket. */
  function CubicRootV3(num: real, repr: string, prec: int, fuel: nat): (r: Outcome)
    ensures r.Root? ==> Abs(Cube(r.x) - num) <= Tolerance(repr, prec)
    ensures r.Root? && 0.0 < num ==> 0.0 < r.x < BinarySearchStart(num).1
    ensures !r.Failed?
  {
    var (low, high) := BinarySearchStart(num);
    BinarySearchLoop(num, Tolerance(repr, prec), low, high, fuel)
  }

  // ---------------------------------------------------------------------
  // v4: bisection on f(x) = x^3 - num with the sign of f * f'
  // ---------------------------------------------------------------------

  /** v4's invariant: low^3 <= num <= high^3 on a non-empty, non-negative
      interval. */
  predicate Encloses(num: real, low: real, high: real) {
    0.0 <= low < high && Cube(low) <= num <= Cube(high)
  }

  /** One pass of v4: `low = x` when `f(x) * f'(x) < 0`, else `high = x`. */
  function BisectionStep(num: real, low: real, high: real): (r: (real, real))
    ensures r.1 - r.0 == (high - low) / 2.0
    ensures Encloses(num, low, high) ==> Encloses(num, r.0, r.1)
  {
    var x := (low + high) / 2.0;
    var fvalue := Cube(x) - num;
    var dvalue := 3.0 * (x * x);
    SignOfDerivativeProduct(x, fvalue);
    if fvalue * dvalue < 0.0 then (x, high) else (low, x)
  }

  /** For a positive x the derivative 3x^2 is positive, so only the sign
      of f decides the test `f * f' < 0`. */
  lemma SignOfDerivativeProduct(x: real, fvalue: real)
    ensures 0.0 < x ==> (fvalue * (3.0 * (x * x)) < 0.0 <==> fvalue < 0.0)
  {
    if 0.0 < x {
      var dvalue := 3.0 * (x * x);
      assert 0.0 < dvalue by { SquarePositive(x); }
      if fvalue < 0.0 { MulPositive(-fvalue, dvalue); }
      if 0.0 < fvalue { MulPositive(fvalue, dvalue); }
    }
  }

  function BisectionLoop(num: real, eps: real, low: real, high: real, fuel: nat): (r: Outcome)
    ensures r.Root? ==> 0.0 <= Cube(r.x) - num <= eps
    ensures r.Root? && Encloses(num, low, high) ==> low < r.x < high
    ensures !r.Failed?
    decreases fuel
  {
    if fuel == 0 then OutOfFuel
    else
      var x := (low + high) / 2.0;
      var fvalue := Cube(x) - num;
      var (lo, hi) := BisectionStep(num, low, high);
      if 0.0 <= fvalue <= eps then Root(x)
      else BisectionLoop(num, eps, lo, hi, fuel - 1)
  }

  /** v4's start bracket `[0, 1]` or `[0, num]`. */
  function BisectionStart(num: real): (r: (real, real))
    ensures 0.0 <= num ==> Encloses(num, r.0, r.1)
  {
    DoubledCubeAbove(num);
    if num < 1.0 then (0.0, 1.0) else (0.0, num)
  }

  /** v4, bisection: the result is a one-sided upper approximation,
      `0 <= x^3 - num <= eps`. */
  function CubicRootV4(num: real, repr: string, prec: int, fuel: nat): (r: Outcome)
    ensures r.Root? ==> 0.0 <= Cube(r.x) - num <= Tolerance(repr, prec)
    ensures r.Root? && 0.0 <= num ==> 0.0 < r.x < BisectionStart(num).1
    ensures !r.Failed?
  {
    var (low, high) := BisectionStart(num);
    BisectionLoop(num, Tolerance(repr, prec), low, high, fuel)
  }

  // ---------------------------------------------------------------------
  // v5: bisection with the midpoint test in the loop header
  // ---------------------------------------------------------------------

  /** v5's invariant: low^3 <= num < high^3. */
  predicate AtOrBelowAndAbove(num: real, low: real, high: real) {
    Cube(low) <= num < Cube(high)
  }

  function HalvingStep(num: real, low: real, high: real): (r: (real, real))
    ensures r.1 - r.0 == (high - low) / 2.0
    ensures AtOrBelowAndAbove(num, low, high) ==> AtOrBelowAndAbove(num, r.0, r.1)
  {
    var mid := (low + high) / 2.0;
    if Cube(mid) <= num then (mid, high) else (low, mid)
  }

  function HalvingLoop(num: real, eps: real, low: real, high: real, fuel: nat): (r: Outcome)
    ensures r.Root? ==> Abs(Cube(r.x) - num) < eps
    ensures r.Root? && AtOrBelowAndAbove(num, low, high) ==> low < r.x < high
    ensures !r.Failed?
    decreases fuel
  {
    var mid := (low + high) / 2.0;
    CubeOrder(low, high);
    if Abs(Cube(mid) - num) < eps then Root(mid)
    else if fuel == 0 then OutOfFuel
    else
      var (lo, hi) := HalvingStep(num, low, high);
      HalvingLoop(num, eps, lo, hi, fuel - 1)
  }

  /** v5's start bracket `[0, 2]` or `[0, 2*num]`. */
  function HalvingStart(num: real): (r: (real, real))
    ensures 0.0 <= num ==> AtOrBelowAndAbove(num, r.0, r.1)
  {
    DoubledCubeAbove(num);
    if num < 1.0 then (0.0, 2.0) else (0.0, 2.0 * num)
  }

  /** v5: the returned midpoint has `|mid^3 - num| < eps`. */
  function CubicRootV5(num: real, repr: string, prec: int, fuel: nat): (r: Outcome)
    ensures r.Root? ==> Abs(Cube(r.x) - num) < Tolerance(repr, prec)
    ensures r.Root? && 0.0 <= num ==> 0.0 < r.x < HalvingStart(num).1
    ensures !r.Failed?
  {
    var (low, high) := HalvingStart(num);
    HalvingLoop(num, Tolerance(repr, prec), low, high, fuel)
  }

  // ---------------------------------------------------------------------
  // v9: Illinois regula falsi
  // ---------------------------------------------------------------------

  /** The loop state of v9: the endpoints, their (possibly halved) function
      values and the side that moved last. */
  datatype Falsi = Falsi(a: real, b: real, fa: real, fb: real, side: int)

  /** v9's invariant for a positive input: a < b, the stored values and the
      true values of f(x) = x^3 - num are negative at a and positive at b. */
  predicate Straddles(num: real, s: Falsi) {
    && SignChange(s)
    && Cube(s.a) < num < Cube(s.b)
    && -1 <= s.side <= 1
  }

  /** The part of the invariant the secant point needs. */
  predicate SignChange(s: Falsi) {
    s.a < s.b && s.fa < 0.0 < s.fb
  }

  /** `a, b = -2*num, 2*num` with their function values and side 0. */
  function FalsiStart(num: real): (s: Falsi)
    ensures 0.0 < num && 8.0 * num * num > 1.0 ==> Straddles(num, s)
  {
    var a, b := -2.0 * num, 2.0 * num;
    StartValueSigns(num);
    Falsi(a, b, Cube(a) - num, Cube(b) - num, 0)
  }

  /** f(-2n) = -n(8n^2 + 1) and f(2n) = n(8n^2 - 1). */
  lemma StartValueSigns(num: real)
    ensures Cube(-2.0 * num) - num == -num * (8.0 * num * num + 1.0)
    ensures Cube(2.0 * num) - num == num * (8.0 * num * num - 1.0)
    ensures 0.0 < num ==> Cube(-2.0 * num) - num < 0.0
    ensures 0.0 < num && 8.0 * num * num > 1.0 ==> 0.0 < Cube(2.0 * num) - num
    ensures 0.0 < num && 8.0 * num * num < 1.0 ==> Cube(2.0 * num) - num < 0.0
  {
    if 0.0 < num {
      MulPositive(num, 8.0 * num * num + 1.0);
      if 8.0 * num * num > 1.0 { MulPositive(num, 8.0 * num * num - 1.0); }
      if 8.0 * num * num < 1.0 { MulPositive(num, 1.0 - 8.0 * num * num); }
    }
  }

  /** For 0 < num <= sqrt(1/8) both start values are non-positive: there is
      no sign change to bracket. */
  lemma FalsiStartWithoutBracket(num: real)
    requires 0.0 < num && 8.0 * num * num <= 1.0
    ensures FalsiStart(num).fa < 0.0 && FalsiStart(num).fb <= 0.0
  {
    StartValueSigns(num);
  }

  /** The secant point `(fa*b - fb*a) / (fa - fb)`. */
  function FalsiPoint(s: Falsi): Result<real> {
    Div(s.fa * s.b - s.fb * s.a, s.fa - s.fb)
  }

  /** Inside a straddling bracket the secant point exists and lies strictly
      between the endpoints. */
  lemma FalsiPointInside(s: Falsi)
    requires SignChange(s)
    ensures FalsiPoint(s).Ok?
    ensures s.a < FalsiPoint(s).value < s.b
  {
    var r := FalsiPoint(s);
    assert r.Ok? && r.value * (s.fa - s.fb) == s.fa * s.b - s.fb * s.a;
    SecantInside(s.a, s.b, s.fa, s.fb, r.value);
  }

  lemma SecantInside(a: real, b: real, fa: real, fb: real, c: real)
    requires a < b && fa < 0.0 < fb
    requires c * (fa - fb) == fa * b - fb * a
    ensures a < c < b
  {
    var den := fa - fb;
    assert c * fa - c * fb == fa * b - fb * a;
    assert (c - a) * den == fa * (b - a);
    assert (b - c) * den == -fb * (b - a);
    MulPositive(-fa, b - a);
    MulPositive(fb, b - a);
    SignFromProduct(c - a, den);
    SignFromProduct(b - c, den);
  }

  /** Where the pass leaves the state: moved to a new bracket, or settled
      by the final `else: break`. */
  datatype FalsiMove = Moved(next: Falsi) | Settled

  /** One pass after the width test, with the Illinois halving of the
      stale endpoint's value. */
  function FalsiUpdate(num: real, s: Falsi, c: real): FalsiMove {
    var fc := Cube(c) - num;
    if fc * s.fb > 0.0 then
      Moved(Falsi(s.a, c, if s.side == -1 then s.fa / 2.0 else s.fa, fc, -1))
    else if s.fa * fc > 0.0 then
      Moved(Falsi(c, s.b, fc, if s.side == 1 then s.fb / 2.0 else s.fb, 1))
    else Settled
  }

  /** Every move keeps the bracket, the signs and the side in {-1, 0, 1},
      and the loop settles only on an exact root. */
  lemma FalsiUpdateKeepsBracket(num: real, s: Falsi, c: real)
    requires Straddles(num, s) && s.a < c < s.b
    ensures FalsiUpdate(num, s, c).Moved? ==> Straddles(num, FalsiUpdate(num, s, c).next)
    ensures FalsiUpdate(num, s, c).Settled? <==> Cube(c) == num
  {
    var fc := Cube(c) - num;
    if 0.0 < fc { MulPositive(fc, s.fb); }
    if fc < 0.0 { MulPositive(-s.fa, -fc); }
    if fc == 0.0 {
      assert fc * s.fb == 0.0 && s.fa * fc == 0.0;
    } else if fc > 0.0 {
      assert fc * s.fb > 0.0;
    } else {
      assert !(fc * s.fb > 0.0) by { MulPositive(-fc, s.fb); }
      assert s.fa * fc > 0.0;
    }
  }

  /** The facts one pass of the loop relies on. */
  lemma FalsiPass(num: real, s: Falsi)
    requires FalsiPoint(s).Ok?
    ensures Straddles(num, s) ==> s.a < FalsiPoint(s).value < s.b
    ensures Straddles(num, s) && FalsiUpdate(num, s, FalsiPoint(s).value).Moved? ==>
              Straddles(num, FalsiUpdate(num, s, FalsiPoint(s).value).next)
    ensures Straddles(num, s) ==>
              (FalsiUpdate(num, s, FalsiPoint(s).value).Settled? <==> Cube(FalsiPoint(s).value) == num)
  {
    if Straddles(num, s) {
      FalsiPointInside(s);
      FalsiUpdateKeepsBracket(num, s, FalsiPoint(s).value);
    }
  }

  /** A bracket of relative width below eps around num's cube root. */
  ghost predicate NarrowBracketAround(num: real, x: real, eps: real) {
    exists a, b :: a < x < b && Cube(a) < num < Cube(b) && Abs(b - a) < eps * Abs(b + a)
  }

  lemma NarrowWitness(num: real, s: Falsi, c: real, eps: real)
    requires s.a < c < s.b || !Straddles(num, s)
    ensures Straddles(num, s) && Abs(s.b - s.a) < eps * Abs(s.b + s.a) ==> NarrowBracketAround(num, c, eps)
  {
    if Straddles(num, s) && Abs(s.b - s.a) < eps * Abs(s.b + s.a) {
      assert s.a < c < s.b && Cube(s.a) < num < Cube(s.b);
    }
  }

  function FalsiLoop(num: real, eps: real, s: Falsi, fuel: nat): (r: Outcome)
    ensures Straddles(num, s) ==> !r.Failed?
    ensures Straddles(num, s) && r.Root? ==> Cube(r.x) == num || NarrowBracketAround(num, r.x, eps)
    decreases fuel
  {
    if fuel == 0 then OutOfFuel
    else
      match FalsiPoint(s)
      case Err(f) => Failed(f)
      case Ok(c) =>
        FalsiPass(num, s);
        if Abs(s.b - s.a) < eps * Abs(s.b + s.a) then
          NarrowWitness(num, s, c, eps);
          Root(c)
        else
          match FalsiUpdate(num, s, c)
          case Settled => Root(c)
          case Moved(next) => FalsiLoop(num, eps, next, fuel - 1)
  }

  /** v9, Illinois regula falsi on `[-2*num, 2*num]`.  For 8*num^2 > 1 no
      exception escapes, and the returned point is an exact root or sits in
      a bracket whose relative width passed the exit test. */
  function CubicRootV9(num: real, repr: string, prec: int, fuel: nat): (r: Outcome)
    ensures 0.0 < num && 8.0 * num * num > 1.0 ==> !r.Failed?
    ensures 0.0 < num && 8.0 * num * num > 1.0 && r.Root? ==>
              Cube(r.x) == num || NarrowBracketAround(num, r.x, Tolerance(repr, prec))
  {
    FalsiLoop(num, Tolerance(repr, prec), FalsiStart(num), fuel)
  }

  /** For 0 every start value is 0 and the first secant point is 0/0. */
  lemma CubicRootV9OfZero(repr: string, prec: int, fuel: nat)
    requires 0 < fuel
    ensures CubicRootV9(0.0, repr, prec, fuel) == Failed(InvalidOperation)
  {
    var s := Falsi(0.0, 0.0, 0.0, 0.0, 0);
    assert FalsiStart(0.0) == s by { assert Cube(0.0) == 0.0; }
    assert FalsiPoint(s) == Err(InvalidOperation) by { assert Div(0.0, 0.0) == Err(InvalidOperation); }
    assert FalsiLoop(0.0, Tolerance(repr, prec), s, fuel) == Failed(InvalidOperation);
  }

  // ---------------------------------------------------------------------
  // v10: Steffensen
  // ---------------------------------------------------------------------

  /** `p1 = p0 + f(p0); p2 = p1 + f(p1); p = p2 - (p2-p1)^2/(p2 - 2p1 + p0)`.
      The denominator equals f(p1) - f(p0), which vanishes only at an exact
      cube root p0, and there the numerator vanishes too: the update fails
      exactly at a root, and always with the 0/0 InvalidOperation. */
  function SteffensenUpdate(a: real, p0: real): (r: Result<real>)
    ensures r.Err? <==> Cube(p0) == a
    ensures r.Err? ==> r.fault == InvalidOperation
  {
    var p1 := p0 + (Cube(p0) - a);
    var p2 := p1 + (Cube(p1) - a);
    assert p2 - 2.0 * p1 + p0 == (Cube(p1) - a) - (Cube(p0) - a);
    CubeOrder(p0, p1);
    var q :- Div((p2 - p1) * (p2 - p1), p2 - 2.0 * p1 + p0);
    Ok(p2 - q)
  }

  /** The loop of v10.  `bound` tells whether `p` has been assigned; when it
      has, it holds the current `p0`.  InvalidOperation is caught and ends
      the loop; an unassigned `p` then fails at the final `p = +p`. */
  function SteffensenLoop(a: real, eps: real, p0: real, bound: bool, fuel: nat): (r: Outcome)
    ensures r.Root? ==> Cube(r.x) == a || exists q :: SteffensenUpdate(a, q) == Ok(r.x) && Abs(r.x - q) < eps
    ensures r.Failed? ==> r.fault == UnboundLocal && !bound
    decreases fuel
  {
    if fuel == 0 then OutOfFuel
    else
      match SteffensenUpdate(a, p0)
      case Err(_) => if bound then Root(p0) else Failed(UnboundLocal)
      case Ok(p) =>
        if Abs(p - p0) < eps then Root(p)
        else SteffensenLoop(a, eps, p, true, fuel - 1)
  }

  /** v10, Steffensen from p0 = 1/2.  A result is either an exact cube root
      (the caught 0/0) or an update that moved less than eps; the
      DivisionByZero that is not caught can never occur. */
  function CubicRootV10(a: real, repr: string, prec: int, fuel: nat): (r: Outcome)
    ensures r.Root? ==> Cube(r.x) == a
                        || exists q :: SteffensenUpdate(a, q) == Ok(r.x) && Abs(r.x - q) < Tolerance(repr, prec)
    ensures r.Failed? ==> r.fault == UnboundLocal
    ensures a == 1.0 / 8.0 && 0 < fuel ==> r == Failed(UnboundLocal)
  {
    assert Cube(0.5) == 1.0 / 8.0;
    SteffensenLoop(a, Tolerance(repr, prec), 0.5, false, fuel)
  }
}
