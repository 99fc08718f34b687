/**
 The doubling recurrences behind the Archimedes scripts.

 A `Bracket` holds an upper and a lower bound: the half perimeters of the
 circumscribed and the inscribed regular polygon (or their areas in the
 Gregory script).  Each pass doubles the number of edges; the scripts run
 it with a `for i in range(0, iteration + 1)` loop whose pass 0 copies the
 start values unchanged.
 */
module Recurrence {
  import opened Exact

  datatype Bracket = Bracket(upper: real, lower: real) {
    /** Both bounds positive, the lower one not above the upper one. */
    predicate Ordered() {
      0.0 < lower <= upper
    }

    /** This bracket lies inside `outer`. */
    predicate Within(outer: Bracket) {
      outer.lower <= lower && upper <= outer.upper
    }
  }

  // ---------------------------------------------------------------------
  // The two means a pass is made of
  // ---------------------------------------------------------------------

  /** The harmonic mean h of a and b (h * (a + b) == 2ab) lies between
      them. */
  lemma HarmonicBetween(a: real, b: real, h: real)
    requires 0.0 < b <= a && h * (a + b) == 2.0 * a * b
    ensures b <= h <= a
  {
    assert (a - h) * (a + b) == a * (a - b);
    assert (h - b) * (a + b) == b * (a - b);
    MulNonNegative(a, a - b);
    MulNonNegative(b, a - b);
    NonNegativeFactor(a - h, a + b);
    NonNegativeFactor(h - b, a + b);
  }

  /** The geometric mean of b and a lies between them. */
  lemma GeometricBetween(rt: Roots, a: real, b: real)
    requires rt.Valid() && 0.0 < b <= a
    ensures b <= rt.sqrt(b * a) <= a
    ensures b <= rt.sqrt(a * b) <= a
  {
    MulPositive(b, a);
    assert a * b == b * a;
    var g := rt.sqrt(b * a);
    assert 0.0 <= g && g * g == b * a;
    SquareRootBetween(a, b, g);
  }

  /** A non-negative g with g^2 = ab lies between b and a. */
  lemma SquareRootBetween(a: real, b: real, g: real)
    requires 0.0 < b <= a && 0.0 <= g && g * g == b * a
    ensures b <= g <= a
  {
    MulNonNegative(b, a - b);
    MulNonNegative(a, a - b);
    if g < b {
      SquareLess(g, b);
    }
    if a < g {
      SquareLess(a, g);
    }
  }

  /** The pass of the perimeter scripts: `a1 = 2*a0*b0/(a0 + b0)`, the
      harmonic mean, then `b1 = sqrt(b0*a1)`, the geometric mean of the old
      lower and the new upper bound.  An ordered bracket stays ordered and
      the new bracket lies inside the old one. */
  function HarmonicGeometric(rt: Roots, p: Bracket): (r: Result<Bracket>)
    requires rt.Valid()
    ensures p.Ordered() ==> r.Ok? && r.value.Ordered() && r.value.Within(p)
    ensures r.Ok? ==> r.value.upper * (p.upper + p.lower) == 2.0 * p.upper * p.lower
    ensures r.Ok? ==> 0.0 <= r.value.lower && r.value.lower * r.value.lower == p.lower * r.value.upper
  {
    match Div(2.0 * p.upper * p.lower, p.upper + p.lower)
    case Err(f) => Err(f)
    case Ok(_) =>
      var a1 := 2.0 * p.upper * p.lower / (p.upper + p.lower);
      HarmonicThenGeometric(rt, p, a1);
      match Sqrt(rt, p.lower * a1)
      case Err(f) => Err(f)
      case Ok(_) => Ok(Bracket(a1, rt.sqrt(p.lower * a1)))
  }

  /** The bracket one perimeter pass makes from an ordered one, given its
      harmonic mean h. */
  lemma HarmonicThenGeometric(rt: Roots, p: Bracket, h: real)
    requires rt.Valid() && h * (p.upper + p.lower) == 2.0 * p.upper * p.lower
    ensures p.Ordered() ==> 0.0 <= p.lower * h
    ensures p.Ordered() ==> Bracket(h, rt.sqrt(p.lower * h)).Ordered()
    ensures p.Ordered() ==> Bracket(h, rt.sqrt(p.lower * h)).Within(p)
  {
    if p.Ordered() {
      HarmonicBetween(p.upper, p.lower, h);
      GeometricStep(rt, p, h);
    }
  }

  /** The geometric half of a pass, for an upper bound h already inside p. */
  lemma GeometricStep(rt: Roots, p: Bracket, h: real)
    requires rt.Valid() && p.Ordered() && p.lower <= h <= p.upper
    ensures 0.0 <= p.lower * h
    ensures Bracket(h, rt.sqrt(p.lower * h)).Ordered()
    ensures Bracket(h, rt.sqrt(p.lower * h)).Within(p)
  {
    GeometricBetween(rt, h, p.lower);
    MulPositive(p.lower, h);
  }

  /** Gregory's pass over the polygon areas, in the reverse order:
      `b1 = sqrt(a0*b0)` first, then `a1 = 2*a0*b1/(a0 + b1)` with the new
      lower bound. */
  function GeometricHarmonic(rt: Roots, p: Bracket): (r: Result<Bracket>)
    requires rt.Valid()
    ensures p.Ordered() ==> r.Ok? && r.value.Ordered() && r.value.Within(p)
    ensures r.Ok? ==> 0.0 <= r.value.lower && r.value.lower * r.value.lower == p.upper * p.lower
    ensures r.Ok? ==> r.value.upper * (p.upper + r.value.lower) == 2.0 * p.upper * r.value.lower
  {
    GeometricInside(rt, p);
    match Sqrt(rt, p.upper * p.lower)
    case Err(f) => Err(f)
    case Ok(b1) =>
      match Div(2.0 * p.upper * b1, p.upper + b1)
      case Err(f) => Err(f)
      case Ok(a1) =>
        HarmonicSecond(p, b1, a1);
        Ok(Bracket(a1, b1))
  }

  /** The geometric mean of an ordered bracket lies inside it. */
  lemma GeometricInside(rt: Roots, p: Bracket)
    requires rt.Valid()
    ensures p.Ordered() ==> p.lower <= rt.sqrt(p.upper * p.lower) <= p.upper
  {
    if p.Ordered() {
      GeometricOfOrdered(rt, p);
    }
  }

  lemma GeometricOfOrdered(rt: Roots, p: Bracket)
    requires rt.Valid() && p.Ordered()
    ensures p.lower <= rt.sqrt(p.upper * p.lower) <= p.upper
  {
    GeometricBetween(rt, p.upper, p.lower);
  }

  /** The harmonic mean of the upper bound and a g inside the bracket lies
      between g and the upper bound. */
  lemma HarmonicSecond(p: Bracket, g: real, h: real)
    requires h * (p.upper + g) == 2.0 * p.upper * g
    ensures p.Ordered() && p.lower <= g <= p.upper ==>
      Bracket(h, g).Ordered() && Bracket(h, g).Within(p)
  {
    if p.Ordered() && p.lower <= g <= p.upper {
      HarmonicBetween(p.upper, g, h);
    }
  }

  // ---------------------------------------------------------------------
  // The doubling loop
  // ---------------------------------------------------------------------

  /** Which of the two passes a script runs. */
  datatype Order =
    | HarmonicFirst   // the perimeter scripts: a1 from a0 and b0, then b1 from b0 and a1
    | GeometricFirst  // Gregory's area script: b1 from a0 and b0, then a1 from a0 and b1

  function Pass(rt: Roots, order: Order, p: Bracket): (r: Result<Bracket>)
    requires rt.Valid()
    ensures p.Ordered() ==> r.Ok? && r.value.Ordered() && r.value.Within(p)
    ensures r.Err? ==> r.fault == DivisionByZero || r.fault == InvalidOperation
  {
    match order
    case HarmonicFirst => HarmonicGeometric(rt, p)
    case GeometricFirst => GeometricHarmonic(rt, p)
  }

  /** The reference: n passes applied one after the other. */
  function Steps(rt: Roots, order: Order, p: Bracket, n: nat): (r: Result<Bracket>)
    requires rt.Valid()
    ensures p.Ordered() ==> r.Ok? && r.value.Ordered() && r.value.Within(p)
    ensures r.Err? ==> r.fault == DivisionByZero || r.fault == InvalidOperation
    decreases n
  {
    if n == 0 then Ok(p)
    else
      match Pass(rt, order, p)
      case Err(f) => Err(f)
      case Ok(q) => Steps(rt, order, q, n - 1)
  }

  /** Passes i, i+1, ..., stop-1 of `for i in range(0, iteration + 1)`:
      pass 0 copies the bracket, every later pass doubles the edges. */
  function Loop(rt: Roots, order: Order, p: Bracket, i: nat, stop: int): Result<Bracket>
    requires rt.Valid()
    decreases stop - i
  {
    if stop <= i then Ok(p)
    else
      match (if i == 0 then Ok(p) else Pass(rt, order, p))
      case Err(f) => Err(f)
      case Ok(q) => Loop(rt, order, q, i + 1, stop)
  }

  /** The bracket `(a1, b1)` after the loop; with a negative iteration count
      the loop body never runs and `a1` is read unbound. */
  function Run(rt: Roots, order: Order, p: Bracket, iteration: int): (r: Result<Bracket>)
    requires rt.Valid()
    ensures iteration < 0 <==> r == Err(UnboundLocal)
    ensures 0 <= iteration ==> r == Steps(rt, order, p, iteration)
    ensures 0 <= iteration && p.Ordered() ==> r.Ok? && r.value.Ordered() && r.value.Within(p)
  {
    if iteration < 0 then Err(UnboundLocal)
    else
      LoopIsSteps(rt, order, p, 1, iteration + 1);
      Loop(rt, order, p, 0, iteration + 1)
  }

  /** From pass 1 on, the loop performs exactly one pass per index. */
  lemma {:induction false} LoopIsSteps(rt: Roots, order: Order, p: Bracket, i: nat, stop: int)
    requires rt.Valid() && 1 <= i <= stop
    ensures Loop(rt, order, p, i, stop) == Steps(rt, order, p, stop - i)
    decreases stop - i
  {
    if i < stop {
      match Pass(rt, order, p)
      case Err(f) =>
      case Ok(q) => LoopIsSteps(rt, order, q, i + 1, stop);
    }
  }

  // ---------------------------------------------------------------------
  // Doerrie's refinement of a bracket
  // ---------------------------------------------------------------------

  /** `b3 = 3*a1*b1/(2*a1 + b1)` and `a3 = (a1*b1**2)**(1/3)`: a tighter
      lower and upper bound computed from the bracket, which for an ordered
      bracket lie inside it and in the right order. */
  function Refine(rt: Roots, p: Bracket): (r: Result<Bracket>)
    requires rt.Valid()
    ensures p.Ordered() ==> r.Ok? && r.value.Ordered() && r.value.Within(p)
    ensures r.Ok? ==> r.value.lower * (2.0 * p.upper + p.lower) == 3.0 * p.upper * p.lower
    ensures r.Ok? ==> 0.0 <= r.value.upper && Cube(r.value.upper) == p.upper * (p.lower * p.lower)
  {
    var q, c := HarmonicBound(p.upper, p.lower), CubeRootBound(rt, p.upper, p.lower);
    PairOrder(p, q, c);
    Pair(q, c)
  }

  /** `b3 = D(3*a1*b1)/D(2*a1 + b1)`: the quotient h with h (2a+b) = 3ab,
      trapping when 2a+b is zero. */
  function HarmonicBound(a: real, b: real): (q: Result<real>)
    ensures q.Ok? <==> 2.0 * a + b != 0.0
    ensures q.Ok? ==> q.value * (2.0 * a + b) == 3.0 * a * b
    ensures q.Err? ==> q.fault == DivisionByZero || q.fault == InvalidOperation
  {
    Div(3.0 * a * b, 2.0 * a + b)
  }

  /** `a3 = D(a1 * b1**2)**(D(1)/D(3))`: the non-negative cube root of
      ab^2, trapping when ab^2 is negative. */
  function CubeRootBound(rt: Roots, a: real, b: real): (c: Result<real>)
    requires rt.Valid()
    ensures c.Ok? <==> 0.0 <= a * (b * b)
    ensures c.Ok? ==> 0.0 <= c.value && Cube(c.value) == a * (b * b)
    ensures c.Err? ==> c.fault == InvalidOperation
  {
    Cbrt(rt, a * (b * b))
  }

  /** The radicand ab^2 is non-negative and the denominator 2a+b positive
      on an ordered bracket, so neither bound traps there. */
  lemma CubeRadicand(a: real, b: real)
    ensures 0.0 < b <= a ==> 0.0 <= a * (b * b) && 0.0 < 2.0 * a + b
  {
    if 0.0 < b <= a {
      MulNonNegative(b, b);
      MulNonNegative(a, b * b);
    }
  }

  /** The refined bracket from the quotient and the cube root, the
      quotient's fault taking precedence as it is computed first. */
  function Pair(q: Result<real>, c: Result<real>): Result<Bracket> {
    match q
    case Err(f) => Err(f)
    case Ok(h) =>
      match c
      case Err(f) => Err(f)
      case Ok(g) => Ok(Bracket(g, h))
  }

  /** The bounds of Refine, for any quotient and cube root that satisfy
      their defining equations. */
  lemma PairOrder(p: Bracket, q: Result<real>, c: Result<real>)
    requires q.Ok? <==> 2.0 * p.upper + p.lower != 0.0
    requires q.Ok? ==> q.value * (2.0 * p.upper + p.lower) == 3.0 * p.upper * p.lower
    requires c.Ok? <==> 0.0 <= p.upper * (p.lower * p.lower)
    requires c.Ok? ==> 0.0 <= c.value && Cube(c.value) == p.upper * (p.lower * p.lower)
    ensures p.Ordered() ==> Pair(q, c).Ok? && Pair(q, c).value.Ordered() && Pair(q, c).value.Within(p)
    ensures Pair(q, c).Ok? ==> Pair(q, c).value.lower * (2.0 * p.upper + p.lower) == 3.0 * p.upper * p.lower
    ensures Pair(q, c).Ok? ==> 0.0 <= Pair(q, c).value.upper && Cube(Pair(q, c).value.upper) == p.upper * (p.lower * p.lower)
  {
    CubeRadicand(p.upper, p.lower);
    if q.Ok? && c.Ok? {
      RefinedOrder(p.upper, p.lower, q.value, c.value);
    }
  }

  /** Past its two traps the refinement is the pair of the cube root and
      the harmonic-type quotient. */
  lemma RefineValue(rt: Roots, p: Bracket)
    requires rt.Valid() && 2.0 * p.upper + p.lower != 0.0 && 0.0 <= p.upper * (p.lower * p.lower)
    ensures Refine(rt, p) == Ok(Bracket(rt.cbrt(p.upper * (p.lower * p.lower)),
                                        3.0 * p.upper * p.lower / (2.0 * p.upper + p.lower)))
  {
    HarmonicBoundValue(p.upper, p.lower);
    CubeRootBoundValue(rt, p.upper, p.lower);
    PairOfOk(HarmonicBound(p.upper, p.lower), CubeRootBound(rt, p.upper, p.lower),
             3.0 * p.upper * p.lower / (2.0 * p.upper + p.lower), rt.cbrt(p.upper * (p.lower * p.lower)));
  }

  /** The two components of a pair of results that did not trap. */
  lemma PairOfOk(q: Result<real>, c: Result<real>, h: real, g: real)
    requires q == Ok(h) && c == Ok(g)
    ensures Pair(q, c) == Ok(Bracket(g, h))
  {
  }

  lemma HarmonicBoundValue(a: real, b: real)
    requires 2.0 * a + b != 0.0
    ensures HarmonicBound(a, b) == Ok(3.0 * a * b / (2.0 * a + b))
  {
    DivValue(3.0 * a * b, 2.0 * a + b);
  }

  lemma CubeRootBoundValue(rt: Roots, a: real, b: real)
    requires rt.Valid() && 0.0 <= a * (b * b)
    ensures CubeRootBound(rt, a, b) == Ok(rt.cbrt(a * (b * b)))
  {
  }

  /** For an ordered bracket: b <= 3ab/(2a+b) <= cbrt(ab^2) <= a. */
  lemma RefinedOrder(a: real, b: real, h: real, g: real)
    requires h * (2.0 * a + b) == 3.0 * a * b
    requires 0.0 <= g && Cube(g) == a * (b * b)
    ensures 0.0 < b <= a ==> b <= h <= g <= a
  {
    if 0.0 < b <= a {
      RefinedLowerAbove(a, b, h);
      RefinedUpperBelow(a, b, g);
      HarmonicCubeBelow(a, b, h);
      CubeOrder(h, g);
    }
  }

  /** 3ab/(2a+b) >= b. */
  lemma RefinedLowerAbove(a: real, b: real, h: real)
    requires 0.0 < b <= a && h * (2.0 * a + b) == 3.0 * a * b
    ensures b <= h
  {
    assert (h - b) * (2.0 * a + b) == b * (a - b);
    MulNonNegative(b, a - b);
    NonNegativeFactor(h - b, 2.0 * a + b);
  }

  /** cbrt(ab^2) <= a. */
  lemma RefinedUpperBelow(a: real, b: real, g: real)
    requires 0.0 < b <= a && Cube(g) == a * (b * b)
    ensures g <= a
  {
    if b < a {
      SquareLess(b, a);
    }
    assert b * b <= a * a;
    MulNonNegative(a, a * a - b * b);
    assert Cube(g) <= Cube(a);
    CubeOrder(a, g);
  }

  /** (3ab/(2a+b))^3 <= ab^2. */
  lemma HarmonicCubeBelow(a: real, b: real, h: real)
    requires 0.0 < b <= a && h * (2.0 * a + b) == 3.0 * a * b
    ensures Cube(h) <= a * (b * b)
  {
    HarmonicCubeBelowSum(a, b, h, 2.0 * a + b);
  }

  /** The same with the denominator s = 2a+b named. */
  lemma HarmonicCubeBelowSum(a: real, b: real, h: real, s: real)
    requires 0.0 < b <= a && s == 2.0 * a + b && h * s == 3.0 * a * b
    ensures Cube(h) <= a * (b * b)
  {
    CubeOfQuotient(a, b, h, s);
    DoerrieExcess(a, b, s);
    CubeStrictlyIncreasing(0.0, s);
    ScaledBelow(a * (b * b), Cube(h), Cube(s), 27.0 * Cube(a) * Cube(b));
  }

  /** ab^2 (2a+b)^3 - 27 a^3 b^3 >= 0, because
      (2a+b)^3 - 27a^2b = (a-b)^2 (8a+b). */
  lemma DoerrieExcess(a: real, b: real, s: real)
    requires 0.0 < b <= a && s == 2.0 * a + b
    ensures 0.0 <= a * (b * b) * Cube(s) - 27.0 * Cube(a) * Cube(b)
  {
    var m := a * (b * b);
    ExcessFactors(a, b, Cube(s));
    DoerrieIdentity(a, b);
    var q := (a - b) * (a - b);
    SquareNonNegative(a - b);
    MulNonNegative(q, 8.0 * a + b);
    MulNonNegative(b, b);
    MulNonNegative(a, b * b);
    MulNonNegative(m, q * (8.0 * a + b));
  }

  lemma CubeOfQuotient(a: real, b: real, h: real, s: real)
    requires h * s == 3.0 * a * b
    ensures Cube(h) * Cube(s) == 27.0 * Cube(a) * Cube(b)
  {
    CubeOfProduct(h, s);
    CubeOfProduct(3.0 * a, b);
    CubeOfProduct(3.0, a);
  }

  lemma ExcessFactors(a: real, b: real, t: real)
    ensures a * (b * b) * t - 27.0 * Cube(a) * Cube(b) == a * (b * b) * (t - 27.0 * a * a * b)
  {
  }

  /** c <= m from c*t = k, m*t - k >= 0 and t > 0. */
  lemma ScaledBelow(m: real, c: real, t: real, k: real)
    ensures 0.0 < t && c * t == k && 0.0 <= m * t - k ==> c <= m
  {
    if 0.0 < t && c * t == k && 0.0 <= m * t - k {
      assert (m - c) * t == m * t - k;
      NonNegativeFactor(m - c, t);
    }
  }

  lemma CubeOfProduct(x: real, y: real)
    ensures Cube(x * y) == Cube(x) * Cube(y)
  {
  }

  lemma DoerrieIdentity(a: real, b: real)
    ensures Cube(2.0 * a + b) - 27.0 * a * a * b == (a - b) * (a - b) * (8.0 * a + b)
  {
  }

  // ---------------------------------------------------------------------
  // The refined loop and the start values
  // ---------------------------------------------------------------------

  /** The loop of the refined perimeter scripts: after the pass of index i
      the refinement of the new bracket is computed, and the refinement of
      the last pass is the one the closing mean reads.  The result pairs the
      last bracket `(a1, b1)` with its refinement `(a3, b3)`. */
  function RefinedLoop(rt: Roots, p: Bracket, i: nat, stop: int): Result<(Bracket, Bracket)>
    requires rt.Valid() && i < stop
    decreases stop - i
  {
    match (if i == 0 then Ok(p) else HarmonicGeometric(rt, p))
    case Err(f) => Err(f)
    case Ok(q) =>
      match Refine(rt, q)
      case Err(f) => Err(f)
      case Ok(t) => if i + 1 == stop then Ok((q, t)) else RefinedLoop(rt, q, i + 1, stop)
  }

  /** The refined loop for `range(0, iteration + 1)`.  From an ordered start
      it ends on the bracket of `iteration` passes and its refinement. */
  function RefinedRun(rt: Roots, p: Bracket, iteration: int): (r: Result<(Bracket, Bracket)>)
    requires rt.Valid()
    ensures iteration < 0 <==> r == Err(UnboundLocal)
    ensures 0 <= iteration && p.Ordered() ==>
      && r.Ok?
      && Steps(rt, HarmonicFirst, p, iteration) == Ok(r.value.0)
      && Refine(rt, r.value.0) == Ok(r.value.1)
  {
    if iteration < 0 then Err(UnboundLocal)
    else
      RefinedLoopIsSteps(rt, p, 0, iteration + 1);
      RefinedLoop(rt, p, 0, iteration + 1)
  }

  lemma {:induction false} RefinedLoopIsSteps(rt: Roots, p: Bracket, i: nat, stop: int)
    requires rt.Valid() && i < stop
    ensures RefinedLoop(rt, p, i, stop).Err? ==> RefinedLoop(rt, p, i, stop).fault != UnboundLocal
    ensures var r := RefinedLoop(rt, p, i, stop);
      var n := if i == 0 then stop - 1 else stop - i;
      p.Ordered() ==>
        && r.Ok?
        && Steps(rt, HarmonicFirst, p, n) == Ok(r.value.0)
        && Refine(rt, r.value.0) == Ok(r.value.1)
    decreases stop - i
  {
    if i == 0 {
      if 1 < stop {
        RefinedLoopIsSteps(rt, p, 1, stop);
      }
    } else {
      match HarmonicGeometric(rt, p)
      case Err(f) =>
      case Ok(q) =>
        if i + 1 < stop {
          RefinedLoopIsSteps(rt, q, i + 1, stop);
        }
    }
  }

  /** The hexagon start of the perimeter scripts: `a0 = r*2*sqrt(3)`, half
      the perimeter of the circumscribed hexagon, and `b0 = r*3`, half that of
      the inscribed one.  For r > 0: 3r = b0 < a0 < 4r. */
  function PerimeterStart(rt: Roots, r: real): (p: Bracket)
    requires rt.Valid()
    ensures 0.0 < r ==> p.Ordered() && p.lower == 3.0 * r < p.upper < 4.0 * r
  {
    SqrtThreeBounds(rt);
    PerimeterStartOf(r, rt.sqrt(3.0));
    Bracket(r * 2.0 * rt.sqrt(3.0), r * 3.0)
  }

  /** PerimeterStart for any x in (1.5, 2) standing for sqrt(3). */
  lemma PerimeterStartOf(r: real, x: real)
    ensures 0.0 < r && 1.5 < x < 2.0 ==>
      Bracket(r * 2.0 * x, r * 3.0).Ordered() && r * 3.0 == 3.0 * r < r * 2.0 * x < 4.0 * r
  {
    StartBetween(r, 2.0 * x, 3.0, 4.0);
  }

  /** Gregory's start: `a0 = 6*r*(1/2)*sqrt(3)` (the outer area) and
      `b0 = 6*r*(1/8)*sqrt(3)` (the inner area).  For r = 1 these are 3 sqrt(3)
      and (3/4) sqrt(3), the areas of the equilateral triangles circumscribed
      about and inscribed in the unit circle; the first pass turns them into
      the hexagon areas (GregoryFirstPass).  The script scales both by r, not
      by r^2.  For r > 0 the bracket is ordered, and a0 is four times b0. */
  function GregoryStart(rt: Roots, r: real): (p: Bracket)
    requires rt.Valid()
    ensures 0.0 < r ==> p.Ordered() && p.lower < p.upper
    ensures p.upper == 4.0 * p.lower
  {
    SqrtThreeBounds(rt);
    GregoryStartOf(r, rt.sqrt(3.0));
    Bracket(6.0 * r * (1.0 / 2.0) * rt.sqrt(3.0), 6.0 * r * (1.0 / 8.0) * rt.sqrt(3.0))
  }

  /** GregoryStart for any positive x standing for sqrt(3). */
  lemma GregoryStartOf(r: real, x: real)
    ensures 6.0 * r * (1.0 / 2.0) * x == 4.0 * (6.0 * r * (1.0 / 8.0) * x)
    ensures 0.0 < r && 0.0 < x ==>
      Bracket(6.0 * r * (1.0 / 2.0) * x, 6.0 * r * (1.0 / 8.0) * x).Ordered()
      && 6.0 * r * (1.0 / 8.0) * x < 6.0 * r * (1.0 / 2.0) * x
  {
    if 0.0 < r && 0.0 < x {
      MulPositive(r, x);
    }
  }

  /** Scaling by a positive r keeps strict order. */
  lemma StartBetween(r: real, x: real, lo: real, hi: real)
    ensures 0.0 < r && lo < x < hi ==> r * lo < r * x < r * hi
  {
    if 0.0 < r && lo < x < hi {
      MulPositive(r, x - lo);
      MulPositive(r, hi - x);
    }
  }
}
