/**
 The closing means that turn the final bracket (a1, b1) of the perimeter
 recurrence into an approximation of pi, and the drivers that run the
 recurrence and close it: `archimedes_constant` and `calculate_pi` of the
 Netz script, and the module-level Snellius, refined and Gregory scripts.

 Every mean divides by a multiple of the radius r, so with r = 0 it signals
 the division trap; for r > 0 and an ordered bracket each one lies between
 b1/r and a1/r.
 */
module Means {
  import opened Exact
  import opened Recurrence

  /** A quotient x/(k r) of a weighted sum x between k b and k a lies
      between b/r and a/r. */
  lemma MeanBetween(x: real, k: real, a: real, b: real, r: real)
    ensures 0.0 < r && 0.0 < k && k * b <= x <= k * a ==> b / r <= x / (k * r) <= a / r
  {
    if 0.0 < r && 0.0 < k && k * b <= x <= k * a {
      MeanOfPositive(x, k, a, b, r);
    }
  }

  lemma MeanOfPositive(x: real, k: real, a: real, b: real, r: real)
    requires 0.0 < r && 0.0 < k && k * b <= x <= k * a
    ensures b / r <= x / (k * r) <= a / r
  {
    MulPositive(k, r);
    var d := k * r;
    assert (b / r) * d == k * b;
    assert (a / r) * d == k * a;
    QuotientBetween(x, d, b / r, a / r);
  }

  lemma QuotientBetween(n: real, d: real, lo: real, hi: real)
    requires 0.0 < d && lo * d <= n <= hi * d
    ensures lo <= n / d <= hi
  {
    var q := n / d;
    assert q * d == n;
    if q < lo {
      MulPositive(lo - q, d);
    }
    if hi < q {
      MulPositive(q - hi, d);
    }
  }

  // ---------------------------------------------------------------------
  // The five means of archimedes_netz_lto.py
  // ---------------------------------------------------------------------

  /** `archimedes_weighted_arithmetic_mean`: (a1 + w*b1)/((w + 1)*r) with
      w = 4. */
  function WeightedMean(a1: real, b1: real, r: real): (ac: Result<real>)
    ensures ac.Ok? <==> r != 0.0
    ensures 0.0 < r && b1 <= a1 ==> ac.Ok? && b1 / r <= ac.value <= a1 / r
  {
    var w := 4.0;
    MeanBetween(a1 + w * b1, w + 1.0, a1, b1, r);
    Div(a1 + w * b1, (w + 1.0) * r)
  }

  /** `archimedes_arithmetic_mean`: (a1 + b1)/(2r). */
  function ArithmeticMean(a1: real, b1: real, r: real): (ac: Result<real>)
    ensures ac.Ok? <==> r != 0.0
    ensures 0.0 < r && b1 <= a1 ==> ac.Ok? && b1 / r <= ac.value <= a1 / r
  {
    MeanBetween(a1 + b1, 2.0, a1, b1, r);
    Div(a1 + b1, 2.0 * r)
  }

  /** `archimedes_snellius`: (a1 + 2 b1)/(3r). */
  function SnelliusMean(a1: real, b1: real, r: real): (ac: Result<real>)
    ensures ac.Ok? <==> r != 0.0
    ensures 0.0 < r && b1 <= a1 ==> ac.Ok? && b1 / r <= ac.value <= a1 / r
  {
    MeanBetween(a1 + 2.0 * b1, 3.0, a1, b1, r);
    Div(a1 + 2.0 * b1, 3.0 * r)
  }

  /** `archimedes_doerrie`: the harmonic-type bound 3 a1 b1/(2 a1 + b1)
      and the cube root of a1 b1^2, averaged and divided by r. */
  function DoerrieMean(rt: Roots, a1: real, b1: real, r: real): (ac: Result<real>)
    requires rt.Valid()
    ensures 0.0 < r && 0.0 < b1 <= a1 ==> ac.Ok? && b1 / r <= ac.value <= a1 / r
    ensures ac.Err? ==> ac.fault == DivisionByZero || ac.fault == InvalidOperation
  {
    var q, c := HarmonicBound(a1, b1), CubeRootBound(rt, a1, b1);
    DoerrieOrder(a1, b1, r, q, c);
    Closing(q, c, 2.0 * r)
  }

  /** The last step of both scripts: the sum of the two bounds over the
      divisor d, passing on the first trap met. */
  function Closing(q: Result<real>, c: Result<real>, d: real): Result<real> {
    match q
    case Err(f) => Err(f)
    case Ok(x) =>
      match c
      case Err(f) => Err(f)
      case Ok(g) => Div(x + g, d)
  }

  /** Doerrie's closing step from the contracts of its two bounds. */
  lemma DoerrieOrder(a1: real, b1: real, r: real, q: Result<real>, c: Result<real>)
    requires q.Ok? <==> 2.0 * a1 + b1 != 0.0
    requires q.Ok? ==> q.value * (2.0 * a1 + b1) == 3.0 * a1 * b1
    requires q.Err? ==> q.fault == DivisionByZero || q.fault == InvalidOperation
    requires c.Ok? <==> 0.0 <= a1 * (b1 * b1)
    requires c.Ok? ==> 0.0 <= c.value && Cube(c.value) == a1 * (b1 * b1)
    requires c.Err? ==> c.fault == InvalidOperation
    ensures 0.0 < r && 0.0 < b1 <= a1 ==>
      Closing(q, c, 2.0 * r).Ok? && b1 / r <= Closing(q, c, 2.0 * r).value <= a1 / r
    ensures Closing(q, c, 2.0 * r).Err? ==>
      Closing(q, c, 2.0 * r).fault == DivisionByZero || Closing(q, c, 2.0 * r).fault == InvalidOperation
  {
    CubeRadicand(a1, b1);
    if q.Ok? && c.Ok? {
      RefinedOrder(a1, b1, q.value, c.value);
      ClosingBetween(a1, b1, r, q.value, c.value);
    }
  }

  /** `archimedes_netz`: 12 a1 b1/(2 a1 + b1) plus the cube root of a1 b1^2,
      divided by 5r; four times Doerrie's lower bound and once his upper. */
  function NetzMean(rt: Roots, a1: real, b1: real, r: real): (ac: Result<real>)
    requires rt.Valid()
    ensures 0.0 < r && 0.0 < b1 <= a1 ==> ac.Ok? && b1 / r <= ac.value <= a1 / r
    ensures ac.Err? ==> ac.fault == DivisionByZero || ac.fault == InvalidOperation
  {
    var q, c := Div(12.0 * a1 * b1, 2.0 * a1 + b1), CubeRootBound(rt, a1, b1);
    NetzOrder(a1, b1, r, q, c);
    Closing(q, c, 5.0 * r)
  }

  /** Netz's closing step from the contracts of its two bounds. */
  lemma NetzOrder(a1: real, b1: real, r: real, q: Result<real>, c: Result<real>)
    requires q.Ok? <==> 2.0 * a1 + b1 != 0.0
    requires q.Ok? ==> q.value * (2.0 * a1 + b1) == 12.0 * a1 * b1
    requires q.Err? ==> q.fault == DivisionByZero || q.fault == InvalidOperation
    requires c.Ok? <==> 0.0 <= a1 * (b1 * b1)
    requires c.Ok? ==> 0.0 <= c.value && Cube(c.value) == a1 * (b1 * b1)
    requires c.Err? ==> c.fault == InvalidOperation
    ensures 0.0 < r && 0.0 < b1 <= a1 ==>
      Closing(q, c, 5.0 * r).Ok? && b1 / r <= Closing(q, c, 5.0 * r).value <= a1 / r
    ensures Closing(q, c, 5.0 * r).Err? ==>
      Closing(q, c, 5.0 * r).fault == DivisionByZero || Closing(q, c, 5.0 * r).fault == InvalidOperation
  {
    CubeRadicand(a1, b1);
    if q.Ok? && c.Ok? {
      FourfoldQuotient(a1, b1, q.value);
      RefinedOrder(a1, b1, q.value / 4.0, c.value);
      ClosingBetween(a1, b1, r, q.value / 4.0, c.value);
      assert 4.0 * (q.value / 4.0) == q.value;
    }
  }

  /** Both closing means of the refined bounds b1 <= h <= g <= a1,
      (h + g)/2 and (4 h + g)/5, lie in the bracket scaled by 1/r. */
  lemma ClosingBetween(a1: real, b1: real, r: real, h: real, g: real)
    ensures 0.0 < r && b1 <= h <= g <= a1 ==>
      b1 / r <= (h + g) / (2.0 * r) <= a1 / r && b1 / r <= (4.0 * h + g) / (5.0 * r) <= a1 / r
  {
    if 0.0 < r && b1 <= h <= g <= a1 {
      MeanOfPositive(h + g, 2.0, a1, b1, r);
      MeanOfPositive(4.0 * h + g, 5.0, a1, b1, r);
    }
  }

  /** A quarter of the quotient 12ab/(2a+b) is the quotient 3ab/(2a+b). */
  lemma FourfoldQuotient(a: real, b: real, q: real)
    ensures q * (2.0 * a + b) == 12.0 * a * b ==> q / 4.0 * (2.0 * a + b) == 3.0 * a * b
  {
  }

  /** Doerrie's mean is the arithmetic mean of the refined bracket, fault
      for fault. */
  lemma DoerrieIsArithmeticOfRefined(rt: Roots, a1: real, b1: real, r: real)
    requires rt.Valid()
    ensures DoerrieMean(rt, a1, b1, r) ==
      match Refine(rt, Bracket(a1, b1))
      case Err(f) => Err(f)
      case Ok(t) => ArithmeticMean(t.upper, t.lower, r)
  {
    var q, c := HarmonicBound(a1, b1), CubeRootBound(rt, a1, b1);
    assert Refine(rt, Bracket(a1, b1)) == Pair(q, c);
    match q
    case Err(f) =>
    case Ok(h) =>
      match c
      case Err(f) =>
      case Ok(g) => assert ArithmeticMean(g, h, r) == Div(h + g, 2.0 * r);
  }

  /** Netz's mean is the 1:4 weighted mean of the refined bracket, fault for
      fault. */
  lemma NetzIsWeightedOfRefined(rt: Roots, a1: real, b1: real, r: real)
    requires rt.Valid()
    ensures NetzMean(rt, a1, b1, r) ==
      match Refine(rt, Bracket(a1, b1))
      case Err(f) => Err(f)
      case Ok(t) => WeightedMean(t.upper, t.lower, r)
  {
    var s := 2.0 * a1 + b1;
    var q, c := HarmonicBound(a1, b1), CubeRootBound(rt, a1, b1);
    assert Refine(rt, Bracket(a1, b1)) == Pair(q, c);
    match q
    case Err(f) =>
    case Ok(h) =>
      match c
      case Err(f) =>
      case Ok(g) =>
        assert Div(12.0 * a1 * b1, s) == Ok(4.0 * h) by { TwelveOverSum(a1, b1, h); }
        assert WeightedMean(g, h, r) == Div(4.0 * h + g, 5.0 * r);
  }

  /** 12ab/(2a+b) is four times a quotient h with h (2a+b) = 3ab. */
  lemma TwelveOverSum(a: real, b: real, h: real)
    requires h * (2.0 * a + b) == 3.0 * a * b && 2.0 * a + b != 0.0
    ensures 12.0 * a * b / (2.0 * a + b) == 4.0 * h
  {
  }

  /** `archimedes_constant`: method numbers 0 to 4 (`choice`) pick Netz,
      Doerrie, Snellius, the arithmetic and the weighted mean; any other
      number leaves `ac` unbound. */
  function ArchimedesConstant(rt: Roots, a1: real, b1: real, r: real, choice: int): (ac: Result<real>)
    requires rt.Valid()
    ensures ac == Err(UnboundLocal) <==> choice < 0 || 4 < choice
    ensures 0 <= choice <= 4 && 0.0 < r && 0.0 < b1 <= a1 ==> ac.Ok? && b1 / r <= ac.value <= a1 / r
  {
    MeansBetween(rt, a1, b1, r);
    if choice == 0 then NetzMean(rt, a1, b1, r)
    else if choice == 1 then DoerrieMean(rt, a1, b1, r)
    else if choice == 2 then SnelliusMean(a1, b1, r)
    else if choice == 3 then ArithmeticMean(a1, b1, r)
    else if choice == 4 then WeightedMean(a1, b1, r)
    else Err(UnboundLocal)
  }

  /** The five closing means side by side: on a bracket 0 < b1 <= a1 each
      of them is defined and lies in [b1/r, a1/r]. */
  lemma MeansBetween(rt: Roots, a1: real, b1: real, r: real)
    requires rt.Valid()
    ensures 0.0 < r && 0.0 < b1 <= a1 ==>
      && NetzMean(rt, a1, b1, r).Ok? && b1 / r <= NetzMean(rt, a1, b1, r).value <= a1 / r
      && DoerrieMean(rt, a1, b1, r).Ok? && b1 / r <= DoerrieMean(rt, a1, b1, r).value <= a1 / r
      && SnelliusMean(a1, b1, r).Ok? && b1 / r <= SnelliusMean(a1, b1, r).value <= a1 / r
      && ArithmeticMean(a1, b1, r).Ok? && b1 / r <= ArithmeticMean(a1, b1, r).value <= a1 / r
      && WeightedMean(a1, b1, r).Ok? && b1 / r <= WeightedMean(a1, b1, r).value <= a1 / r
  {
  }

  /** A value between l/r and u/r, for l and u within r*lo and r*hi, lies
      between lo and hi. */
  lemma BoundsOverRadius(r: real, lo: real, hi: real, l: real, u: real, ac: real)
    ensures 0.0 < r && r * lo <= l && u <= r * hi && l / r <= ac <= u / r ==> lo <= ac <= hi
  {
    if 0.0 < r && r * lo <= l && u <= r * hi && l / r <= ac <= u / r {
      DivLeq(r * lo, l, r);
      DivLeq(u, r * hi, r);
    }
  }

  /** `calculate_pi`: the hexagon start, `iteration` doubling passes and the
      closing mean picked by the method number (the string conversion of the result is
      not modelled).  For r > 0 and a valid method number the result lies between
      the hexagon bounds 3 and 2 sqrt(3). */
  function CalculatePi(rt: Roots, iteration: int, r: real, choice: int): (ac: Result<real>)
    requires rt.Valid()
    ensures iteration < 0 ==> ac == Err(UnboundLocal)
    ensures 0.0 < r && 0 <= iteration ==> (ac == Err(UnboundLocal) <==> choice < 0 || 4 < choice)
    ensures 0.0 < r && 0 <= iteration && 0 <= choice <= 4 ==>
      ac.Ok? && 3.0 <= ac.value <= 2.0 * rt.sqrt(3.0)
  {
    var p := PerimeterStart(rt, r);
    match Run(rt, HarmonicFirst, p, iteration)
    case Err(f) => Err(f)
    case Ok(q) =>
      ClosingInHexagon(rt, r, q, choice);
      ArchimedesConstant(rt, q.upper, q.lower, r, choice)
  }

  /** The closing mean of a bracket nested in the hexagon start lies
      between the hexagon bounds. */
  lemma ClosingInHexagon(rt: Roots, r: real, q: Bracket, choice: int)
    requires rt.Valid()
    ensures 0.0 < r && q.Ordered() && q.Within(PerimeterStart(rt, r)) && 0 <= choice <= 4 ==>
      var ac := ArchimedesConstant(rt, q.upper, q.lower, r, choice);
      ac.Ok? && 3.0 <= ac.value <= 2.0 * rt.sqrt(3.0)
  {
    if 0.0 < r && q.Ordered() && q.Within(PerimeterStart(rt, r)) && 0 <= choice <= 4 {
      var ac := ArchimedesConstant(rt, q.upper, q.lower, r, choice);
      assert q.lower / r <= ac.value <= q.upper / r;
      BoundsOverRadius(r, 3.0, 2.0 * rt.sqrt(3.0), q.lower, q.upper, ac.value);
    }
  }

  // ---------------------------------------------------------------------
  // The module-level scripts
  // ---------------------------------------------------------------------

  /** `D((D(1)/D(r))*D(x))/D(k)`: the closing division of the module-level
      scripts, through the reciprocal of r.  It agrees with the direct
      quotient x/(k r) except that r = 0 always signals DivisionByZero. */
  function ScaledMean(x: real, k: real, r: real): (ac: Result<real>)
    ensures r == 0.0 ==> ac == Err(DivisionByZero)
    ensures r != 0.0 && k != 0.0 ==> ac == Div(x, k * r)
  {
    ReciprocalForm(x, k, r);
    match Div(1.0, r)
    case Err(f) => Err(f)
    case Ok(_) => Div((1.0 / r) * x, k)
  }

  lemma ReciprocalForm(x: real, k: real, r: real)
    ensures r != 0.0 && k != 0.0 ==> k * r != 0.0 && (1.0 / r) * x / k == x / (k * r)
  {
    if r != 0.0 && k != 0.0 {
      MulPositive(Abs(k), Abs(r));
      assert k * r != 0.0;
      var q := x / (k * r);
      assert q * (k * r) == x;
      assert ((1.0 / r) * x / k) * (k * r) == x;
      Cancel((1.0 / r) * x / k, q, k * r);
    }
  }

  const SnelliusIteration := 83
  const RefinedIteration := 54

  /** archimedes_snellius_dec.py: hexagon start, `iteration` passes, and the
      Snellius mean in the reciprocal form.  The closing expression computes
      `D(1)/D(r)` before it reads `a1`, so with no pass run a zero radius
      traps before the unbound name is read. */
  function SnelliusScript(rt: Roots, r: real, iteration: int): (ac: Result<real>)
    requires rt.Valid()
    ensures iteration < 0 ==> ac == Err(if r == 0.0 then DivisionByZero else UnboundLocal)
    ensures r != 0.0 ==> ac == CalculatePi(rt, iteration, r, 2)
    ensures 0.0 < r && 0 <= iteration ==> ac.Ok? && 3.0 <= ac.value <= 2.0 * rt.sqrt(3.0)
  {
    match Run(rt, HarmonicFirst, PerimeterStart(rt, r), iteration)
    case Err(f) => if iteration < 0 then ReciprocalFirst(r, f) else Err(f)
    case Ok(q) => ScaledMean(q.upper + 2.0 * q.lower, 3.0, r)
  }

  /** The closing `D((D(1)/D(r))*D(x))/D(k)` when x is unbound: the
      reciprocal of r is computed first, so its trap wins over the fault f
      of reading x. */
  function ReciprocalFirst(r: real, f: Fault): (ac: Result<real>)
    ensures ac == Err(if r == 0.0 then DivisionByZero else f)
  {
    match Div(1.0, r)
    case Err(g) => Err(g)
    case Ok(_) => Err(f)
  }

  /** archimedes_recurrence_modified_dec.py and archimedes_netz_dec.py:
      hexagon start, `iteration` passes each followed by Doerrie's
      refinement, and the 1:4 mean of the last refinement in the reciprocal
      form.  For r > 0 this is `calculate_pi` with the Netz mean.  As in
      SnelliusScript, `D(1)/D(r)` is computed before the unbound `a3` is
      read. */
  function RefinedScript(rt: Roots, r: real, iteration: int): (ac: Result<real>)
    requires rt.Valid()
    ensures iteration < 0 ==> ac == Err(if r == 0.0 then DivisionByZero else UnboundLocal)
    ensures 0.0 < r ==> ac == CalculatePi(rt, iteration, r, 0)
  {
    match RefinedRun(rt, PerimeterStart(rt, r), iteration)
    case Err(f) => if iteration < 0 then ReciprocalFirst(r, f) else Err(f)
    case Ok(qt) =>
      NetzIsWeightedOfRefined(rt, qt.0.upper, qt.0.lower, r);
      ScaledMean(qt.1.upper + 4.0 * qt.1.lower, 5.0, r)
  }

  const GregoryIteration := 166

  /** gregory.py: the area start, `iteration` passes in the reversed order,
      and the arithmetic mean.  For r > 0 the result lies between the
      start values (3/4) sqrt(3) and 3 sqrt(3), the areas of the equilateral
      triangles inscribed in and circumscribed about the unit circle. */
  function GregoryScript(rt: Roots, r: real, iteration: int): (ac: Result<real>)
    requires rt.Valid()
    ensures iteration < 0 ==> ac == Err(UnboundLocal)
    ensures 0.0 < r && 0 <= iteration ==>
      ac.Ok? && 0.75 * rt.sqrt(3.0) <= ac.value <= 3.0 * rt.sqrt(3.0)
  {
    var p := GregoryStart(rt, r);
    match Run(rt, GeometricFirst, p, iteration)
    case Err(f) => Err(f)
    case Ok(q) =>
      ClosingInGregoryStart(rt, r, q);
      ArithmeticMean(q.upper, q.lower, r)
  }

  /** One pass of Gregory's loop (`iteration = 1`) turns the triangle
      areas of GregoryStart into 2 sqrt(3) r and (3/2) sqrt(3) r, for r = 1
      the areas of the regular hexagons circumscribed about and inscribed in
      the unit circle. */
  lemma GregoryFirstPass(rt: Roots, r: real)
    requires rt.Valid() && 0.0 < r
    ensures Run(rt, GeometricFirst, GregoryStart(rt, r), 1) == Ok(Hexagons(r, rt.sqrt(3.0)))
  {
    SqrtThreeBounds(rt);
    GregoryFirstStepOf(rt, r, rt.sqrt(3.0), GregoryStart(rt, r));
  }

  /** The bracket (2 x r, (3/2) x r): for x = sqrt(3) and r = 1 the areas of
      the regular hexagons circumscribed about and inscribed in the unit
      circle. */
  function Hexagons(r: real, x: real): Bracket {
    Bracket(2.0 * r * x, 1.5 * r * x)
  }

  /** The first pass for any positive x standing for sqrt(3). */
  lemma GregoryFirstStepOf(rt: Roots, r: real, x: real, p: Bracket)
    requires rt.Valid()
    ensures 0.0 < r && 0.0 < x && p == Bracket(6.0 * r * (1.0 / 2.0) * x, 6.0 * r * (1.0 / 8.0) * x) ==>
      Run(rt, GeometricFirst, p, 1) == Ok(Hexagons(r, x))
  {
    if 0.0 < r && 0.0 < x && p == Bracket(6.0 * r * (1.0 / 2.0) * x, 6.0 * r * (1.0 / 8.0) * x) {
      RunOnce(rt, GeometricFirst, p);
      MulPositive(r, x);
      OneStep(rt, GeometricFirst, p);
      FourfoldPass(rt, p);
      GregoryHexagon(r, x, p);
    }
  }

  lemma RunOnce(rt: Roots, order: Order, p: Bracket)
    requires rt.Valid()
    ensures Run(rt, order, p, 1) == Steps(rt, order, p, 1)
  {
  }

  lemma OneStep(rt: Roots, order: Order, p: Bracket)
    requires rt.Valid()
    ensures Steps(rt, order, p, 1) == Pass(rt, order, p)
  {
  }

  /** Gregory's pass on a bracket whose upper bound is four times its
      positive lower bound b0 gives ((8/3) b0, 2 b0). */
  lemma FourfoldPass(rt: Roots, p: Bracket)
    requires rt.Valid()
    ensures 0.0 < p.lower && p.upper == 4.0 * p.lower ==>
      Pass(rt, GeometricFirst, p) == Ok(Bracket(8.0 / 3.0 * p.lower, 2.0 * p.lower))
  {
    if 0.0 < p.lower && p.upper == 4.0 * p.lower {
      var q := GeometricHarmonic(rt, p);
      GregoryPassValues(p.upper, p.lower, q.value.lower, q.value.upper);
    }
  }

  /** (8/3) b0 and 2 b0 for Gregory's b0 = 6 r (1/8) x. */
  lemma GregoryHexagon(r: real, x: real, p: Bracket)
    ensures p == Bracket(6.0 * r * (1.0 / 2.0) * x, 6.0 * r * (1.0 / 8.0) * x) ==>
      Bracket(8.0 / 3.0 * p.lower, 2.0 * p.lower) == Hexagons(r, x)
  {
  }

  /** From a0 = 4 b0 > 0, the geometric mean g = sqrt(a0 b0) is 2 b0 and the
      harmonic mean u of a0 and g is (8/3) b0. */
  lemma GregoryPassValues(a0: real, b0: real, g: real, u: real)
    ensures 0.0 < b0 && a0 == 4.0 * b0 && 0.0 <= g && g * g == a0 * b0 && u * (a0 + g) == 2.0 * a0 * g ==>
      g == 2.0 * b0 && u == 8.0 / 3.0 * b0
  {
    if 0.0 < b0 && a0 == 4.0 * b0 && 0.0 <= g && g * g == a0 * b0 && u * (a0 + g) == 2.0 * a0 * g {
      EqualSquares(g, 2.0 * b0);
      assert (u - 8.0 / 3.0 * b0) * (6.0 * b0) == 0.0;
    }
  }

  lemma ClosingInGregoryStart(rt: Roots, r: real, q: Bracket)
    requires rt.Valid()
    ensures 0.0 < r && q.Ordered() && q.Within(GregoryStart(rt, r)) ==>
      var ac := ArithmeticMean(q.upper, q.lower, r);
      ac.Ok? && 0.75 * rt.sqrt(3.0) <= ac.value <= 3.0 * rt.sqrt(3.0)
  {
    if 0.0 < r && q.Ordered() && q.Within(GregoryStart(rt, r)) {
      var ac := ArithmeticMean(q.upper, q.lower, r);
      BoundsOverRadius(r, 0.75 * rt.sqrt(3.0), 3.0 * rt.sqrt(3.0), q.lower, q.upper, ac.value);
    }
  }

  /** The three module-level scripts as they stand, with `r = 1` and their
      own iteration counts: each is defined and lies between its start
      bounds; the first two are `calculate_pi` with the matching mean. */
  lemma ScriptsAtTheirCounts(rt: Roots)
    requires rt.Valid()
    ensures SnelliusScript(rt, 1.0, SnelliusIteration) == CalculatePi(rt, SnelliusIteration, 1.0, 2)
    ensures SnelliusScript(rt, 1.0, SnelliusIteration).Ok?
    ensures 3.0 <= SnelliusScript(rt, 1.0, SnelliusIteration).value <= 2.0 * rt.sqrt(3.0)
    ensures RefinedScript(rt, 1.0, RefinedIteration) == CalculatePi(rt, RefinedIteration, 1.0, 0)
    ensures RefinedScript(rt, 1.0, RefinedIteration).Ok?
    ensures 3.0 <= RefinedScript(rt, 1.0, RefinedIteration).value <= 2.0 * rt.sqrt(3.0)
    ensures GregoryScript(rt, 1.0, GregoryIteration).Ok?
    ensures 0.75 * rt.sqrt(3.0) <= GregoryScript(rt, 1.0, GregoryIteration).value <= 3.0 * rt.sqrt(3.0)
  {
  }
}
