/**
 Archimedes' polygon scripts that work on the sides of a right triangle
 instead of on the perimeters directly.

 The inner-polygon scripts keep the triangle ABC inscribed in the half
 circle over the diameter AB: BC is an edge of the inscribed n-gon and AC
 the remaining leg.  One pass bisects the angle at A; the bisector meets the
 circle in D and gives the triangle ABD of the 2n-gon, with
 `AD = AB/sqrt(BC^2/(AB + AC)^2 + 1)` and `BD = sqrt(AB^2 - AD^2)`.  The
 outer-polygon script keeps the right triangle OAC with the inradius OA, the
 half edge AC and the hypotenuse OC, and bisects the angle at O.
 */
module Polygons {
  import opened Exact

  // ---------------------------------------------------------------------
  // The half-angle pass of the inscribed triangle
  // ---------------------------------------------------------------------

  /** The sides AB (the diameter), AC and BC of the triangle a pass works
      on. */
  datatype Triangle = Triangle(ab: real, ac: real, bc: real)

  /** ABC is a right triangle over the diameter AB, with a proper edge BC:
      Thales' configuration, which every pass keeps. */
  predicate Inscribed(t: Triangle) {
    && 0.0 < t.bc
    && 0.0 < t.ac < t.ab
    && t.ac * t.ac + t.bc * t.bc == t.ab * t.ab
  }

  /** One pass: `AD = AB/sqrt(BC**2/(AB + AC)**2 + 1)`,
      `BD = sqrt(AB**2 - AD**2)`, and the next triangle is ABD (the script
      stores `AC = AD`, `BC = BD` and never assigns AB).  Only the first
      division can trap: the square root arguments are at least 1 and
      AB^2 - AD^2 >= 0, and the second divisor is a square root of at least
      1. */
  function HalfAngle(rt: Roots, t: Triangle): (r: Result<Triangle>)
    requires rt.Valid()
    ensures r.Ok? <==> t.ab + t.ac != 0.0
    ensures r.Err? ==> r.fault == (if t.bc == 0.0 then InvalidOperation else DivisionByZero)
    ensures r.Ok? ==> r.value.ab == t.ab
    ensures r.Ok? ==> r.value.ac * r.value.ac + r.value.bc * r.value.bc == t.ab * t.ab
    ensures r.Ok? ==> 0.0 <= r.value.bc
    ensures r.Ok? && 0.0 < t.ab ==> 0.0 < r.value.ac <= t.ab
    ensures r.Ok? && 0.0 <= t.bc && 0.0 <= t.ab && 0.0 < t.ab + t.ac ==>
      r.value.bc * (t.ab + t.ac) == t.bc * r.value.ac
  {
    match BisectorRatio(t)
    case Err(f) => Err(f)
    case Ok(q) => Ok(Bisected(rt, t, q))
  }

  /** The first step of a pass, `BC**2/(AB + AC)**2`: the only one that can
      trap, 0/0 when BC = 0 = AB + AC and a division by zero when only
      AB + AC = 0. */
  function BisectorRatio(t: Triangle): (r: Result<real>)
    ensures r.Ok? <==> t.ab + t.ac != 0.0
    ensures r.Err? ==> r.fault == (if t.bc == 0.0 then InvalidOperation else DivisionByZero)
    ensures r.Ok? ==> 0.0 <= r.value
    ensures r.Ok? ==> r.value * ((t.ab + t.ac) * (t.ab + t.ac)) == t.bc * t.bc
  {
    var u := t.ab + t.ac;
    SquarePositive(u);
    SquarePositive(t.bc);
    var r := Div(t.bc * t.bc, u * u);
    if r.Ok? then
      QuotientNonNegative(t.bc * t.bc, u * u, r.value);
      r
    else
      r
  }

  /** The rest of a pass once q = BC^2/(AB + AC)^2 >= 0 is known:
      `AD = AB/sqrt(q + 1)` and `BD = sqrt(AB**2 - AD**2)`.  Neither square
      root argument is negative and sqrt(q + 1) >= 1, so none of these
      operations can trap. */
  function Bisected(rt: Roots, t: Triangle, q: real): (h: Triangle)
    requires rt.Valid() && 0.0 <= q
    ensures h.ab == t.ab
    ensures h.ac * h.ac + h.bc * h.bc == t.ab * t.ab
    ensures 0.0 <= h.bc
    ensures 0.0 < t.ab ==> 0.0 < h.ac <= t.ab
    ensures (q * ((t.ab + t.ac) * (t.ab + t.ac)) == t.bc * t.bc
      && 0.0 <= t.bc && 0.0 <= t.ab && 0.0 < t.ab + t.ac) ==>
      h.bc * (t.ab + t.ac) == t.bc * h.ac
  {
    var s := rt.sqrt(q + 1.0);
    AtLeastOne(s, q);
    var ad := t.ab / s;
    ChordBelowDiameter(t.ab, q, s, ad);
    var bd := rt.sqrt(t.ab * t.ab - ad * ad);
    HalfAngleBisects(t, q, s, ad, bd);
    Triangle(t.ab, ad, bd)
  }

  /** x/y >= 0 for x >= 0 and y > 0. */
  lemma QuotientNonNegative(x: real, y: real, q: real)
    requires 0.0 <= x && 0.0 < y && q == x / y
    ensures 0.0 <= q
  {
    assert q * y == x;
    NonNegativeFactor(q, y);
  }

  /** A non-negative square root of q + 1 with q >= 0 is at least 1, and
      above 1 when q is. */
  lemma AtLeastOne(s: real, q: real)
    requires 0.0 <= q && 0.0 <= s && s * s == q + 1.0
    ensures 1.0 <= s
    ensures 0.0 < q ==> 1.0 < s
  {
    if s < 1.0 {
      SquareLess(s, 1.0);
    }
  }

  /** AD = AB/s with s^2 = q + 1: AB^2 - AD^2 = q AD^2 >= 0, and
      0 < AD <= AB for AB > 0 (AD < AB when q > 0). */
  lemma ChordBelowDiameter(ab: real, q: real, s: real, ad: real)
    requires 0.0 <= q && 1.0 <= s && s * s == q + 1.0 && ad == ab / s
    ensures ab * ab - ad * ad == q * (ad * ad)
    ensures 0.0 <= ab * ab - ad * ad
    ensures 0.0 < ab ==> 0.0 < ad <= ab
    ensures 0.0 < ab && 1.0 < s ==> ad < ab
  {
    assert ad * s == ab;
    assert ab * ab == (ad * ad) * (s * s);
    SquareNonNegative(ad);
    MulNonNegative(q, ad * ad);
    if 0.0 < ab {
      NonNegativeFactor(ad, s);
      assert ad != 0.0;
      assert ab - ad == ad * (s - 1.0);
      MulNonNegative(ad, s - 1.0);
      if 1.0 < s {
        MulPositive(ad, s - 1.0);
      }
    }
  }

  /** The facts of a pass past its traps: the Pythagorean relation of ABD
      and the bisector ratio BD/AD = BC/(AB + AC). */
  lemma HalfAngleBisects(t: Triangle, q: real, s: real, ad: real, bd: real)
    requires 0.0 <= q && 1.0 <= s && s * s == q + 1.0 && ad == t.ab / s
    requires 0.0 <= bd && bd * bd == t.ab * t.ab - ad * ad
    ensures ad * ad + bd * bd == t.ab * t.ab
    ensures 0.0 < t.ab ==> 0.0 < ad <= t.ab
    ensures (q * ((t.ab + t.ac) * (t.ab + t.ac)) == t.bc * t.bc
      && 0.0 <= t.bc && 0.0 <= t.ab && 0.0 < t.ab + t.ac) ==> bd * (t.ab + t.ac) == t.bc * ad
  {
    ChordBelowDiameter(t.ab, q, s, ad);
    if q * ((t.ab + t.ac) * (t.ab + t.ac)) == t.bc * t.bc &&
      0.0 <= t.bc && 0.0 <= t.ab && 0.0 < t.ab + t.ac {
      var u := t.ab + t.ac;
      assert ad * s == t.ab;
      NonNegativeFactor(ad, s);
      RatioOfRoots(u, q, ad, bd, t.bc);
    }
  }

  /** bd^2 = q ad^2 and q u^2 = bc^2 give bd u = bc ad for non-negative
      values. */
  lemma RatioOfRoots(u: real, q: real, ad: real, bd: real, bc: real)
    requires 0.0 < u && 0.0 <= ad && 0.0 <= bd && 0.0 <= bc
    requires bd * bd == q * (ad * ad) && q * (u * u) == bc * bc
    ensures bd * u == bc * ad
  {
    assert (bd * u) * (bd * u) == (bd * bd) * (u * u);
    assert (bd * bd) * (u * u) == (q * (u * u)) * (ad * ad);
    assert (bc * ad) * (bc * ad) == (bc * bc) * (ad * ad);
    MulNonNegative(bd, u);
    MulNonNegative(bc, ad);
    EqualSquares(bd * u, bc * ad);
  }

  /** From Thales' configuration a pass gives Thales' configuration again,
      and the new edge is more than half the old one: 2 BD > BC, so the
      perimeter n BC of the inscribed polygon strictly grows when n
      doubles. */
  lemma HalfAngleInscribed(rt: Roots, t: Triangle)
    requires rt.Valid() && Inscribed(t)
    ensures HalfAngle(rt, t).Ok?
    ensures Inscribed(HalfAngle(rt, t).value)
    ensures t.bc < 2.0 * HalfAngle(rt, t).value.bc
  {
    var h := HalfAngle(rt, t).value;
    HalfAngleOf(rt, t);
    ThalesAgain(t, h);
  }

  /** The contract of HalfAngle for a triangle in Thales' configuration,
      restated over the resulting triangle. */
  lemma HalfAngleOf(rt: Roots, t: Triangle)
    requires rt.Valid() && Inscribed(t)
    ensures HalfAngle(rt, t).Ok?
    ensures Bisects(t, HalfAngle(rt, t).value)
  {
    HalfAngleOfSides(rt, t);
  }

  /** HalfAngleOf from the order of the sides alone, without the
      Pythagorean relation of ABC. */
  lemma HalfAngleOfSides(rt: Roots, t: Triangle)
    requires rt.Valid() && 0.0 < t.bc && 0.0 < t.ac < t.ab
    ensures HalfAngle(rt, t).Ok?
    ensures Bisects(t, HalfAngle(rt, t).value)
  {
  }

  /** ABD is the triangle of the bisected angle at A of ABC: same diameter,
      AD > 0, AD^2 + BD^2 = AB^2 and BD/AD = BC/(AB + AC). */
  predicate Bisects(t: Triangle, h: Triangle) {
    && h.ab == t.ab && 0.0 < h.ac && 0.0 <= h.bc
    && h.ac * h.ac + h.bc * h.bc == t.ab * t.ab
    && h.bc * (t.ab + t.ac) == t.bc * h.ac
  }

  /** Doubling over the two triangles. */
  lemma ThalesAgain(t: Triangle, h: Triangle)
    requires Inscribed(t) && Bisects(t, h)
    ensures Inscribed(h) && t.bc < 2.0 * h.bc
  {
    Doubling(t.ab, t.ac, t.bc, h.ac, h.bc);
  }

  /** HalfAngleInscribed as an implication, for use inside functions. */
  lemma HalfAngleKeeps(rt: Roots, t: Triangle)
    requires rt.Valid()
    ensures Inscribed(t) ==> HalfAngle(rt, t).Ok? && Inscribed(HalfAngle(rt, t).value)
  {
    if Inscribed(t) {
      HalfAngleInscribed(rt, t);
    }
  }

  /** The plane geometry behind HalfAngleInscribed, over the side lengths:
      from AD^2 + BD^2 = AB^2 and BD (AB + AC) = BC AD one gets
      2 AD^2 = AB (AB + AC), hence AD < AB and 2 AD > AB + AC, hence
      2 BD > BC. */
  lemma Doubling(ab: real, ac: real, bc: real, ad: real, bd: real)
    requires 0.0 < bc && 0.0 <= ac < ab && ac * ac + bc * bc == ab * ab
    requires 0.0 < ad && 0.0 <= bd && ad * ad + bd * bd == ab * ab
    requires bd * (ab + ac) == bc * ad
    ensures 0.0 < bd && ad < ab && bc < 2.0 * bd
  {
    HalfChordSquare(ab, ac, bc, ad, bd);
    HalfChordBelow(ab, ac, ad);
    HalfChordAbove(ab, ac, ad);
    EdgeMoreThanHalf(bc, bd, ad, ab + ac);
  }

  /** AD < AB: 2 AD^2 = AB (AB + AC) < 2 AB^2. */
  lemma HalfChordBelow(ab: real, ac: real, ad: real)
    requires 0.0 <= ac < ab && 0.0 < ad && 2.0 * (ad * ad) == ab * (ab + ac)
    ensures ad < ab
  {
    MulPositive(ab, ab - ac);
    if ab <= ad {
      SquareLeq(ab, ad);
    }
  }

  /** 2 AD > AB + AC: (2 AD)^2 = 2 AB (AB + AC) > (AB + AC)^2. */
  lemma HalfChordAbove(ab: real, ac: real, ad: real)
    requires 0.0 <= ac < ab && 0.0 < ad && 2.0 * (ad * ad) == ab * (ab + ac)
    ensures ab + ac < 2.0 * ad
  {
    var u := ab + ac;
    assert u * u < (2.0 * ad) * (2.0 * ad) by {
      MulPositive(u, 2.0 * ab - u);
    }
    if 2.0 * ad <= u {
      SquareLeq(2.0 * ad, u);
    }
  }

  /** From BD u = BC AD and u < 2 AD: 2 BD u = 2 BC AD > BC u. */
  lemma EdgeMoreThanHalf(bc: real, bd: real, ad: real, u: real)
    requires 0.0 < bc && 0.0 < u < 2.0 * ad && bd * u == bc * ad
    ensures 0.0 < bd && bc < 2.0 * bd
  {
    MulPositive(bc, 2.0 * ad - u);
    assert u * (2.0 * bd - bc) == bc * (2.0 * ad - u);
    NonNegativeFactor(2.0 * bd - bc, u);
    assert 2.0 * bd - bc != 0.0;
  }

  /** 2 AD^2 = AB (AB + AC) for the half-angle triangle of a right
      triangle over AB. */
  lemma HalfChordSquare(ab: real, ac: real, bc: real, ad: real, bd: real)
    requires 0.0 < bc && 0.0 <= ac < ab && ac * ac + bc * bc == ab * ab
    requires 0.0 < ad && ad * ad + bd * bd == ab * ab
    requires bd * (ab + ac) == bc * ad
    ensures 2.0 * (ad * ad) == ab * (ab + ac)
  {
    var u := ab + ac;
    var w := ab * u;
    assert (bd * u) * (bd * u) == (bc * ad) * (bc * ad);
    assert (bd * bd) * (u * u) == (bc * bc) * (ad * ad);
    assert (ab * ab - ad * ad) * (u * u) == (bc * bc) * (ad * ad);
    assert u * u + bc * bc == 2.0 * w;
    assert (ab * ab) * (u * u) == (ad * ad) * (2.0 * w);
    assert w * w == (2.0 * (ad * ad)) * w;
    MulPositive(ab, u);
    Cancel(w, 2.0 * (ad * ad), w);
  }

  /** x <= y for non-negative x, y gives x^2 <= y^2. */
  lemma SquareLeq(x: real, y: real)
    requires 0.0 <= x <= y
    ensures x * x <= y * y
  {
    if x < y {
      SquareLess(x, y);
    }
  }

  // ---------------------------------------------------------------------
  // The doubling loop
  // ---------------------------------------------------------------------

  /** `n = 6*2**i`, the number of edges on pass i. */
  function Sides(i: nat): (n: nat)
    ensures 6 <= n
  {
    if i == 0 then 6 else 2 * Sides(i - 1)
  }

  /** The reference: k half-angle passes one after the other. */
  function Chain(rt: Roots, t: Triangle, k: nat): (r: Result<Triangle>)
    requires rt.Valid()
    ensures r.Ok? ==> r.value.ab == t.ab
    ensures r.Err? ==> r.fault == DivisionByZero || r.fault == InvalidOperation
    decreases k
  {
    if k == 0 then Ok(t)
    else
      match HalfAngle(rt, t)
      case Err(f) => Err(f)
      case Ok(t') => Chain(rt, t', k - 1)
  }

  /** Thales' configuration survives any number of passes. */
  lemma {:induction false} ChainInscribed(rt: Roots, t: Triangle, k: nat)
    requires rt.Valid() && Inscribed(t)
    ensures Chain(rt, t, k).Ok? && Inscribed(Chain(rt, t, k).value)
    decreases k
  {
    if k > 0 {
      HalfAngleInscribed(rt, t);
      ChainInscribed(rt, HalfAngle(rt, t).value, k - 1);
    }
  }

  /** The hexagon start of the inner-polygon scripts: AB = 2, AC = sqrt(3),
      BC = 1. */
  function HexagonTriangle(rt: Roots): (t: Triangle)
    requires rt.Valid()
    ensures Inscribed(t) && t.ab == 2.0
  {
    SqrtThreeBounds(rt);
    Triangle(2.0, rt.sqrt(3.0), 1.0)
  }

  // ---------------------------------------------------------------------
  // The inner polygon with the monotone guard
  // ---------------------------------------------------------------------

  /** Every entry is above the one before it. */
  predicate Increasing(xs: seq<real>) {
    forall k :: 0 < k < |xs| ==> xs[k - 1] < xs[k]
  }

  /** The half perimeter `ac = (BD*n)/2` of the inscribed n-gon. */
  function HalfPerimeter(edge: real, n: nat): real {
    edge * (n as real) / 2.0
  }

  /** Passes i, ..., stop-1 (i >= 1) of `archimedes_inner_polygon` in the
      two original scripts, returning the values of `ac` the guard let
      through; `accepted` holds those of the earlier passes, the last one
      being `oldac`.  A value not above `oldac` restores `ac = oldac` and
      leaves the loop. */
  function GuardedLoop(rt: Roots, t: Triangle, i: nat, stop: int, accepted: seq<real>): (r: Result<seq<real>>)
    requires rt.Valid() && 1 <= i && 0 < |accepted|
    ensures r.Ok? ==> |accepted| <= |r.value| && r.value[..|accepted|] == accepted
    ensures r.Ok? && Increasing(accepted) ==> Increasing(r.value)
    ensures r.Ok? ==> |r.value| <= |accepted| + (if stop <= i then 0 else stop - i)
    ensures r.Err? ==> r.fault == DivisionByZero || r.fault == InvalidOperation
    decreases stop - i
  {
    if stop <= i then Ok(accepted)
    else
      match HalfAngle(rt, t)
      case Err(f) => Err(f)
      case Ok(t') =>
        var ac := HalfPerimeter(t'.bc, Sides(i));
        if ac <= accepted[|accepted| - 1] then Ok(accepted)
        else GuardedLoop(rt, t', i + 1, stop, accepted + [ac])
  }

  /** The two original `archimedes_inner_polygon(AB, AC, BC, iteration)`:
      pass 0 sets `ac = oldac = (BC*6)/2`; the result is the last value
      the guard accepted, so it is never below the first one.  A negative
      iteration count leaves `ac` unbound. */
  function InnerPolygonGuarded(rt: Roots, t: Triangle, iteration: int): (r: Result<real>)
    requires rt.Valid()
    ensures r == Err(UnboundLocal) <==> iteration < 0
    ensures r.Ok? ==> HalfPerimeter(t.bc, 6) <= r.value
    ensures r.Err? && 0 <= iteration ==> r.fault == DivisionByZero || r.fault == InvalidOperation
  {
    if iteration < 0 then Err(UnboundLocal)
    else
      match GuardedLoop(rt, t, 1, iteration + 1, [HalfPerimeter(t.bc, 6)])
      case Err(f) => Err(f)
      case Ok(trace) =>
        IncreasingLast(trace);
        Ok(trace[|trace| - 1])
  }

  /** The value `ac` that pass i + j of the loop computes when the loop
      stands at pass i with triangle t: the half perimeter after j + 1
      more half-angle passes, with 6*2^(i+j) edges. */
  function PassValue(rt: Roots, t: Triangle, i: nat, j: nat): Result<real>
    requires rt.Valid()
  {
    match Chain(rt, t, j + 1)
    case Err(f) => Err(f)
    case Ok(c) => Ok(HalfPerimeter(c.bc, Sides(i + j)))
  }

  /** `trace` extends `accepted` by the values of the passes i, i+1, ...
      in order, and if the loop left before pass stop-1, the pass right
      after the last accepted one computed a value not above it: the loop
      stopped at the first value that failed the guard. */
  predicate GuardedPasses(rt: Roots, t: Triangle, i: nat, stop: int, accepted: seq<real>, trace: seq<real>)
    requires rt.Valid() && 0 < |accepted|
  {
    && |accepted| <= |trace|
    && (forall j :: 0 <= j < |trace| - |accepted| ==> PassValue(rt, t, i, j) == Ok(trace[|accepted| + j]))
    && (i + (|trace| - |accepted|) < stop ==>
          PassValue(rt, t, i, |trace| - |accepted|).Ok?
          && PassValue(rt, t, i, |trace| - |accepted|).value <= trace[|trace| - 1])
  }

  /** One pass from t is the first pass of the chain. */
  lemma PassValueShift(rt: Roots, t: Triangle, t': Triangle, i: nat, j: nat)
    requires rt.Valid()
    ensures HalfAngle(rt, t) == Ok(t') ==>
      PassValue(rt, t, i, j + 1) == PassValue(rt, t', i + 1, j) && PassValue(rt, t, i, 0) == Ok(HalfPerimeter(t'.bc, Sides(i)))
  {
    if HalfAngle(rt, t) == Ok(t') {
      assert Chain(rt, t, j + 2) == Chain(rt, t', j + 1);
      assert Chain(rt, t, 1) == Chain(rt, t', 0);
      assert i + (j + 1) == (i + 1) + j;
    }
  }

  /** What a defined run of the guarded loop returns: the values of the
      passes it accepted, in order, after the earlier ones, and (when it
      left early) the pass that failed the guard right after them. */
  lemma {:induction false} GuardedLoopTrace(rt: Roots, t: Triangle, i: nat, stop: int, accepted: seq<real>)
    requires rt.Valid() && 1 <= i && 0 < |accepted|
    ensures GuardedLoop(rt, t, i, stop, accepted).Ok? ==>
      GuardedPasses(rt, t, i, stop, accepted, GuardedLoop(rt, t, i, stop, accepted).value)
    decreases stop - i
  {
    if i < stop && HalfAngle(rt, t).Ok? {
      var t' := HalfAngle(rt, t).value;
      var ac := HalfPerimeter(t'.bc, Sides(i));
      PassValueShift(rt, t, t', i, 0);
      if accepted[|accepted| - 1] < ac {
        var acc' := accepted + [ac];
        GuardedLoopTrace(rt, t', i + 1, stop, acc');
        var r := GuardedLoop(rt, t', i + 1, stop, acc');
        assert GuardedLoop(rt, t, i, stop, accepted) == r;
        if r.Ok? {
          var trace := r.value;
          assert trace[..|acc'|] == acc';
          assert trace[|accepted|] == ac;
          forall j | 0 <= j < |trace| - |accepted|
            ensures PassValue(rt, t, i, j) == Ok(trace[|accepted| + j])
          {
            if 0 < j {
              PassValueShift(rt, t, t', i, j - 1);
              assert |accepted| + j == |acc'| + (j - 1);
            }
          }
          var m := |trace| - |accepted|;
          if i + m < stop {
            PassValueShift(rt, t, t', i, m - 1);
            assert (i + 1) + (|trace| - |acc'|) < stop;
          }
        }
      }
    }
  }

  /** Once the guard has stopped the loop, a larger iteration count changes
      nothing: the later passes are never run. */
  lemma {:induction false} GuardedLoopIgnoresLater(rt: Roots, t: Triangle, i: nat, stop: int, stop': int, accepted: seq<real>)
    requires rt.Valid() && 1 <= i && 0 < |accepted|
    ensures (&& GuardedLoop(rt, t, i, stop, accepted).Ok?
             && i + (|GuardedLoop(rt, t, i, stop, accepted).value| - |accepted|) < stop <= stop') ==>
      GuardedLoop(rt, t, i, stop', accepted) == GuardedLoop(rt, t, i, stop, accepted)
    decreases stop - i
  {
    if i < stop <= stop' && HalfAngle(rt, t).Ok? {
      var t' := HalfAngle(rt, t).value;
      var ac := HalfPerimeter(t'.bc, Sides(i));
      if accepted[|accepted| - 1] < ac {
        var acc' := accepted + [ac];
        GuardedLoopIgnoresLater(rt, t', i + 1, stop, stop', acc');
        var r := GuardedLoop(rt, t', i + 1, stop, acc');
        if r.Ok? {
          assert |acc'| <= |r.value|;
          assert (i + 1) + (|r.value| - |acc'|) == i + (|r.value| - |accepted|);
        }
      }
    }
  }

  /** The result of the original scripts: the last value the guard let
      through, where the accepted values are those of passes 1, 2, ... up to
      the first pass whose value is not above its predecessor (whose value
      is dropped: `ac = oldac`). */
  lemma InnerPolygonGuardedIsLastAccepted(rt: Roots, t: Triangle, iteration: nat)
    requires rt.Valid()
    ensures var r := GuardedLoop(rt, t, 1, iteration + 1, [HalfPerimeter(t.bc, 6)]);
      r.Ok? ==>
        && GuardedPasses(rt, t, 1, iteration + 1, [HalfPerimeter(t.bc, 6)], r.value)
        && InnerPolygonGuarded(rt, t, iteration) == Ok(r.value[|r.value| - 1])
  {
    GuardedLoopTrace(rt, t, 1, iteration + 1, [HalfPerimeter(t.bc, 6)]);
  }

  /** The last entry of an increasing sequence is not below the first. */
  lemma {:induction false} IncreasingLast(xs: seq<real>)
    requires 0 < |xs| && Increasing(xs)
    ensures xs[0] <= xs[|xs| - 1]
    decreases |xs|
  {
    if 1 < |xs| {
      IncreasingLast(xs[..|xs| - 1]);
    }
  }

  /** Doubling n and passing to the half-angle triangle raises the half
      perimeter, from Thales' configuration. */
  lemma PerimeterGrows(rt: Roots, t: Triangle, i: nat)
    requires rt.Valid() && Inscribed(t) && 1 <= i
    ensures HalfAngle(rt, t).Ok?
    ensures HalfPerimeter(t.bc, Sides(i - 1)) < HalfPerimeter(HalfAngle(rt, t).value.bc, Sides(i))
  {
    HalfAngleInscribed(rt, t);
    var bd := HalfAngle(rt, t).value.bc;
    DoubledAbove(t.bc, bd, Sides(i - 1), Sides(i));
  }

  /** bc < 2 bd: the half perimeter with edge bd and twice the edges is
      larger. */
  lemma DoubledAbove(bc: real, bd: real, n: nat, n2: nat)
    requires 0 < n && n2 == 2 * n && bc < 2.0 * bd
    ensures HalfPerimeter(bc, n) < HalfPerimeter(bd, n2)
  {
    var m := n as real;
    DoubledEdge(m, bd, bc);
    assert HalfPerimeter(bc, n) == (bc * m) / 2.0;
    assert HalfPerimeter(bd, n2) == bd * m by {
      assert n2 as real == 2.0 * m;
    }
  }

  lemma DoubledEdge(m: real, bd: real, bc: real)
    requires 0.0 < m && bc < 2.0 * bd
    ensures bc * m < 2.0 * (bd * m)
  {
    MulPositive(m, 2.0 * bd - bc);
  }

  /** From Thales' configuration every pass is accepted: the loop adds one
      value per pass, the last one being the half perimeter of the final
      triangle. */
  lemma {:induction false} GuardedExact(rt: Roots, t: Triangle, i: nat, stop: int, accepted: seq<real>)
    requires rt.Valid() && Inscribed(t) && 1 <= i < stop && 0 < |accepted|
    requires accepted[|accepted| - 1] == HalfPerimeter(t.bc, Sides(i - 1))
    ensures GuardedLoop(rt, t, i, stop, accepted).Ok? && Chain(rt, t, stop - i).Ok?
    ensures |GuardedLoop(rt, t, i, stop, accepted).value| == |accepted| + (stop - i)
    ensures var trace := GuardedLoop(rt, t, i, stop, accepted).value;
      trace[|trace| - 1] == HalfPerimeter(Chain(rt, t, stop - i).value.bc, Sides(stop - 1))
    decreases stop - i
  {
    PerimeterGrows(rt, t, i);
    HalfAngleInscribed(rt, t);
    ChainInscribed(rt, t, stop - i);
    var t' := HalfAngle(rt, t).value;
    var ac := HalfPerimeter(t'.bc, Sides(i));
    assert Chain(rt, t, stop - i) == Chain(rt, t', stop - i - 1);
    assert GuardedLoop(rt, t, i, stop, accepted) == GuardedLoop(rt, t', i + 1, stop, accepted + [ac]);
    if i + 1 < stop {
      GuardedExact(rt, t', i + 1, stop, accepted + [ac]);
    }
  }

  /** Over exact reals the guard of the original scripts never fires from
      the hexagon (or any Thales) start: the result is the half perimeter
      of the 6*2^iteration-gon, the same as without the guard. */
  lemma GuardNeverFires(rt: Roots, t: Triangle, iteration: nat)
    requires rt.Valid() && Inscribed(t)
    ensures Chain(rt, t, iteration).Ok?
    ensures InnerPolygonGuarded(rt, t, iteration) == Ok(HalfPerimeter(Chain(rt, t, iteration).value.bc, Sides(iteration)))
  {
    ChainInscribed(rt, t, iteration);
    if 0 < iteration {
      GuardedExact(rt, t, 1, iteration + 1, [HalfPerimeter(t.bc, 6)]);
    }
  }

  // ---------------------------------------------------------------------
  // Inner and outer polygon together, and the outer polygon alone
  // ---------------------------------------------------------------------

  /** `(BD/AD)*n` = n BC/AC for a triangle ABC: with AB = 2 it is the half
      perimeter n tan(pi/n) of the circumscribed n-gon, never below the
      inscribed one's. */
  function OuterHalfPerimeter(t: Triangle, n: nat): (r: Result<real>)
    ensures r.Ok? <==> t.ac != 0.0
    ensures r.Err? ==> r.fault == (if t.bc == 0.0 then InvalidOperation else DivisionByZero)
    ensures r.Ok? ==> r.value * t.ac == t.bc * (n as real)
    ensures r.Ok? && 0.0 < t.ac <= 2.0 && 0.0 <= t.bc ==> HalfPerimeter(t.bc, n) <= r.value
  {
    match Div(t.bc, t.ac)
    case Err(f) => Err(f)
    case Ok(_) =>
      OuterAbove(t.bc, t.ac, n);
      Ok(t.bc / t.ac * (n as real))
  }

  /** bc n / ac >= bc n / 2 for 0 < ac <= 2 and bc >= 0. */
  lemma OuterAbove(bc: real, ac: real, n: nat)
    ensures ac != 0.0 ==> (bc / ac * (n as real)) * ac == bc * (n as real)
    ensures 0.0 < ac <= 2.0 && 0.0 <= bc ==> HalfPerimeter(bc, n) <= bc / ac * (n as real)
  {
    if ac != 0.0 {
      assert (bc / ac) * ac == bc;
      if 0.0 < ac <= 2.0 && 0.0 <= bc {
        var m := n as real;
        var x := bc / ac * m;
        QuotientNonNegative(bc, ac, bc / ac);
        MulNonNegative(bc / ac, m);
        assert x * ac == bc * m;
        MulNonNegative(x, 2.0 - ac);
        assert x * 2.0 - bc * m == x * (2.0 - ac);
      }
    }
  }

  /** `ac1` of pass 0 in `archimedes_inner_polygon` of the inner/outer
      script: `((2/3)*sqrt(3)*6)/2`, the hexagon's outer half perimeter
      2 sqrt(3), whatever the arguments. */
  function HexagonOuter(rt: Roots): real
    requires rt.Valid()
  {
    ((2.0 / 3.0) * rt.sqrt(3.0) * 6.0) / 2.0
  }

  /** `ac = (ac0 + ac1)/2` of a pass on the triangle c of the n-gon: the
      mean of the inner half perimeter `ac0 = (BD*n)/2` and the outer one
      `ac1 = (BD/AD)*n`, which for AB = 2 lies between the two. */
  function InnerOuterMean(c: Triangle, n: nat): (r: Result<real>)
    ensures r.Ok? <==> c.ac != 0.0
    ensures r.Err? ==> r.fault == DivisionByZero || r.fault == InvalidOperation
    ensures r.Ok? ==> 2.0 * r.value == HalfPerimeter(c.bc, n) + OuterHalfPerimeter(c, n).value
    ensures r.Ok? && 0.0 < c.ac <= 2.0 && 0.0 <= c.bc ==>
      HalfPerimeter(c.bc, n) <= r.value <= OuterHalfPerimeter(c, n).value
  {
    match OuterHalfPerimeter(c, n)
    case Err(f) => Err(f)
    case Ok(ac1) => Ok((HalfPerimeter(c.bc, n) + ac1) / 2.0)
  }

  /** Pass i of the inner/outer script: the triangle it leaves and its
      `ac`. */
  function InnerOuterPass(rt: Roots, t: Triangle, i: nat): (r: Result<(Triangle, real)>)
    requires rt.Valid()
    ensures r.Err? ==> r.fault == DivisionByZero || r.fault == InvalidOperation
    ensures i == 0 ==> r == Ok((t, (HalfPerimeter(t.bc, 6) + HexagonOuter(rt)) / 2.0))
    ensures 0 < i ==> (r.Ok? <==> HalfAngle(rt, t).Ok? && InnerOuterMean(HalfAngle(rt, t).value, Sides(i)).Ok?)
    ensures 0 < i && r.Ok? ==>
      r.value.0 == HalfAngle(rt, t).value && Ok(r.value.1) == InnerOuterMean(r.value.0, Sides(i))
  {
    if i == 0 then Ok((t, (HalfPerimeter(t.bc, 6) + HexagonOuter(rt)) / 2.0))
    else
      match HalfAngle(rt, t)
      case Err(f) => Err(f)
      case Ok(t') =>
        match InnerOuterMean(t', Sides(i))
        case Err(f) => Err(f)
        case Ok(ac) => Ok((t', ac))
  }

  /** Passes i, ..., stop-1; `ac` is the value of the last pass run. */
  function InnerOuterLoop(rt: Roots, t: Triangle, i: nat, stop: int, ac: Option<real>): (r: Result<Option<real>>)
    requires rt.Valid()
    ensures r.Ok? && i < stop ==> r.value.Some?
    ensures r.Ok? && stop <= i ==> r.value == ac
    ensures r.Err? ==> r.fault == DivisionByZero || r.fault == InvalidOperation
    decreases stop - i
  {
    if stop <= i then Ok(ac)
    else
      match InnerOuterPass(rt, t, i)
      case Err(f) => Err(f)
      case Ok((t', a)) => InnerOuterLoop(rt, t', i + 1, stop, Some(a))
  }

  /** `archimedes_inner_polygon(AB, AC, BC, iteration)` of the inner/outer
      script. */
  function InnerOuterPolygon(rt: Roots, t: Triangle, iteration: int): (r: Result<real>)
    requires rt.Valid()
    ensures iteration < 0 ==> r == Err(UnboundLocal)
    ensures 0 <= iteration ==> r != Err(UnboundLocal)
  {
    match InnerOuterLoop(rt, t, 0, iteration + 1, None)
    case Err(f) => Err(f)
    case Ok(None) => Err(UnboundLocal)
    case Ok(Some(a)) => Ok(a)
  }

  /** From pass 1 on under Thales' configuration, the loop ends with the
      mean of the triangle after stop - i passes. */
  lemma {:induction false} InnerOuterLoopIsChain(rt: Roots, t: Triangle, i: nat, stop: int, ac: Option<real>)
    requires rt.Valid() && Inscribed(t) && 1 <= i < stop
    ensures Chain(rt, t, stop - i).Ok?
    ensures InnerOuterMean(Chain(rt, t, stop - i).value, Sides(stop - 1)).Ok?
    ensures InnerOuterLoop(rt, t, i, stop, ac) ==
      Ok(Some(InnerOuterMean(Chain(rt, t, stop - i).value, Sides(stop - 1)).value))
    decreases stop - i
  {
    ChainInscribed(rt, t, stop - i);
    HalfAngleInscribed(rt, t);
    var t' := HalfAngle(rt, t).value;
    assert Chain(rt, t, stop - i) == Chain(rt, t', stop - i - 1);
    var p := InnerOuterPass(rt, t, i);
    assert p.Ok? && p.value.0 == t';
    assert InnerOuterLoop(rt, t, i, stop, ac) == InnerOuterLoop(rt, t', i + 1, stop, Some(p.value.1));
    if i + 1 < stop {
      InnerOuterLoopIsChain(rt, t', i + 1, stop, Some(p.value.1));
    }
  }

  /** The inner/outer script as a formula: after the hexagon pass the mean
      of its two half perimeters, after `iteration >= 1` passes the mean of
      those of the 6*2^iteration-gon, which lies between them for AB = 2. */
  lemma InnerOuterExact(rt: Roots, t: Triangle, iteration: nat)
    requires rt.Valid() && Inscribed(t)
    ensures iteration == 0 ==> InnerOuterPolygon(rt, t, 0) == Ok((HalfPerimeter(t.bc, 6) + HexagonOuter(rt)) / 2.0)
    ensures Chain(rt, t, iteration).Ok?
    ensures var c := Chain(rt, t, iteration).value;
      0 < iteration ==> InnerOuterPolygon(rt, t, iteration) == InnerOuterMean(c, Sides(iteration))
    ensures var c := Chain(rt, t, iteration).value;
      0 < iteration && t.ab == 2.0 ==>
        InnerOuterPolygon(rt, t, iteration).Ok? &&
        HalfPerimeter(c.bc, Sides(iteration)) <= InnerOuterPolygon(rt, t, iteration).value <= OuterHalfPerimeter(c, Sides(iteration)).value
  {
    ChainInscribed(rt, t, iteration);
    if 0 < iteration {
      var p := InnerOuterPass(rt, t, 0);
      assert InnerOuterLoop(rt, t, 0, iteration + 1, None) == InnerOuterLoop(rt, t, 1, iteration + 1, Some(p.value.1));
      InnerOuterLoopIsChain(rt, t, 1, iteration + 1, Some(p.value.1));
    } else {
      var p := InnerOuterPass(rt, t, 0);
      assert InnerOuterLoop(rt, t, 0, 1, None) == InnerOuterLoop(rt, t, 1, 1, Some(p.value.1));
    }
  }

  /** Passes i, ..., stop-1 of `outer_from_inner_polygon`: pass 0 takes
      `ac = (BC/AC)*n` of the start triangle, every later pass the same
      ratio of the half-angle triangle. */
  function OuterFromInnerLoop(rt: Roots, t: Triangle, i: nat, stop: int, ac: Option<real>): (r: Result<Option<real>>)
    requires rt.Valid()
    ensures r.Ok? && i < stop ==> r.value.Some?
    ensures r.Ok? && stop <= i ==> r.value == ac
    ensures r.Err? ==> r.fault == DivisionByZero || r.fault == InvalidOperation
    decreases stop - i
  {
    if stop <= i then Ok(ac)
    else
      match (if i == 0 then Ok(t) else HalfAngle(rt, t))
      case Err(f) => Err(f)
      case Ok(t') =>
        match OuterHalfPerimeter(t', Sides(i))
        case Err(f) => Err(f)
        case Ok(a) => OuterFromInnerLoop(rt, t', i + 1, stop, Some(a))
  }

  /** `outer_from_inner_polygon(AB, AC, BC, iteration)`. */
  function OuterFromInnerPolygon(rt: Roots, t: Triangle, iteration: int): (r: Result<real>)
    requires rt.Valid()
    ensures iteration < 0 ==> r == Err(UnboundLocal)
    ensures 0 <= iteration ==> r != Err(UnboundLocal)
  {
    match OuterFromInnerLoop(rt, t, 0, iteration + 1, None)
    case Err(f) => Err(f)
    case Ok(None) => Err(UnboundLocal)
    case Ok(Some(a)) => Ok(a)
  }

  lemma {:induction false} OuterFromInnerLoopIsChain(rt: Roots, t: Triangle, i: nat, stop: int, ac: Option<real>)
    requires rt.Valid() && Inscribed(t) && 1 <= i < stop
    ensures Chain(rt, t, stop - i).Ok?
    ensures OuterHalfPerimeter(Chain(rt, t, stop - i).value, Sides(stop - 1)).Ok?
    ensures OuterFromInnerLoop(rt, t, i, stop, ac) ==
      Ok(Some(OuterHalfPerimeter(Chain(rt, t, stop - i).value, Sides(stop - 1)).value))
    decreases stop - i
  {
    ChainInscribed(rt, t, stop - i);
    HalfAngleInscribed(rt, t);
    var t' := HalfAngle(rt, t).value;
    assert Chain(rt, t, stop - i) == Chain(rt, t', stop - i - 1);
    var a := OuterHalfPerimeter(t', Sides(i));
    assert a.Ok?;
    assert OuterFromInnerLoop(rt, t, i, stop, ac) == OuterFromInnerLoop(rt, t', i + 1, stop, Some(a.value));
    if i + 1 < stop {
      OuterFromInnerLoopIsChain(rt, t', i + 1, stop, Some(a.value));
    }
  }

  /** The outer-from-inner script as a formula: n BC/AC of the triangle
      after `iteration` passes, n = 6*2^iteration, never below the inner
      half perimeter for AB = 2. */
  lemma OuterFromInnerExact(rt: Roots, t: Triangle, iteration: nat)
    requires rt.Valid() && Inscribed(t)
    ensures Chain(rt, t, iteration).Ok?
    ensures OuterFromInnerPolygon(rt, t, iteration) == OuterHalfPerimeter(Chain(rt, t, iteration).value, Sides(iteration))
    ensures var c := Chain(rt, t, iteration).value;
      t.ab == 2.0 ==>
        OuterFromInnerPolygon(rt, t, iteration).Ok? &&
        HalfPerimeter(c.bc, Sides(iteration)) <= OuterFromInnerPolygon(rt, t, iteration).value
  {
    ChainInscribed(rt, t, iteration);
    var a := OuterHalfPerimeter(t, Sides(0));
    assert a.Ok?;
    assert OuterFromInnerLoop(rt, t, 0, iteration + 1, None) == OuterFromInnerLoop(rt, t, 1, iteration + 1, Some(a.value));
    if 0 < iteration {
      OuterFromInnerLoopIsChain(rt, t, 1, iteration + 1, Some(a.value));
    }
  }

  // ---------------------------------------------------------------------
  // The circumscribed polygon: the triangle OAC
  // ---------------------------------------------------------------------

  /** The inradius OA, the circumradius OC and the half edge AC of the
      circumscribed n-gon. */
  datatype Tangent = Tangent(oa: real, oc: real, ac: real)

  /** OAC is a right triangle at A with positive sides. */
  predicate Circumscribed(o: Tangent) {
    && 0.0 < o.oa && 0.0 < o.ac && 0.0 < o.oc
    && o.oc * o.oc == o.oa * o.oa + o.ac * o.ac
  }

  /** One pass of `archimedes_outer_polygon`: `AD = AC*OA/(OA + OC)` (the
      bisector of the angle at O cuts AC in the ratio OA : OC) and
      `OD = sqrt(OA**2 + AD**2)`; the script stores `AC = AD`, `OC = OD` and
      never assigns OA.  Only the division can trap. */
  function Bisect(rt: Roots, o: Tangent): (r: Result<Tangent>)
    requires rt.Valid()
    ensures r.Ok? <==> o.oa + o.oc != 0.0
    ensures r.Err? ==> r.fault == (if o.ac * o.oa == 0.0 then InvalidOperation else DivisionByZero)
    ensures r.Ok? ==> r.value.oa == o.oa
    ensures r.Ok? ==> r.value.ac * (o.oa + o.oc) == o.ac * o.oa
    ensures r.Ok? ==> 0.0 <= r.value.oc && r.value.oc * r.value.oc == o.oa * o.oa + r.value.ac * r.value.ac
  {
    match Div(o.ac * o.oa, o.oa + o.oc)
    case Err(f) => Err(f)
    case Ok(_) =>
      var ad := o.ac * o.oa / (o.oa + o.oc);
      SquareNonNegative(o.oa);
      SquareNonNegative(ad);
      match Sqrt(rt, o.oa * o.oa + ad * ad)
      case Err(f) => Err(f)
      case Ok(_) => Ok(Tangent(o.oa, rt.sqrt(o.oa * o.oa + ad * ad), ad))
  }

  /** From a right triangle OAC a pass gives one again, with a shorter half
      edge, 0 < AD < AC, and a circumradius between the inradius and the
      old one, OA < OD < OC. */
  lemma BisectCircumscribed(rt: Roots, o: Tangent)
    requires rt.Valid() && Circumscribed(o)
    ensures Bisect(rt, o).Ok?
    ensures Circumscribed(Bisect(rt, o).value)
    ensures 0.0 < Bisect(rt, o).value.ac < o.ac
    ensures o.oa < Bisect(rt, o).value.oc < o.oc
  {
    var o' := Bisect(rt, o).value;
    BisectorShorter(o.oa, o.oc, o.ac, o'.ac);
    HypotenuseBetween(o.oa, o.oc, o.ac, o'.oc, o'.ac);
  }

  /** AD (OA + OC) = AC OA with positive sides gives 0 < AD < AC. */
  lemma BisectorShorter(oa: real, oc: real, ac: real, ad: real)
    requires 0.0 < oa && 0.0 < oc && 0.0 < ac && ad * (oa + oc) == ac * oa
    ensures 0.0 < ad < ac
  {
    MulPositive(ac, oa);
    SignFromProductPositive(ad, oa + oc);
    assert (ac - ad) * (oa + oc) == ac * oc;
    MulPositive(ac, oc);
    SignFromProductPositive(ac - ad, oa + oc);
  }

  lemma SumBelow(a: real, x: real, y: real, u: real, v: real)
    requires 0.0 < x < y && u == a + x && v == a + y
    ensures a < u < v
  {
  }

  /** A product positive against a positive factor has a positive other
      factor. */
  lemma SignFromProductPositive(u: real, v: real)
    requires 0.0 < v && 0.0 < u * v
    ensures 0.0 < u
  {
    NonNegativeFactor(u, v);
  }

  /** OD^2 = OA^2 + AD^2 with 0 < AD < AC and OC^2 = OA^2 + AC^2 puts OD
      strictly between OA and OC. */
  lemma HypotenuseBetween(oa: real, oc: real, ac: real, od: real, ad: real)
    requires 0.0 < oa && 0.0 < oc && 0.0 < ad < ac && 0.0 <= od
    requires oc * oc == oa * oa + ac * ac && od * od == oa * oa + ad * ad
    ensures oa < od < oc
  {
    SquarePositive(ad);
    SquareLess(ad, ac);
    SumBelow(oa * oa, Square(ad), ac * ac, od * od, oc * oc);
    if od <= oa {
      SquareLeq(od, oa);
    }
    if oc <= od {
      SquareLeq(oc, od);
    }
  }

  /** The reference: k bisector passes one after the other. */
  function BisectChain(rt: Roots, o: Tangent, k: nat): (r: Result<Tangent>)
    requires rt.Valid()
    ensures r.Ok? ==> r.value.oa == o.oa
    ensures r.Err? ==> r.fault == DivisionByZero || r.fault == InvalidOperation
    decreases k
  {
    if k == 0 then Ok(o)
    else
      match Bisect(rt, o)
      case Err(f) => Err(f)
      case Ok(o') => BisectChain(rt, o', k - 1)
  }

  /** The right triangle survives any number of passes, and the half edge
      only shrinks. */
  lemma {:induction false} BisectChainCircumscribed(rt: Roots, o: Tangent, k: nat)
    requires rt.Valid() && Circumscribed(o)
    ensures BisectChain(rt, o, k).Ok? && Circumscribed(BisectChain(rt, o, k).value)
    ensures BisectChain(rt, o, k).value.ac <= o.ac
    decreases k
  {
    if k > 0 {
      BisectCircumscribed(rt, o);
      BisectChainCircumscribed(rt, Bisect(rt, o).value, k - 1);
    }
  }

  /** Passes i, ..., stop-1; pass 0 takes `AD = AC`, `OD = OC` as they
      are. */
  function OuterLoop(rt: Roots, o: Tangent, i: nat, stop: int): (r: Result<Tangent>)
    requires rt.Valid()
    ensures r.Err? ==> r.fault == DivisionByZero || r.fault == InvalidOperation
    decreases stop - i
  {
    if stop <= i then Ok(o)
    else
      match (if i == 0 then Ok(o) else Bisect(rt, o))
      case Err(f) => Err(f)
      case Ok(o') => OuterLoop(rt, o', i + 1, stop)
  }

  lemma {:induction false} OuterLoopIsChain(rt: Roots, o: Tangent, i: nat, stop: int)
    requires rt.Valid() && 1 <= i <= stop
    ensures OuterLoop(rt, o, i, stop) == BisectChain(rt, o, stop - i)
    decreases stop - i
  {
    if i < stop {
      match Bisect(rt, o)
      case Err(_) =>
      case Ok(o') => OuterLoopIsChain(rt, o', i + 1, stop);
    }
  }

  /** `ac = (1/r + 1/OD)*(AD/2)*n`: the mean of the outer half perimeter
      n AD/r and the inner one n AD/OD, lying between them when
      0 < r <= OD. */
  function TwoBoundMean(r: real, od: real, ad: real, n: nat): (ac: Result<real>)
    ensures ac.Ok? <==> r != 0.0 && od != 0.0
    ensures ac.Err? ==> ac.fault == DivisionByZero
    ensures ac.Ok? ==> ac.value == ((n as real) * ad / r + (n as real) * ad / od) / 2.0
  {
    match Div(1.0, r)
    case Err(f) => Err(f)
    case Ok(_) =>
      match Div(1.0, od)
      case Err(f) => Err(f)
      case Ok(_) =>
        MeanOfReciprocals(r, od, ad, n as real);
        Ok((1.0 / r + 1.0 / od) * (ad / 2.0) * (n as real))
  }

  lemma MeanOfReciprocals(r: real, od: real, ad: real, m: real)
    requires r != 0.0 && od != 0.0
    ensures (1.0 / r + 1.0 / od) * (ad / 2.0) * m == (m * ad / r + m * ad / od) / 2.0
    ensures 0.0 < r <= od && 0.0 <= ad && 0.0 <= m ==>
      m * ad / od <= (m * ad / r + m * ad / od) / 2.0 <= m * ad / r
  {
    if 0.0 < r <= od && 0.0 <= ad && 0.0 <= m {
      MulNonNegative(m, ad);
      ReciprocalOrder(m * ad, r, od);
    }
  }

  /** x/od <= x/r for x >= 0 and 0 < r <= od. */
  lemma ReciprocalOrder(x: real, r: real, od: real)
    requires 0.0 <= x && 0.0 < r <= od
    ensures x / od <= x / r
  {
    var p, q := x / od, x / r;
    assert p * od == x && q * r == x;
    QuotientNonNegative(x, r, q);
    MulNonNegative(q, od - r);
    assert q * od - x == q * (od - r);
    if q < p {
      MulPositive(p - q, od);
    }
  }

  /** `archimedes_outer_polygon(OA, OC, AC, iteration)`.  The closing
      expression is evaluated after the loop and from the left: `1/r`
      first, so with no pass run a zero OA traps before the unbound OD is
      read. */
  function OuterPolygon(rt: Roots, o: Tangent, iteration: int): (r: Result<real>)
    requires rt.Valid()
    ensures iteration < 0 ==> r == Err(if o.oa == 0.0 then DivisionByZero else UnboundLocal)
    ensures 0 <= iteration ==> r != Err(UnboundLocal)
  {
    match OuterLoop(rt, o, 0, iteration + 1)
    case Err(f) => Err(f)
    case Ok(last) =>
      if iteration < 0 then
        match Div(1.0, o.oa)
        case Err(f) => Err(f)
        case Ok(_) => Err(UnboundLocal)
      else
        TwoBoundMean(o.oa, last.oc, last.ac, Sides(iteration))
  }

  /** The outer-polygon script as a formula: the mean of the two half
      perimeters of the triangle after `iteration` passes. */
  lemma OuterPolygonIsChain(rt: Roots, o: Tangent, iteration: nat)
    requires rt.Valid()
    ensures BisectChain(rt, o, iteration).Ok? ==>
      OuterPolygon(rt, o, iteration) == TwoBoundMean(o.oa, BisectChain(rt, o, iteration).value.oc,
                                                     BisectChain(rt, o, iteration).value.ac, Sides(iteration))
  {
    assert OuterLoop(rt, o, 0, iteration + 1) == OuterLoop(rt, o, 1, iteration + 1);
    OuterLoopIsChain(rt, o, 1, iteration + 1);
  }

  /** From a right triangle the script never traps: the closing mean sees
      the final triangle with 0 < AD and OA < OD, where TwoBoundMeanBetween
      puts it between the inner and the outer half perimeter of the
      6*2^iteration-gon. */
  lemma OuterPolygonBetween(rt: Roots, o: Tangent, iteration: nat, c: Tangent)
    requires rt.Valid() && Circumscribed(o) && BisectChain(rt, o, iteration) == Ok(c)
    ensures 0.0 < c.ac && o.oa < c.oc
    ensures OuterPolygon(rt, o, iteration) == TwoBoundMean(o.oa, c.oc, c.ac, Sides(iteration))
    ensures OuterPolygon(rt, o, iteration).Ok?
  {
    ChainAboveInradius(rt, o, iteration);
    OuterPolygonIsChain(rt, o, iteration);
  }

  /** After any number of passes: 0 < AD and OA < OD. */
  lemma ChainAboveInradius(rt: Roots, o: Tangent, k: nat)
    requires rt.Valid() && Circumscribed(o)
    ensures BisectChain(rt, o, k).Ok?
    ensures 0.0 < BisectChain(rt, o, k).value.ac && o.oa < BisectChain(rt, o, k).value.oc
  {
    BisectChainCircumscribed(rt, o, k);
    TangentAbove(BisectChain(rt, o, k).value);
  }

  /** In the right triangle OAC the hypotenuse OC is longer than OA. */
  lemma TangentAbove(c: Tangent)
    requires Circumscribed(c)
    ensures c.oa < c.oc
  {
    HypotenuseAbove(c.oa, c.oc, c.ac);
  }

  /** For 0 < r <= OD the mean lies between the inner half perimeter
      n AD/OD and the outer one n AD/r. */
  lemma TwoBoundMeanBetween(r: real, od: real, ad: real, n: nat)
    requires 0.0 < r <= od && 0.0 <= ad
    ensures TwoBoundMean(r, od, ad, n).Ok?
    ensures (n as real) * ad / od <= TwoBoundMean(r, od, ad, n).value <= (n as real) * ad / r
  {
    MeanOfReciprocals(r, od, ad, n as real);
  }

  /** The hypotenuse is longer than the leg OA. */
  lemma HypotenuseAbove(oa: real, oc: real, ac: real)
    requires 0.0 < oa && 0.0 < ac && 0.0 < oc && oc * oc == oa * oa + ac * ac
    ensures oa < oc
  {
    SquarePositive(ac);
    if oc <= oa {
      SquareLeq(oc, oa);
    }
  }

  /** The hexagon start: `OA = 1`, `OC = OA*(2/3)*sqrt(3)`,
      `AC = OA/sqrt(3)`. */
  function OuterHexagon(rt: Roots): (o: Tangent)
    requires rt.Valid()
    ensures Circumscribed(o) && o.oa == 1.0
  {
    SqrtThreeBounds(rt);
    var s := rt.sqrt(3.0);
    HexagonSides(s);
    Tangent(1.0, 1.0 * (2.0 / 3.0) * s, 1.0 / s)
  }

  lemma HexagonSides(s: real)
    requires 1.5 < s && s * s == 3.0
    ensures (1.0 * (2.0 / 3.0) * s) * (1.0 * (2.0 / 3.0) * s) == 1.0 * 1.0 + (1.0 / s) * (1.0 / s)
  {
    var a := 1.0 / s;
    assert a * s == 1.0;
    assert (a * a) * (s * s) == 1.0;
    assert a * a == 1.0 / 3.0;
  }
}
