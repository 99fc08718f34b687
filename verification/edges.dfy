/**
 The module-level edge-doubling script: the side s_n of the regular n-gon
 inscribed in the unit circle and the side S_n of the circumscribed one,
 doubled from the hexagon (s_6 = 1, S_6 = 2/3 * sqrt(3)) pass by pass.

 A pass replaces the inner side by s_2n = sqrt(2 - sqrt(4 - s_n^2)) and
 derives the outer side from it, S_2n = s_2n / sqrt(1 - (s_2n / 2)^2); the
 old outer side is never read.  Pass 0 only copies the start values.  The
 script closes with (S_2n + s_2n) * n / 4, the mean of the two half
 perimeters n * S_2n / 2 and n * s_2n / 2.
 */
module Edges {
  import opened Exact
  import Polygons

  /** The outer (circumscribed) and inner (inscribed) side lengths. */
  datatype Edges = Edges(outer: real, inner: real)

  /** One doubling pass from the inner side `sn`.  Only the first square
      root can trap: 4 - sn^2 < 0 exactly when |sn| > 2. */
  function EdgeStep(rt: Roots, sn: real): (r: Result<Edges>)
    requires rt.Valid()
    ensures r.Ok? <==> -2.0 <= sn <= 2.0
    ensures r.Err? ==> r.fault == InvalidOperation
    ensures r.Ok? ==> 0.0 <= r.value.inner <= r.value.outer
    ensures r.Ok? ==> r.value.inner < 1.5
  {
    var d := 4.0 - sn * sn;
    WithinDiameter(sn);
    match Sqrt(rt, d)
    case Err(f) => Err(f)
    case Ok(t) =>
      match Sqrt(rt, 2.0 - t)
      case Err(f) => Err(f)
      case Ok(s) =>
        InnerBounds(d, t, s);
        var c := 1.0 - (s / 2.0) * (s / 2.0);
        match Sqrt(rt, c)
        case Err(f) => Err(f)
        case Ok(w) =>
          SqrtPositive(rt, c);
          match Div(s, w)
          case Err(f) => Err(f)
          case Ok(v) =>
            TangentEdge(s, w, c, v);
            Ok(Edges(v, s))
  }

  lemma WithinDiameter(x: real)
    ensures 0.0 <= 4.0 - x * x <==> -2.0 <= x <= 2.0
  {
    if 2.0 < x {
      SquareLess(2.0, x);
    } else if x < -2.0 {
      SquareLess(2.0, -x);
    } else if 0.0 <= x < 2.0 {
      SquareLess(x, 2.0);
    } else if -2.0 < x < 0.0 {
      SquareLess(-x, 2.0);
    }
  }

  /** The square roots inside a pass stay in range once 4 - s_n^2 >= 0. */
  lemma InnerBounds(d: real, t: real, s: real)
    requires d <= 4.0 && 0.0 <= t && t * t == d
    ensures t <= 2.0
    ensures 0.0 <= 2.0 - t
    ensures 0.0 <= s && s * s == 2.0 - t ==>
      s < 1.5 && 0.5 <= 1.0 - (s / 2.0) * (s / 2.0)
  {
    if 2.0 < t {
      SquareLess(2.0, t);
    }
    if 1.5 <= s {
      MulNonNegative(s - 1.5, s + 1.5);
    }
  }

  /** Dividing by the cosine-like factor w in (0, 1] does not shrink. */
  lemma TangentEdge(s: real, w: real, c: real, v: real)
    requires 0.0 <= s && 0.0 < w && w * w == c && c <= 1.0 && v * w == s
    ensures s <= v
  {
    if 1.0 < w {
      SquareLess(1.0, w);
    }
    NonNegativeFactor(v, w);
    MulNonNegative(v, 1.0 - w);
  }

  /** A defined pass computes s = sqrt(2 - sqrt(4 - s_n^2)) and
      S = s / sqrt(1 - (s / 2)^2); the outer side is the tangent of the half
      angle of which s is the chord. */
  lemma EdgeStepValues(rt: Roots, sn: real)
    requires rt.Valid() && -2.0 <= sn <= 2.0
    ensures var e := EdgeStep(rt, sn).value;
      && e.inner * e.inner == 2.0 - rt.sqrt(4.0 - sn * sn)
      && e.outer * rt.sqrt(1.0 - (e.inner / 2.0) * (e.inner / 2.0)) == e.inner
  {
    WithinDiameter(sn);
    var t := rt.sqrt(4.0 - sn * sn);
    InnerBounds(4.0 - sn * sn, t, rt.sqrt(2.0 - t));
    var e := EdgeStep(rt, sn).value;
    assert e.inner == rt.sqrt(2.0 - t);
  }

  /** The half-chord identity: the new inner side s satisfies
      s^2 * (4 - s^2) = s_n^2, the relation between the chords of an angle
      and of its half in the unit circle. */
  lemma EdgeStepHalfChord(rt: Roots, sn: real)
    requires rt.Valid() && -2.0 <= sn <= 2.0
    ensures EdgeStep(rt, sn).Ok?
    ensures var s := EdgeStep(rt, sn).value.inner;
      (s * s) * (4.0 - s * s) == sn * sn
  {
    EdgeStepValues(rt, sn);
    WithinDiameter(sn);
    var t := rt.sqrt(4.0 - sn * sn);
    HalfChordProduct(EdgeStep(rt, sn).value.inner, t, sn * sn);
  }

  lemma HalfChordProduct(s: real, t: real, p: real)
    requires s * s == 2.0 - t && t * t == 4.0 - p
    ensures (s * s) * (4.0 - s * s) == p
  {
    assert (2.0 - t) * (2.0 + t) == 4.0 - t * t;
  }

  /** For 0 < s_n < 2 a pass is defined and strictly shortens the inner
      side, so 0 < s < 2 holds for every later pass. */
  lemma EdgeStepShrinks(rt: Roots, sn: real)
    requires rt.Valid() && 0.0 < sn < 2.0
    ensures EdgeStep(rt, sn).Ok?
    ensures 0.0 < EdgeStep(rt, sn).value.inner < sn
  {
    EdgeStepHalfChord(rt, sn);
    var s := EdgeStep(rt, sn).value.inner;
    ShorterSide(s, sn);
  }

  lemma ShorterSide(s: real, sn: real)
    requires 0.0 <= s < 1.5 && 0.0 < sn && (s * s) * (4.0 - s * s) == sn * sn
    ensures 0.0 < s < sn
  {
    SquareLess(s, 1.5);
    SquarePositive(s);
    SquarePositive(sn);
    ShorterSquare(Square(s), Square(sn));
    if sn < s {
      SquareLess(sn, s);
    }
  }

  /** q (4 - q) = p > 0 with q < 3 forces 0 < q < p. */
  lemma ShorterSquare(q: real, p: real)
    requires 0.0 <= q < 3.0 && 0.0 < p && q * (4.0 - q) == p
    ensures 0.0 < q < p
  {
    if 0.0 < q {
      MulPositive(q, 3.0 - q);
    }
  }

  /** The inner side of the edge script is the half-angle chord BD of the
      triangle script: on a circle of diameter AB = 2 both passes compute the
      same new inscribed side. */
  lemma EdgeStepIsHalfAngle(rt: Roots, t: Polygons.Triangle)
    requires rt.Valid() && Polygons.Inscribed(t) && t.ab == 2.0
    ensures EdgeStep(rt, t.bc).Ok?
    ensures Polygons.HalfAngle(rt, t).Ok?
    ensures EdgeStep(rt, t.bc).value.inner == Polygons.HalfAngle(rt, t).value.bc
  {
    InnerSideFromLeg(rt, t.ac, t.bc);
    HalfAngleChord(rt, t);
  }

  /** On the diameter 2 the half-angle pass gives BD = sqrt(2 - AC). */
  lemma HalfAngleChord(rt: Roots, t: Polygons.Triangle)
    requires rt.Valid() && Polygons.Inscribed(t) && t.ab == 2.0
    ensures Polygons.HalfAngle(rt, t).Ok?
    ensures Polygons.HalfAngle(rt, t).value.bc == rt.sqrt(2.0 - t.ac)
  {
    Polygons.HalfAngleInscribed(rt, t);
    var h := Polygons.HalfAngle(rt, t).value;
    ChordOfHalfAngle(rt, t.ac, t.bc, h.ac, h.bc);
  }

  /** On the diameter 2 the pass from the leg BC gives sqrt(2 - AC). */
  lemma InnerSideFromLeg(rt: Roots, ac: real, bc: real)
    requires rt.Valid() && Polygons.Inscribed(Polygons.Triangle(2.0, ac, bc))
    ensures EdgeStep(rt, bc).Ok?
    ensures EdgeStep(rt, bc).value.inner == rt.sqrt(2.0 - ac)
  {
    DiameterSides(ac, bc);
    SqrtOfSquare(rt, ac);
    assert rt.sqrt(4.0 - bc * bc) == ac;
  }

  /** Thales' triangle on the diameter 2 with a leg BC of at most 2. */
  lemma DiameterSides(ac: real, bc: real)
    requires 0.0 < bc && 0.0 < ac < 2.0 && ac * ac + bc * bc == 2.0 * 2.0
    ensures -2.0 <= bc <= 2.0 && 4.0 - bc * bc == ac * ac
  {
    MulPositive(ac, ac);
    WithinDiameter(bc);
  }

  /** BD^2 = 2 - AC on the diameter 2. */
  lemma ChordOfHalfAngle(rt: Roots, ac: real, bc: real, ad: real, bd: real)
    requires rt.Valid()
    requires Polygons.Inscribed(Polygons.Triangle(2.0, ac, bc))
    requires Polygons.Inscribed(Polygons.Triangle(2.0, ad, bd))
    requires bd * (2.0 + ac) == bc * ad
    ensures bd == rt.sqrt(2.0 - ac)
  {
    Polygons.HalfChordSquare(2.0, ac, bc, ad, bd);
    assert bd * bd == 2.0 - ac;
    SqrtOfSquare(rt, bd);
  }

  /** Pass `i` of the script's loop: pass 0 keeps the start values. */
  function EdgePass(rt: Roots, e: Edges, i: nat): (r: Result<Edges>)
    requires rt.Valid()
    ensures i == 0 ==> r == Ok(e)
    ensures 0 < i ==> r == EdgeStep(rt, e.inner)
  {
    if i == 0 then Ok(e) else EdgeStep(rt, e.inner)
  }

  /** The reference: k doubling passes, the first one outermost. */
  function Doubling(rt: Roots, e: Edges, k: nat): (r: Result<Edges>)
    requires rt.Valid()
    decreases k
    ensures r.Ok? <==> k == 0 || -2.0 <= e.inner <= 2.0
    ensures r.Err? ==> r.fault == InvalidOperation
    ensures r.Ok? && 0 < k ==> 0.0 <= r.value.inner <= r.value.outer
    ensures r.Ok? && 0 < k ==> r.value.inner < 1.5
  {
    if k == 0 then Ok(e)
    else
      match EdgeStep(rt, e.inner)
      case Err(f) => Err(f)
      case Ok(e') => Doubling(rt, e', k - 1)
  }

  /** `for i in range(i, stop)` over the doubling passes. */
  function EdgesLoop(rt: Roots, e: Edges, i: nat, stop: int): (r: Result<Edges>)
    requires rt.Valid()
    decreases stop - i
  {
    if stop <= i then Ok(e)
    else
      match EdgePass(rt, e, i)
      case Err(f) => Err(f)
      case Ok(e') => EdgesLoop(rt, e', i + 1, stop)
  }

  /** From pass 1 on, the loop is the reference doubling. */
  lemma {:induction false} EdgesLoopIsDoubling(rt: Roots, e: Edges, i: nat, stop: nat)
    requires rt.Valid() && 1 <= i <= stop
    ensures EdgesLoop(rt, e, i, stop) == Doubling(rt, e, stop - i)
    decreases stop - i
  {
    if i < stop {
      match EdgeStep(rt, e.inner)
      case Err(f) =>
      case Ok(e') => EdgesLoopIsDoubling(rt, e', i + 1, stop);
    }
  }

  /** The start values for radius `r`: S_6 = r * 2/3 * sqrt(3), s_6 = r. */
  function EdgesStart(rt: Roots, r: real): (e: Edges)
    requires rt.Valid()
    ensures 0.0 < r ==> 0.0 < e.inner < e.outer
  {
    SqrtThreeBounds(rt);
    var e := Edges(r * (2.0 / 3.0) * rt.sqrt(3.0), r);
    assert 0.0 < r ==> r * 1.0 < r * ((2.0 / 3.0) * rt.sqrt(3.0)) by {
      if 0.0 < r { MulPositive(r, (2.0 / 3.0) * rt.sqrt(3.0) - 1.0); }
    }
    e
  }

  /** `(S2n + s2n) * n / 4`. */
  function EdgeMean(e: Edges, n: nat): (ac: real)
    ensures ac == ((n as real) * e.outer / 2.0 + (n as real) * e.inner / 2.0) / 2.0
    ensures e.inner <= e.outer ==>
      (n as real) * e.inner / 2.0 <= ac <= (n as real) * e.outer / 2.0
  {
    HalfPerimetersOrdered(n as real, e.inner, e.outer);
    (e.outer + e.inner) * (n as real) / 4.0
  }

  lemma HalfPerimetersOrdered(n: real, inner: real, outer: real)
    requires 0.0 <= n
    ensures inner <= outer ==> n * inner <= n * outer
  {
    if inner <= outer { MulNonNegative(n, outer - inner); }
  }

  /** The whole script for radius `r`: `iteration + 1` passes, then the mean
      with n = 6 * 2^iteration from the last pass.  With a negative iteration
      the loop body never runs and reading S2n raises NameError. */
  function EdgesScript(rt: Roots, r: real, iteration: int): (ac: Result<real>)
    requires rt.Valid()
    ensures iteration < 0 <==> ac == Err(UnboundLocal)
    ensures ac.Err? && 0 <= iteration ==> ac.fault == InvalidOperation
  {
    if iteration < 0 then Err(UnboundLocal)
    else
      match EdgesLoop(rt, EdgesStart(rt, r), 0, iteration + 1)
      case Err(_) =>
        EdgesScriptFault(rt, r, iteration);
        Err(InvalidOperation)
      case Ok(e) => Ok(EdgeMean(e, Polygons.Sides(iteration)))
  }

  /** The loop only ever stops with the InvalidOperation of a pass. */
  lemma EdgesScriptFault(rt: Roots, r: real, iteration: nat)
    requires rt.Valid()
    ensures EdgesLoop(rt, EdgesStart(rt, r), 0, iteration + 1)
      == Doubling(rt, EdgesStart(rt, r), iteration)
  {
    EdgesLoopIsDoubling(rt, EdgesStart(rt, r), 1, iteration + 1);
  }

  /** The script is the mean over the reference doubling of the start
      values, and it fails exactly when a pass is asked to double a side
      longer than the diameter 2 (possible only for the radius |r| > 2). */
  lemma EdgesScriptIsDoubling(rt: Roots, r: real, iteration: nat)
    requires rt.Valid()
    ensures Doubling(rt, EdgesStart(rt, r), iteration).Err? ==>
      EdgesScript(rt, r, iteration) == Err(Doubling(rt, EdgesStart(rt, r), iteration).fault)
    ensures Doubling(rt, EdgesStart(rt, r), iteration).Ok? ==>
      EdgesScript(rt, r, iteration) == Ok(EdgeMean(Doubling(rt, EdgesStart(rt, r), iteration).value, Polygons.Sides(iteration)))
    ensures EdgesScript(rt, r, iteration).Ok? <==> iteration == 0 || -2.0 <= r <= 2.0
  {
    EdgesScriptFault(rt, r, iteration);
  }

  /** For a positive radius a run that does not trap (by
      EdgesScriptIsDoubling, every run with r <= 2) closes over sides with
      inner <= outer, so by EdgeMean's contract its value lies between the
      inner and the outer half perimeter of the final 6 * 2^iteration-gon. */
  lemma EdgesScriptBetween(rt: Roots, r: real, iteration: nat)
    requires rt.Valid() && 0.0 < r
    ensures Doubling(rt, EdgesStart(rt, r), iteration).Ok? ==>
      var c := Doubling(rt, EdgesStart(rt, r), iteration).value;
      c.inner <= c.outer && EdgesScript(rt, r, iteration) == Ok(EdgeMean(c, Polygons.Sides(iteration)))
  {
    DoublingOrdered(rt, r, iteration);
    EdgesScriptIsDoubling(rt, r, iteration);
  }

  /** The start values and every pass keep the inner side below the outer. */
  lemma DoublingOrdered(rt: Roots, r: real, k: nat)
    requires rt.Valid() && 0.0 < r
    ensures Doubling(rt, EdgesStart(rt, r), k).Ok? ==>
      Doubling(rt, EdgesStart(rt, r), k).value.inner <= Doubling(rt, EdgesStart(rt, r), k).value.outer
  {
  }

  /** Over a circle of diameter 2 the inner sides of k doubling passes are
      the BD chords of k half-angle passes. */
  lemma {:induction false} DoublingIsChain(rt: Roots, e: Edges, t: Polygons.Triangle, k: nat)
    requires rt.Valid() && Polygons.Inscribed(t) && t.ab == 2.0 && e.inner == t.bc
    ensures Doubling(rt, e, k).Ok? && Polygons.Chain(rt, t, k).Ok?
    ensures Doubling(rt, e, k).value.inner == Polygons.Chain(rt, t, k).value.bc
    decreases k
  {
    Polygons.ChainInscribed(rt, t, k);
    if 0 < k {
      EdgeStepIsHalfAngle(rt, t);
      Polygons.HalfAngleInscribed(rt, t);
      var e' := EdgeStep(rt, e.inner).value;
      var t' := Polygons.HalfAngle(rt, t).value;
      DoublingIsChain(rt, e', t', k - 1);
    }
  }
}
