/**
 The Archimedes recurrence accelerated by Aitken's delta-squared process:
 every pass appends the new bounds to two lists, and from the third pass on
 the extrapolation `AX` of the last three values of each list replaces the
 bounds in the closing mean.  The script version catches the division traps
 of `AX` and falls back to the plain bounds; the snippet version has no
 handler, so a trap ends the run.
 */
module Aitken {
  import opened Exact
  import opened Recurrence

  /** `AX` of the script and `aitken()` of the snippet on the window
      x0, x1, x2: (x0 x2 - x1^2)/(x0 + x2 - 2 x1). */
  function AX(x0: real, x1: real, x2: real): (r: Result<real>)
    ensures r.Ok? <==> x0 + x2 - 2.0 * x1 != 0.0
    ensures r.Ok? ==> r.value == x2 - (x2 - x1) * (x2 - x1) / (x2 - 2.0 * x1 + x0)
  {
    DeltaSquaredForm(x0, x1, x2);
    Div(x0 * x2 - x1 * x1, x0 + x2 - 2.0 * x1)
  }

  /** The quotient form of AX equals the delta-squared form
      x2 - (x2 - x1)^2/(x2 - 2 x1 + x0). */
  lemma DeltaSquaredForm(x0: real, x1: real, x2: real)
    ensures x0 + x2 - 2.0 * x1 != 0.0 ==>
      (x0 * x2 - x1 * x1) / (x0 + x2 - 2.0 * x1) == x2 - (x2 - x1) * (x2 - x1) / (x2 - 2.0 * x1 + x0)
  {
    var d := x0 + x2 - 2.0 * x1;
    if d != 0.0 {
      var e := (x2 - x1) * (x2 - x1);
      var v := x2 - e / d;
      assert v * d == x2 * d - (e / d) * d;
      assert v * d == x0 * x2 - x1 * x1;
      var u := (x0 * x2 - x1 * x1) / d;
      assert u * d == x0 * x2 - x1 * x1;
      Cancel(u, v, d);
    }
  }

  function Pow(q: real, k: nat): real
  {
    if k == 0 then 1.0 else q * Pow(q, k - 1)
  }

  lemma {:induction false} PowNonZero(q: real, k: nat)
    requires q != 0.0
    ensures Pow(q, k) != 0.0
  {
    if k > 0 {
      PowNonZero(q, k - 1);
      MulPositive(Abs(q), Abs(Pow(q, k - 1)));
    }
  }

  /** AX is exact on a geometric sequence x_k = L + c q^k with c != 0 and
      q not 0 or 1: it returns the limit L. */
  lemma AXExactOnGeometric(l: real, c: real, q: real, k: nat, x0: real, x1: real, x2: real)
    requires c != 0.0 && q != 0.0 && q != 1.0
    requires x0 == l + c * Pow(q, k) && x1 == l + c * Pow(q, k + 1) && x2 == l + c * Pow(q, k + 2)
    ensures AX(x0, x1, x2) == Ok(l)
  {
    GeometricTerms(q, k);
    ProductNonZero(c, Pow(q, k));
    TermsWindow(l, c, q, Pow(q, k), Pow(q, k + 1), Pow(q, k + 2), x0, x1, x2);
  }

  /** ShiftedWindow for a window given by its three values. */
  lemma TermsWindow(l: real, c: real, q: real, t: real, t1: real, t2: real, x0: real, x1: real, x2: real)
    requires c * t != 0.0 && q != 1.0 && t1 == q * t && t2 == q * t1
    requires x0 == l + c * t && x1 == l + c * t1 && x2 == l + c * t2
    ensures AX(x0, x1, x2) == Ok(l)
  {
    ShiftedWindow(l, c, q, t, t1, t2);
  }

  /** Consecutive powers: q^k is non-zero and each next power is q times
      the previous one. */
  lemma GeometricTerms(q: real, k: nat)
    requires q != 0.0
    ensures Pow(q, k) != 0.0
    ensures Pow(q, k + 1) == q * Pow(q, k) && Pow(q, k + 2) == q * Pow(q, k + 1)
  {
    PowNonZero(q, k);
  }

  lemma PowStep(q: real, k: nat)
    ensures Pow(q, k + 1) == q * Pow(q, k)
  {
  }

  lemma ShiftedWindow(l: real, c: real, q: real, t: real, t1: real, t2: real)
    requires c * t != 0.0 && q != 1.0 && t1 == q * t && t2 == q * t1
    ensures AX(l + c * t, l + c * t1, l + c * t2) == Ok(l)
  {
    var u := c * t;
    assert c * t1 == u * q;
    assert c * t2 == u * (q * q);
    GeometricWindow(l, u, q);
  }

  lemma ProductNonZero(x: real, y: real)
    requires x != 0.0 && y != 0.0
    ensures x * y != 0.0
  {
    MulPositive(Abs(x), Abs(y));
    assert Abs(x) * Abs(y) == x * y || Abs(x) * Abs(y) == -(x * y);
  }

  lemma GeometricWindow(l: real, u: real, q: real)
    requires u != 0.0 && q != 1.0
    ensures AX(l + u, l + u * q, l + u * (q * q)) == Ok(l)
  {
    var e := Square(1.0 - q);
    SquarePositive(1.0 - q);
    ProductNonZero(u, e);
    var d := u * e;
    assert (l + u) + (l + u * (q * q)) - 2.0 * (l + u * q) == d;
    assert (l + u) * (l + u * (q * q)) - (l + u * q) * (l + u * q) == l * d;
    QuotientOfMultiple(l, d);
    AXOf(l + u, l + u * q, l + u * (q * q), l * d, d);
  }

  lemma AXOf(x0: real, x1: real, x2: real, n: real, d: real)
    requires n == x0 * x2 - x1 * x1 && d == x0 + x2 - 2.0 * x1
    ensures AX(x0, x1, x2) == Div(n, d)
  {
  }

  lemma QuotientOfMultiple(l: real, d: real)
    requires d != 0.0
    ensures Div(l * d, d) == Ok(l)
  {
  }

  /** A constant or arithmetic window has a zero denominator: 0/0 for a
      constant one, x/0 with x != 0 for a proper progression. */
  lemma AXOfArithmetic(x: real, d: real)
    ensures AX(x, x + d, x + 2.0 * d) == Err(if d == 0.0 then InvalidOperation else DivisionByZero)
  {
    assert x * (x + 2.0 * d) - (x + d) * (x + d) == -(d * d);
    SquarePositive(d);
  }

  // ---------------------------------------------------------------------
  // The loop
  // ---------------------------------------------------------------------

  /** The variables the loop carries: the bracket (a0, b0), the lists
      `upper` and `lower`, and the accelerated pair (a2, b2), unbound before
      the first pass. */
  datatype State = State(p: Bracket, upper: seq<real>, lower: seq<real>, accel: Option<Bracket>)

  function Min(x: int, y: int): int {
    if x < y then x else y
  }

  /** The list entries are consecutive iterates of the perimeter pass. */
  ghost predicate Consecutive(rt: Roots, ups: seq<real>, los: seq<real>)
    requires rt.Valid()
  {
    && |ups| == |los|
    && forall k :: 0 <= k < |ups| - 1 ==>
         HarmonicGeometric(rt, Bracket(ups[k], los[k])) == Ok(Bracket(ups[k + 1], los[k + 1]))
  }

  /** After `done` passes: each list holds the last min(done, 2) brackets,
      the newest one being the current bracket, and (a2, b2) is bound once a
      pass has run. */
  ghost predicate Windows(rt: Roots, s: State, done: nat)
    requires rt.Valid()
  {
    && |s.upper| == |s.lower| == Min(done, 2)
    && (0 < done ==> s.upper[|s.upper| - 1] == s.p.upper && s.lower[|s.lower| - 1] == s.p.lower)
    && Consecutive(rt, s.upper, s.lower)
    && (s.accel.Some? <==> 0 < done)
  }

  /** The caught exceptions: `except InvalidOperation` and `except
      DivisionByZero`. */
  predicate Caught(f: Fault) {
    f == InvalidOperation || f == DivisionByZero
  }

  /** The accelerated pair of pass i >= 2 from the three-entry windows, with
      the fallback to the plain bracket q when `catching`.  `AX(upper)` is
      evaluated first, so its fault wins. */
  function Accelerate(catching: bool, ups: seq<real>, los: seq<real>, q: Bracket): (r: Result<Bracket>)
    requires |ups| == 3 && |los| == 3
    ensures catching ==> r.Ok?
    ensures catching && (AX(ups[0], ups[1], ups[2]).Err? || AX(los[0], los[1], los[2]).Err?) ==> r == Ok(q)
    ensures !catching ==> (r.Err? <==> AX(ups[0], ups[1], ups[2]).Err? || AX(los[0], los[1], los[2]).Err?)
    ensures AX(ups[0], ups[1], ups[2]).Ok? && AX(los[0], los[1], los[2]).Ok? ==>
      r.Ok? && AX(ups[0], ups[1], ups[2]) == Ok(r.value.upper) && AX(los[0], los[1], los[2]) == Ok(r.value.lower)
  {
    match AX(ups[0], ups[1], ups[2])
    case Err(f) => if catching && Caught(f) then Ok(q) else Err(f)
    case Ok(a2) =>
      match AX(los[0], los[1], los[2])
      case Err(f) => if catching && Caught(f) then Ok(q) else Err(f)
      case Ok(b2) => Ok(Bracket(a2, b2))
  }

  /** The bracket of pass i: a copy on pass 0, a perimeter pass after. */
  function Advance(rt: Roots, p: Bracket, i: nat): Result<Bracket>
    requires rt.Valid()
  {
    if i == 0 then Ok(p) else HarmonicGeometric(rt, p)
  }

  /** Pass i of the loop body. */
  function AitkenPass(rt: Roots, catching: bool, s: State, i: nat): (r: Result<State>)
    requires rt.Valid() && Windows(rt, s, i)
    ensures r.Ok? ==> Windows(rt, r.value, i + 1)
    ensures r.Ok? ==> Advance(rt, s.p, i) == Ok(r.value.p)
    ensures catching && Advance(rt, s.p, i).Ok? ==> r.Ok?
    ensures r.Err? ==> r.fault == DivisionByZero || r.fault == InvalidOperation
    ensures r.Ok? && i < 2 ==> r.value.accel == Some(r.value.p)
    ensures r.Ok? && 2 <= i && AX(s.upper[0], s.upper[1], r.value.p.upper).Ok? && AX(s.lower[0], s.lower[1], r.value.p.lower).Ok? ==>
      r.value.accel == Some(Bracket(AX(s.upper[0], s.upper[1], r.value.p.upper).value, AX(s.lower[0], s.lower[1], r.value.p.lower).value))
    ensures r.Ok? && 2 <= i && (AX(s.upper[0], s.upper[1], r.value.p.upper).Err? || AX(s.lower[0], s.lower[1], r.value.p.lower).Err?) ==>
      catching && r.value.accel == Some(r.value.p)
  {
    match Advance(rt, s.p, i)
    case Err(f) => Err(f)
    case Ok(q) =>
      var ups := s.upper + [q.upper];
      var los := s.lower + [q.lower];
      ExtendedWindow(rt, s, i, q);
      if i >= 2 then
        match Accelerate(catching, ups, los, q)
        case Err(f) => Err(f)
        case Ok(e) => Ok(State(q, ups[1..], los[1..], Some(e)))
      else
        Ok(State(q, ups, los, Some(q)))
  }

  /** The lists after the appends of pass i hold min(i + 1, 3) consecutive
      iterates ending with the new bracket; in particular AX always sees the
      last three iterates. */
  lemma ExtendedWindow(rt: Roots, s: State, i: nat, q: Bracket)
    requires rt.Valid() && Windows(rt, s, i) && Advance(rt, s.p, i) == Ok(q)
    ensures |s.upper + [q.upper]| == |s.lower + [q.lower]| == Min(i + 1, 3)
    ensures Consecutive(rt, s.upper + [q.upper], s.lower + [q.lower])
  {
    var ups, los := s.upper + [q.upper], s.lower + [q.lower];
    forall k | 0 <= k < |ups| - 1
      ensures HarmonicGeometric(rt, Bracket(ups[k], los[k])) == Ok(Bracket(ups[k + 1], los[k + 1]))
    {
      if k == |ups| - 2 {
        assert Bracket(ups[k], los[k]) == s.p;
      }
    }
  }

  /** Passes i, ..., stop-1. */
  function AitkenLoop(rt: Roots, catching: bool, s: State, i: nat, stop: int): (r: Result<State>)
    requires rt.Valid() && Windows(rt, s, i)
    ensures r.Ok? ==> Windows(rt, r.value, if stop <= i then i else stop)
    ensures r.Err? ==> r.fault == DivisionByZero || r.fault == InvalidOperation
    ensures r.Ok? && s.p.Ordered() ==> r.value.p.Ordered() && r.value.p.Within(s.p)
    ensures catching && s.p.Ordered() ==> r.Ok?
    decreases stop - i
  {
    if stop <= i then Ok(s)
    else
      match AitkenPass(rt, catching, s, i)
      case Err(f) => Err(f)
      case Ok(s') => AitkenLoop(rt, catching, s', i + 1, stop)
  }

  /** The loop up to `stop + 1` is the loop up to `stop` followed by pass
      `stop`. */
  lemma {:induction false} AitkenLoopLast(rt: Roots, catching: bool, s: State, i: nat, stop: nat)
    requires rt.Valid() && Windows(rt, s, i) && i <= stop
    ensures AitkenLoop(rt, catching, s, i, stop + 1) ==
      match AitkenLoop(rt, catching, s, i, stop)
      case Err(f) => Err(f)
      case Ok(s') => AitkenPass(rt, catching, s', stop)
    decreases stop - i
  {
    if i < stop {
      match AitkenPass(rt, catching, s, i)
      case Err(_) =>
      case Ok(s') => AitkenLoopLast(rt, catching, s', i + 1, stop);
    }
  }

  /** The start of both Aitken programs: a0 = 2 sqrt(3), b0 = 3. */
  function AitkenStart(rt: Roots): (p: Bracket)
    requires rt.Valid()
    ensures p.Ordered() && p.lower < p.upper
  {
    PerimeterStart(rt, 1.0)
  }

  /** `archimedes_aitken(iteration)` (catching = true) and the module-level
      loop of the snippet (catching = false): the mean (a2 + b2)/2 of the
      accelerated pair of the last pass. */
  function ArchimedesAitken(rt: Roots, catching: bool, iteration: int): (ac: Result<real>)
    requires rt.Valid()
    ensures ac == Err(UnboundLocal) <==> iteration < 0
    ensures catching && 0 <= iteration ==> ac.Ok?
  {
    Closing(AitkenLoop(rt, catching, State(AitkenStart(rt), [], [], None), 0, iteration + 1))
  }

  /** `ac = (a2 + b2) / 2` after the loop; an unbound pair is the
      UnboundLocalError of a loop that ran no pass. */
  function Closing(r: Result<State>): (ac: Result<real>)
    ensures r.Ok? && r.value.accel.Some? ==>
      ac.Ok? && ac.value == (r.value.accel.value.lower + r.value.accel.value.upper) / 2.0
    ensures r.Ok? && r.value.accel.None? ==> ac == Err(UnboundLocal)
    ensures r.Err? ==> ac == Err(r.fault)
  {
    match r
    case Err(f) => Err(f)
    case Ok(t) =>
      match t.accel
      case None => Err(UnboundLocal)
      case Some(e) => Div(e.lower + e.upper, 2.0)
  }

  /** The result is the mean of the accelerated pair that the last pass,
      pass `iteration`, computes; by AitkenPass that pair is the
      extrapolation of the last three iterates from pass 2 on. */
  lemma AitkenFinal(rt: Roots, catching: bool, iteration: nat)
    requires rt.Valid()
    ensures var r := AitkenLoop(rt, catching, State(AitkenStart(rt), [], [], None), 0, iteration);
      && (r.Err? ==> ArchimedesAitken(rt, catching, iteration) == Err(r.fault))
      && (r.Ok? ==> ArchimedesAitken(rt, catching, iteration) == Closing(AitkenPass(rt, catching, r.value, iteration)))
  {
    AitkenLoopLast(rt, catching, State(AitkenStart(rt), [], [], None), 0, iteration);
  }

  /** Before the third pass nothing is extrapolated: zero and one passes
      give the plain mean of the start bracket and of its successor. */
  lemma AitkenEarly(rt: Roots, catching: bool)
    requires rt.Valid()
    ensures var p := AitkenStart(rt);
      ArchimedesAitken(rt, catching, 0) == Div(p.lower + p.upper, 2.0)
    ensures HarmonicGeometric(rt, AitkenStart(rt)).Ok?
    ensures var q := HarmonicGeometric(rt, AitkenStart(rt)).value;
      ArchimedesAitken(rt, catching, 1) == Div(q.lower + q.upper, 2.0)
  {
    var s0 := State(AitkenStart(rt), [], [], None);
    AitkenFinal(rt, catching, 0);
    AitkenFinal(rt, catching, 1);
    AitkenLoopLast(rt, catching, s0, 0, 0);
  }

  const ScriptIteration := 84

  /** archimedes_aitken_script_dec.py as it stands: with its exception
      handler and its own count the script is defined. */
  lemma ScriptAtItsCount(rt: Roots)
    requires rt.Valid()
    ensures ArchimedesAitken(rt, true, ScriptIteration).Ok?
  {
  }
}
