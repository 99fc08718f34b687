/**
 Exact-real stand-in for the Python `decimal` module as the scripts use it.

 Every Decimal is an exact `real`; rounding to the context precision is not
 modelled.  What is kept are those signals the default Decimal context turns
 into exceptions that do not depend on the exponent range: a division by
 zero, the undefined division 0/0, the square root of a negative number and
 a fractional power of a negative base.  Overflow, which the default context
 also traps, needs an exponent limit that exact reals do not have.  The
 square root and the cube root themselves have no closed form over the
 rationals, so they are supplied by the caller as a `Roots` value whose
 `Valid()` predicate states their defining equations.
 */
module Exact {

  /** The exceptions (and the one runtime error) a script can stop with. */
  datatype Fault =
    | DivisionByZero    // decimal.DivisionByZero: x / 0 with x != 0
    | InvalidOperation  // decimal.InvalidOperation: 0 / 0, sqrt(-x), (-x) ** (1/3)
    | UnboundLocal      // a variable read before any assignment (UnboundLocalError
                        // inside a function, NameError at module level)
    | ValueError        // range() called with a zero step

  /** A computation that either yields a value or stops with a fault. */
  datatype Result<+T> = Ok(value: T) | Err(fault: Fault) {
    predicate IsFailure() {
      Err?
    }

    function PropagateFailure<U>(): Result<U>
      requires Err?
    {
      Err(fault)
    }

    function Extract(): T
      requires Ok?
    {
      value
    }
  }

  /** A value that may be absent (Python's None). */
  datatype Option<+T> = None | Some(value: T)

  /** Decimal division under the default traps. */
  function Div(x: real, y: real): (r: Result<real>)
    ensures r.Ok? <==> y != 0.0
    ensures r.Ok? ==> r.value * y == x
    ensures r == Err(InvalidOperation) <==> x == 0.0 && y == 0.0
    ensures r == Err(DivisionByZero) <==> x != 0.0 && y == 0.0
    ensures r.Err? ==> r.fault == DivisionByZero || r.fault == InvalidOperation
  {
    if y != 0.0 then Ok(x / y)
    else if x == 0.0 then Err(InvalidOperation)
    else Err(DivisionByZero)
  }

  /** The square root and cube root functions the scripts take from Decimal. */
  datatype Roots = Roots(sqrt: real -> real, cbrt: real -> real) {
    /** The defining equations: a non-negative square root of every
        non-negative number, and a real cube root of every number. */
    ghost predicate Valid() {
      && (forall x :: 0.0 <= x ==> 0.0 <= sqrt(x) && sqrt(x) * sqrt(x) == x)
      && (forall x :: cbrt(x) * cbrt(x) * cbrt(x) == x)
    }
  }

  /** `Decimal.sqrt()`: a negative argument signals InvalidOperation. */
  function Sqrt(rt: Roots, x: real): (r: Result<real>)
    requires rt.Valid()
    ensures r.Ok? <==> 0.0 <= x
    ensures r.Ok? ==> r.value == rt.sqrt(x)
    ensures r.Ok? ==> 0.0 <= r.value && r.value * r.value == x
    ensures r.Err? ==> r.fault == InvalidOperation
  {
    if x < 0.0 then Err(InvalidOperation) else Ok(rt.sqrt(x))
  }

  /** `x ** (Decimal(1)/Decimal(3))` read as an exact cube root: a negative
      base with a fractional exponent signals InvalidOperation. */
  function Cbrt(rt: Roots, x: real): (r: Result<real>)
    requires rt.Valid()
    ensures r.Ok? <==> 0.0 <= x
    ensures r.Ok? ==> r.value == rt.cbrt(x)
    ensures r.Ok? ==> 0.0 <= r.value && r.value * r.value * r.value == x
    ensures r.Err? ==> r.fault == InvalidOperation
  {
    if x < 0.0 then Err(InvalidOperation)
    else
      CubeNonNegative(rt, x);
      Ok(rt.cbrt(x))
  }

  /** A division that does not trap yields the exact quotient. */
  lemma DivValue(x: real, y: real)
    requires y != 0.0
    ensures Div(x, y) == Ok(x / y)
  {
  }

  function Abs(x: real): (r: real)
    ensures 0.0 <= r && (r == x || r == -x)
  {
    if x < 0.0 then -x else x
  }

  function Cube(x: real): real {
    x * x * x
  }

  // ---------------------------------------------------------------------
  // Facts about products and roots that the nonlinear proofs lean on.
  // ---------------------------------------------------------------------

  lemma SquareLess(u: real, v: real)
    requires 0.0 <= u < v
    ensures u * u < v * v
  {
    var d := v - u;
    assert v * v - u * u == d * (v + u);
    MulPositive(d, v + u);
  }

  /** Non-negative numbers with equal squares are equal. */
  lemma EqualSquares(x: real, y: real)
    requires 0.0 <= x && 0.0 <= y && x * x == y * y
    ensures x == y
  {
    if x < y {
      SquareLess(x, y);
    } else if y < x {
      SquareLess(y, x);
    }
  }

  lemma MulPositive(x: real, y: real)
    requires 0.0 < x && 0.0 < y
    ensures 0.0 < x * y
  {
  }

  lemma SquareNonNegative(x: real)
    ensures 0.0 <= x * x
  {
    if x < 0.0 {
      MulPositive(-x, -x);
    } else if 0.0 < x {
      MulPositive(x, x);
    }
  }

  /** The identity, used to keep the two factors of a square apart. */
  function Same(x: real): real {
    x
  }

  /** x times x.  The solver does not carry the sign of a literal `x * x`
      from one occurrence to another, so positivity goes through this
      function and SquarePositive. */
  function Square(x: real): real {
    x * Same(x)
  }

  /** The square of a non-zero number is positive. */
  lemma SquarePositive(x: real)
    ensures x != 0.0 ==> 0.0 < Square(x)
    ensures Square(x) == x * x
  {
    if x < 0.0 {
      MulPositive(-x, -Same(x));
    } else if 0.0 < x {
      MulPositive(x, Same(x));
    }
  }

  lemma MulNonNegative(x: real, y: real)
    requires 0.0 <= x && 0.0 <= y
    ensures 0.0 <= x * y
  {
    if 0.0 < x && 0.0 < y { MulPositive(x, y); }
  }

  /** A non-negative product with a positive factor has a non-negative
      other factor. */
  lemma NonNegativeFactor(u: real, v: real)
    requires 0.0 < v && 0.0 <= u * v
    ensures 0.0 <= u
  {
    if u < 0.0 { MulPositive(-u, v); }
  }

  /** A product that is negative against a negative factor has a positive
      other factor. */
  lemma SignFromProduct(u: real, v: real)
    requires v < 0.0 && u * v < 0.0
    ensures 0.0 < u
  {
    if u < 0.0 { MulPositive(-u, -v); }
  }

  /** A non-zero factor cancels. */
  lemma Cancel(u: real, v: real, w: real)
    requires w != 0.0 && u * w == v * w
    ensures u == v
  {
    var d := u - v;
    assert d * w == 0.0;
    if d != 0.0 {
      MulPositive(Abs(d), Abs(w));
    }
  }

  lemma CubeStrictlyIncreasing(u: real, v: real)
    requires u < v
    ensures Cube(u) < Cube(v)
  {
    var d := v - u;
    var w := v + u / 2.0;
    var q := v * v + u * v + u * u;
    assert Cube(v) - Cube(u) == d * q;
    assert q == w * w + 0.75 * (u * u);
    SquareNonNegative(w);
    SquareNonNegative(u);
    if u == 0.0 {
      MulPositive(v, v);
      assert q > 0.0;
    } else {
      if u < 0.0 { MulPositive(-u, -u); } else { MulPositive(u, u); }
      assert q > 0.0;
    }
    MulPositive(d, q);
  }

  /** Cubing is injective and order-preserving in both directions. */
  lemma CubeOrder(u: real, v: real)
    ensures u < v <==> Cube(u) < Cube(v)
    ensures u == v <==> Cube(u) == Cube(v)
  {
    if u < v {
      CubeStrictlyIncreasing(u, v);
    } else if v < u {
      CubeStrictlyIncreasing(v, u);
    }
  }

  lemma CubeNonNegative(rt: Roots, x: real)
    requires rt.Valid() && 0.0 <= x
    ensures 0.0 <= rt.cbrt(x)
  {
    var c := rt.cbrt(x);
    assert Cube(c) == x;
    if c < 0.0 {
      CubeStrictlyIncreasing(c, 0.0);
    }
  }

  /** The square root is order-preserving. */
  lemma SqrtMonotonic(rt: Roots, x: real, y: real)
    requires rt.Valid() && 0.0 <= x <= y
    ensures rt.sqrt(x) <= rt.sqrt(y)
  {
    var sx, sy := rt.sqrt(x), rt.sqrt(y);
    assert sx * sx == x && sy * sy == y && 0.0 <= sx && 0.0 <= sy;
    if sy < sx {
      SquareLess(sy, sx);
    }
  }

  lemma SqrtStrictlyMonotonic(rt: Roots, x: real, y: real)
    requires rt.Valid() && 0.0 <= x < y
    ensures rt.sqrt(x) < rt.sqrt(y)
  {
    SqrtMonotonic(rt, x, y);
  }

  /** The square root of a square is the non-negative base. */
  lemma SqrtOfSquare(rt: Roots, x: real)
    requires rt.Valid() && 0.0 <= x
    ensures rt.sqrt(x * x) == x
  {
    var s := rt.sqrt(x * x);
    assert s * s == x * x && 0.0 <= s;
    if s < x {
      SquareLess(s, x);
    } else if x < s {
      SquareLess(x, s);
    }
  }

  lemma SqrtPositive(rt: Roots, x: real)
    requires rt.Valid() && 0.0 < x
    ensures 0.0 < rt.sqrt(x)
  {
    assert rt.sqrt(x) * rt.sqrt(x) == x;
  }

  /** The cube root is order-preserving on the non-negative reals. */
  lemma CbrtMonotonic(rt: Roots, x: real, y: real)
    requires rt.Valid() && x <= y
    ensures rt.cbrt(x) <= rt.cbrt(y)
  {
    var cx, cy := rt.cbrt(x), rt.cbrt(y);
    assert Cube(cx) == x && Cube(cy) == y;
    CubeOrder(cx, cy);
  }

  /** 1.5 < sqrt(3) < 2, the bound the hexagon start values need. */
  lemma SqrtThreeBounds(rt: Roots)
    requires rt.Valid()
    ensures 1.5 < rt.sqrt(3.0) < 2.0
  {
    SqrtOfSquare(rt, 1.5);
    SqrtOfSquare(rt, 2.0);
    SqrtStrictlyMonotonic(rt, 1.5 * 1.5, 3.0);
    SqrtStrictlyMonotonic(rt, 3.0, 2.0 * 2.0);
  }

  lemma DivLeq(x: real, y: real, r: real)
    requires 0.0 < r && x <= y
    ensures x / r <= y / r
  {
  }
}
