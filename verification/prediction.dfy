/**
 `init_values(places, offset)` of the lto π script: the precision and the
 iteration count it predicts for a requested number of places.

 The script multiplies the binary floats 1.02 and 0.56 by `places`; here the
 factors are the exact rationals 102/100 and 56/100.  `quantize(D('1'),
 rounding=ROUND_UP)` rounds away from zero, the offset is added as
 `D(offset)` and `D(offset)/D(2)`, and `int()` truncates toward zero.
 */
module Prediction {

  /** The least integer not below x. */
  function Ceil(x: real): (c: int)
    ensures c as real - 1.0 < x <= c as real
  {
    -((-x).Floor)
  }

  /** Decimal ROUND_UP to an integer: away from zero. */
  function RoundUp(x: real): (r: int)
    ensures 0.0 <= x ==> x <= r as real < x + 1.0
    ensures x < 0.0 ==> x - 1.0 < r as real <= x
  {
    if 0.0 <= x then Ceil(x) else -Ceil(-x)
  }

  /** Python's int() of a Decimal: truncation toward zero. */
  function Truncate(x: real): (t: int)
    ensures 0.0 <= x ==> t as real <= x < t as real + 1.0
    ensures x < 0.0 ==> t as real - 1.0 < x <= t as real
  {
    if 0.0 <= x then x.Floor else -((-x).Floor)
  }

  /** The predicted (precision, iteration). */
  function InitValues(places: int, offset: int): (pi: (int, int))
    ensures 0 <= places && 0 <= offset ==> pi.0 >= places + offset
    ensures 0 <= places && 0 <= offset ==> 0 <= pi.1 <= pi.0
  {
    var precision := RoundUp(102.0 * places as real / 100.0) + offset;
    var iteration := Truncate(RoundUp(56.0 * places as real / 100.0) as real + offset as real / 2.0);
    (precision, iteration)
  }

  /** The script's own default offset and the one its module level uses. */
  const DefaultOffset := 16
  const ScriptOffset := 4

  /** For non-negative arguments the prediction is the integer formula
      ceil(102 p / 100) + offset and ceil(56 p / 100) + floor(offset / 2). */
  lemma InitValuesClosedForm(places: nat, offset: nat)
    ensures InitValues(places, offset).0 == (102 * places + 99) / 100 + offset
    ensures InitValues(places, offset).1 == (56 * places + 99) / 100 + offset / 2
  {
    CeilQuotient(102 * places, 100);
    CeilQuotient(56 * places, 100);
    var k := RoundUp(56.0 * places as real / 100.0);
    assert k == (56 * places + 99) / 100;
    var h := offset / 2;
    assert offset == 2 * h || offset == 2 * h + 1;
    assert k as real + offset as real / 2.0 == (k + h) as real
      || k as real + offset as real / 2.0 == (k + h) as real + 0.5;
  }

  /** The ceiling of n/d for non-negative n is the integer quotient (n + d - 1) / d. */
  lemma CeilQuotient(n: nat, d: nat)
    requires 0 < d
    ensures RoundUp(n as real / d as real) == (n + d - 1) / d
  {
    var q := (n + d - 1) / d;
    var x := n as real / d as real;
    assert n + d - 1 == q * d + (n + d - 1) % d;
    assert q * d >= n && (q - 1) * d < n;
    assert (q as real) * (d as real) >= n as real;
    assert ((q - 1) as real) * (d as real) < n as real;
    assert x <= q as real by { DivBelow(n as real, d as real, q as real); }
    assert (q - 1) as real < x by { DivAbove(n as real, d as real, (q - 1) as real); }
  }

  lemma DivBelow(n: real, d: real, q: real)
    requires 0.0 < d && n <= q * d
    ensures n / d <= q
  {
  }

  lemma DivAbove(n: real, d: real, q: real)
    requires 0.0 < d && q * d < n
    ensures q < n / d
  {
  }

  lemma RoundUpMonotonic(x: real, y: real)
    requires x <= y
    ensures RoundUp(x) <= RoundUp(y)
  {
  }

  lemma TruncateMonotonic(x: real, y: real)
    requires x <= y
    ensures Truncate(x) <= Truncate(y)
  {
  }

  /** More places never predict less precision or fewer iterations, for any
      offset and any sign of the arguments. */
  lemma InitValuesMonotonic(places: int, places': int, offset: int)
    requires places <= places'
    ensures InitValues(places, offset).0 <= InitValues(places', offset).0
    ensures InitValues(places, offset).1 <= InitValues(places', offset).1
  {
    RoundUpMonotonic(102.0 * places as real / 100.0, 102.0 * places' as real / 100.0);
    RoundUpMonotonic(56.0 * places as real / 100.0, 56.0 * places' as real / 100.0);
    var o := offset as real / 2.0;
    TruncateMonotonic(RoundUp(56.0 * places as real / 100.0) as real + o,
                      RoundUp(56.0 * places' as real / 100.0) as real + o);
  }

  /** The module-level call with offset 4: 100 places predict precision
      106 and, over exact rationals, 58 passes. */
  lemma HundredPlaces()
    ensures InitValues(100, ScriptOffset) == (106, 58)
  {
    InitValuesClosedForm(100, ScriptOffset);
  }
}
