/** Decimal rounding as the data frame's `.round(d)` does it: scale by
    `10^d`, round to the nearest integer with ties going to the even one,
    scale back. Here it is stated on exact reals. */
module Rounding {
  import opened Options

  function Pow10(d: nat): (p: nat)
    ensures p >= 1
  {
    if d == 0 then 1 else 10 * Pow10(d - 1)
  }

  /** The size of one step of the `d`-decimal grid. */
  function Step(d: nat): (s: real)
    ensures s > 0.0
  {
    if d == 0 then 1.0 else Step(d - 1) / 10.0
  }

  /** A step is the reciprocal of the matching power of ten. */
  lemma {:induction false} StepIsReciprocal(d: nat)
    ensures Step(d) * Pow10(d) as real == 1.0
  {
    if d > 0 {
      StepIsReciprocal(d - 1);
      assert Step(d) * Pow10(d) as real == (Step(d - 1) / 10.0) * (10.0 * Pow10(d - 1) as real);
    }
  }

  /** Whether `x` is a whole number of steps of the `d`-decimal grid. */
  predicate OnGrid(x: real, d: nat) {
    (x * Pow10(d) as real).Floor as real == x * Pow10(d) as real
  }

  /** The nearest integer to `y`; at an exact half the even neighbour. */
  function RoundHalfEven(y: real): (n: int)
    ensures -0.5 <= n as real - y <= 0.5
    ensures y - y.Floor as real == 0.5 ==> n % 2 == 0
  {
    var f := y.Floor;
    var frac := y - f as real;
    if frac < 0.5 then f
    else if frac > 0.5 then f + 1
    else if f % 2 == 0 then f
    else f + 1
  }

  /** An integer is its own nearest integer. */
  lemma RoundHalfEvenOfInteger(n: int)
    ensures RoundHalfEven(n as real) == n
  {
    assert (n as real).Floor == n;
  }

  /** `x` rounded to `d` decimals. */
  function RoundTo(x: real, d: nat): (r: real)
    ensures -Step(d) / 2.0 <= r - x <= Step(d) / 2.0
    ensures OnGrid(r, d)
  {
    var n := RoundHalfEven(x * Pow10(d) as real);
    RoundToFacts(x, d, n);
    n as real / Pow10(d) as real
  }

  lemma RoundToFacts(x: real, d: nat, n: int)
    requires -0.5 <= n as real - x * Pow10(d) as real <= 0.5
    ensures -Step(d) / 2.0 <= n as real / Pow10(d) as real - x <= Step(d) / 2.0
    ensures OnGrid(n as real / Pow10(d) as real, d)
  {
    RoundingError(x, d, n);
    QuotientOnGrid(d, n);
  }

  lemma RoundingError(x: real, d: nat, n: int)
    requires -0.5 <= n as real - x * Pow10(d) as real <= 0.5
    ensures -Step(d) / 2.0 <= n as real / Pow10(d) as real - x <= Step(d) / 2.0
  {
    ScaledError(x, Pow10(d) as real, n as real);
    StepIsReciprocal(d);
    Reciprocal(Pow10(d) as real, Step(d));
  }

  lemma Reciprocal(p: real, s: real)
    requires p > 0.0 && s * p == 1.0
    ensures s == 1.0 / p
  {
  }

  lemma QuotientOnGrid(d: nat, n: int)
    ensures OnGrid(n as real / Pow10(d) as real, d)
  {
    var p := Pow10(d) as real;
    assert n as real / p * p == n as real;
    assert (n as real).Floor == n;
  }

  lemma ScaledError(x: real, p: real, a: real)
    requires p > 0.0
    requires -0.5 <= a - x * p <= 0.5
    ensures -(1.0 / p) / 2.0 <= a / p - x <= (1.0 / p) / 2.0
  {
    var q := 1.0 / p;
    DivAsMul(a, x, p, q);
    MulBound(a - x * p, q);
  }

  lemma DivAsMul(a: real, x: real, p: real, q: real)
    requires p > 0.0 && q == 1.0 / p
    ensures a / p - x == (a - x * p) * q
  {
    assert p * q == 1.0;
    assert a / p == a * q;
    assert x * p * q == x * (p * q);
  }

  lemma MulBound(e: real, q: real)
    requires -0.5 <= e <= 0.5 && q > 0.0
    ensures -q / 2.0 <= e * q <= q / 2.0
  {
    assert (e + 0.5) * q >= 0.0;
    assert (0.5 - e) * q >= 0.0;
  }

  /** A value already on the grid is left unchanged. */
  lemma RoundToOnGrid(x: real, d: nat)
    requires OnGrid(x, d)
    ensures RoundTo(x, d) == x
  {
    var y := x * Pow10(d) as real;
    GridPoint(x, Pow10(d) as real, y);
    RoundHalfEvenOfInteger(y.Floor);
  }

  lemma GridPoint(x: real, p: real, y: real)
    requires p > 0.0 && y == x * p && y.Floor as real == y
    ensures y.Floor as real / p == x
  {
  }

  /** Rounding twice is rounding once. */
  lemma RoundToIdempotent(x: real, d: nat)
    ensures RoundTo(RoundTo(x, d), d) == RoundTo(x, d)
  {
    RoundToOnGrid(RoundTo(x, d), d);
  }

  /** Rounding of one cell: a blank (NaN) cell stays blank. */
  function RoundCell(v: Option<real>, d: nat): (r: Option<real>)
    ensures r.Some? <==> v.Some?
    ensures r.Some? ==> -Step(d) / 2.0 <= r.value - v.value <= Step(d) / 2.0 && OnGrid(r.value, d)
  {
    match v
    case None => None
    case Some(x) => Some(RoundTo(x, d))
  }

  /** Rounding a cell twice is rounding it once. */
  lemma RoundCellIdempotent(v: Option<real>, d: nat)
    ensures RoundCell(RoundCell(v, d), d) == RoundCell(v, d)
  {
    if v.Some? {
      RoundToIdempotent(v.value, d);
    }
  }
}
