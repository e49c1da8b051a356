/**
 Rounding of exact reals to a fixed number of decimal places.

 The loan engine rounds money to cents and employment tenure to tenths of
 a year with Python's `round(x, n)`, which rounds to the nearest value and
 sends exact ties to the even neighbour. This module states that rule on
 exact reals; the rest of the model relies only on the bounds proved here.
 */
module Rounding {

  /** Distance between two reals. */
  function Dist(a: real, b: real): real {
    if a <= b then b - a else a - b
  }

  /** True when `x` is a whole integer. */
  predicate IsWhole(x: real) {
    x.Floor as real == x
  }

  /** Nearest integer to `y`; an exact tie goes to the even integer. */
  function RoundHalfEven(y: real): (k: int)
    ensures Dist(k as real, y) <= 0.5
    ensures Dist(k as real, y) == 0.5 ==> k % 2 == 0
  {
    var f := y.Floor;
    var d := y - f as real;
    if d < 0.5 then f
    else if d > 0.5 then f + 1
    else if f % 2 == 0 then f
    else f + 1
  }

  /** The two contract clauses of `RoundHalfEven` pin its result down:
      no other integer is within one half of `y` and obeys the tie rule. */
  lemma RoundHalfEvenUnique(y: real, j: int)
    requires Dist(j as real, y) <= 0.5
    requires Dist(j as real, y) == 0.5 ==> j % 2 == 0
    ensures j == RoundHalfEven(y)
  {
  }

  /** `round(x, 2)`: `x` rounded to whole cents. */
  function Round2(x: real): (r: real)
    ensures Dist(r, x) <= 0.005
    ensures IsWhole(r * 100.0)
  {
    var k := RoundHalfEven(x * 100.0);
    assert (k as real / 100.0) * 100.0 == k as real;
    k as real / 100.0
  }

  /** `round(x, 1)`: `x` rounded to whole tenths; a value exactly midway
      between two tenths goes to the even number of tenths. */
  function Round1(x: real): (r: real)
    ensures Dist(r, x) <= 0.05
    ensures IsWhole(r * 10.0)
    ensures Dist(r, x) == 0.05 ==> (r * 10.0).Floor % 2 == 0
  {
    var k := RoundHalfEven(x * 10.0);
    assert (k as real / 10.0) * 10.0 == k as real;
    assert Dist(k as real / 10.0, x) * 10.0 == Dist(k as real, x * 10.0);
    k as real / 10.0
  }

  /** Rounding leaves a value that is already a whole number of cents alone. */
  lemma Round2OfCents(x: real)
    requires IsWhole(x * 100.0)
    ensures Round2(x) == x
  {
    var j := (x * 100.0).Floor;
    RoundHalfEvenUnique(x * 100.0, j);
  }
}
