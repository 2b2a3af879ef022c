/** Rounding of exact amounts to whole minor units, as Python's `round` does it. */
module Rounding {

  /** The nearest integer; an amount exactly half way goes to the even neighbour. */
  function RoundHalfEven(x: real): (r: int)
    ensures r as real - 0.5 <= x <= r as real + 0.5
    ensures x == r as real + 0.5 || x == r as real - 0.5 ==> r % 2 == 0
  {
    var floor := x.Floor;
    var rest := x - floor as real;
    if rest < 0.5 || (rest == 0.5 && floor % 2 == 0) then floor else floor + 1
  }

  /** `round(x * p / 100)`, with the quotient taken exactly. */
  function Percent(x: int, p: int): int {
    RoundHalfEven((x * p) as real / 100.0)
  }

  /** The two facts in the contract of RoundHalfEven leave no other result. */
  lemma RoundHalfEvenUnique(x: real, n: int)
    requires n as real - 0.5 <= x <= n as real + 0.5
    requires x == n as real + 0.5 || x == n as real - 0.5 ==> n % 2 == 0
    ensures RoundHalfEven(x) == n
  {
  }

  lemma RoundHalfEvenMonotone(x: real, y: real)
    requires x <= y
    ensures RoundHalfEven(x) <= RoundHalfEven(y)
  {
  }

  lemma PercentBounds(x: int, p: int)
    ensures -50 <= 100 * Percent(x, p) - x * p <= 50
  {
  }
}
