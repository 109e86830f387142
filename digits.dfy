/** Decimal digit counting, `num_digits` of src/bin/day07.rs and src/bin/day11.rs
    (the two loops are the same). Zero has no digits. */
module Digits {
  import opened Common

  /** The number of decimal digits of `n`, where zero has none. */
  function DigitCount(n: nat): (d: nat)
    ensures n == 0 <==> d == 0
    ensures n > 0 ==> Pow10(d - 1) <= n < Pow10(d)
  {
    if n == 0 then 0
    else
      var d := 1 + DigitCount(n / 10);
      assert Pow10(d) == 10 * Pow10(d - 1);
      assert d >= 2 ==> Pow10(d - 1) == 10 * Pow10(d - 2);
      d
  }

  /** The number of digits is the unique `d` with `10^(d-1) <= n < 10^d`. */
  lemma {:induction false} DigitCountUnique(n: nat, d: nat)
    requires d > 0 && Pow10(d - 1) <= n < Pow10(d)
    ensures DigitCount(n) == d
  {
    var e := DigitCount(n);
    PowPositive(10, 0);
    assert e > 0;
    if e < d {
      PowMonotone(10, e, d - 1);
    } else if e > d {
      PowMonotone(10, d, e - 1);
    }
  }

  /** `num_digits`: divide by ten until nothing is left, counting the divisions. */
  method NumDigits(n: nat) returns (r: nat)
    ensures r == DigitCount(n)
  {
    var val := n;
    r := 0;
    while val > 0
      invariant r + DigitCount(val) == DigitCount(n)
      decreases val
    {
      val := val / 10;
      r := r + 1;
    }
  }
}
