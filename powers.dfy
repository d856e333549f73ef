/** Natural-number powers, used for the fixed-point scale 2^96 and the
    decimal rescaling factor 10^k of the price conversion. */
module Powers {

  /** base^exp over unbounded naturals, as Python's `**` on non-negative ints. */
  function Pow(base: nat, exp: nat): (r: nat)
    ensures base > 0 ==> r > 0
    decreases exp
  {
    if exp == 0 then 1 else base * Pow(base, exp - 1)
  }

  /** Exponents add when powers of the same base multiply. */
  lemma {:induction false} PowAdd(base: nat, m: nat, n: nat)
    ensures Pow(base, m + n) == Pow(base, m) * Pow(base, n)
    decreases m
  {
    if m > 0 {
      PowAdd(base, m - 1, n);
      calc {
        Pow(base, m + n);
        base * Pow(base, (m - 1) + n);
        base * (Pow(base, m - 1) * Pow(base, n));
        (base * Pow(base, m - 1)) * Pow(base, n);
        Pow(base, m) * Pow(base, n);
      }
    }
  }

  /** A positive base raised to more does not give less. */
  lemma {:induction false} PowMonotone(base: nat, m: nat, n: nat)
    requires base >= 1 && m <= n
    ensures Pow(base, m) <= Pow(base, n)
    decreases n
  {
    if m < n {
      PowMonotone(base, m, n - 1);
      assert Pow(base, n) == base * Pow(base, n - 1);
    }
  }
}
