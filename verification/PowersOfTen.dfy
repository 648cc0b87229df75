/** Powers of ten over exact reals, with negative exponents. */
module PowersOfTen {
  function Pow10(k: int): (p: real)
    ensures p > 0.0
    decreases if k < 0 then -k else k
  {
    if k == 0 then 1.0 else if k > 0 then 10.0 * Pow10(k - 1) else Pow10(k + 1) / 10.0
  }

  lemma {:induction false} Pow10Next(k: int)
    ensures Pow10(k + 1) == 10.0 * Pow10(k)
  {
  }

  lemma {:induction false} Pow10Grows(j: int, k: int)
    requires j < k
    ensures 10.0 * Pow10(j) <= Pow10(k)
    decreases k - j
  {
    if j + 1 == k { Pow10Next(j); } else { Pow10Grows(j, k - 1); Pow10Next(k - 1); }
  }

  lemma {:induction false} Pow10Adds(j: int, k: int)
    ensures Pow10(j) * Pow10(k) == Pow10(j + k)
    decreases if k < 0 then -k else k
  {
    hide Pow10;
    if k == 0 {
      Pow10Zero();
    } else if k > 0 {
      Pow10Adds(j, k - 1);
      Upward(j, k - 1);
    } else {
      Pow10Adds(j, k + 1);
      Upward(j, k);
    }
  }

  lemma Pow10Zero()
    ensures Pow10(0) == 1.0
  {
  }

  /** Raising one factor and the product by the same power. */
  lemma Upward(j: int, k: int)
    ensures Pow10(j) * Pow10(k) == Pow10(j + k) <==> Pow10(j) * Pow10(k + 1) == Pow10(j + k + 1)
  {
    hide Pow10;
    Pow10Next(k);
    Pow10Next(j + k);
    Regroup(Pow10(j), Pow10(k));
  }

  lemma Regroup(a: real, c: real)
    ensures a * (10.0 * c) == 10.0 * (a * c)
  {
  }

  /** The same powers over the natural numbers. */
  function Ten(k: nat): (n: nat)
    ensures n > 0
  {
    if k == 0 then 1 else 10 * Ten(k - 1)
  }
}
