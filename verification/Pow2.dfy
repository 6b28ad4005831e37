/**
 Powers of two and the split point of section 2.1 of RFC 6962: the largest
 power of two strictly smaller than the number of leaves.
 */
module Powers {

  function Pow2(e: nat): (p: nat)
    ensures p >= 1
  {
    if e == 0 then 1 else 2 * Pow2(e - 1)
  }

  /** Distinct powers differ by a factor of two at least. */
  lemma {:induction false} Pow2Gap(a: nat, b: nat)
    ensures a < b ==> 2 * Pow2(a) <= Pow2(b)
    decreases b
  {
    if a + 1 < b {
      Pow2Gap(a, b - 1);
    }
  }

  /** Double from `Pow2(e)` for as long as the result stays below `n`. */
  function SplitFrom(e: nat, n: nat): (r: nat)
    requires Pow2(e) < n
    ensures Pow2(r) < n <= 2 * Pow2(r)
    decreases n - Pow2(e)
  {
    if 2 * Pow2(e) < n then SplitFrom(e + 1, n) else e
  }

  /** The exponent of the split point. */
  function SplitExp(n: nat): (e: nat)
    requires n >= 2
    ensures Pow2(e) < n <= 2 * Pow2(e)
  {
    SplitFrom(0, n)
  }

  function Split(n: nat): (k: nat)
    requires n >= 2
    ensures 1 <= k < n <= 2 * k
  {
    Pow2(SplitExp(n))
  }

  /** The bounds of the split point determine it. */
  lemma SplitUnique(e: nat, n: nat)
    requires n >= 2
    requires Pow2(e) < n <= 2 * Pow2(e)
    ensures SplitExp(n) == e
    ensures Split(n) == Pow2(e)
  {
    Pow2Gap(e, SplitExp(n));
    Pow2Gap(SplitExp(n), e);
  }

  /** The doubling loop that finds the split point; it answers 1 below two leaves. */
  method LargestPow2Lt(n: int) returns (k: nat)
    ensures n >= 2 ==> k == Split(n)
    ensures n < 2 ==> k == 1
  {
    k := 1;
    ghost var e: nat := 0;
    while k * 2 < n
      invariant k == Pow2(e)
      invariant k == 1 || k < n
      decreases n - k
    {
      k := k * 2;
      e := e + 1;
    }
    if n >= 2 {
      SplitUnique(e, n);
    }
  }

  predicate IsPow2(m: nat) {
    m == 1 || (m > 1 && m % 2 == 0 && IsPow2(m / 2))
  }

  lemma {:induction false} Pow2IsPow2(e: nat)
    ensures IsPow2(Pow2(e))
  {
    if e > 0 {
      Pow2IsPow2(e - 1);
    }
  }

  lemma {:induction false} IsPow2Exp(m: nat) returns (e: nat)
    requires IsPow2(m)
    ensures m == Pow2(e)
  {
    if m == 1 {
      e := 0;
    } else {
      e := IsPow2Exp(m / 2);
      e := e + 1;
    }
  }
}
