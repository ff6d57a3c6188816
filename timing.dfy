/** Deadlines in both renderers grow by repeated addition of a fixed interval;
    Times keeps that sum linear so the solver need not reason about products. */
module Timing {

  /** n copies of a added together. */
  function Times(n: nat, a: real): real
    decreases n
  {
    if n == 0 then 0.0 else Times(n - 1, a) + a
  }

  lemma {:induction false} TimesIsProduct(n: nat, a: real)
    ensures Times(n, a) == n as real * a
    decreases n
  {
    if n > 0 {
      TimesIsProduct(n - 1, a);
      assert n as real * a == (n - 1) as real * a + a;
    }
  }

  lemma {:induction false} TimesZero(n: nat)
    ensures Times(n, 0.0) == 0.0
    decreases n
  {
    if n > 0 {
      TimesZero(n - 1);
    }
  }

  lemma {:induction false} TimesAdd(m: nat, n: nat, a: real)
    ensures Times(m + n, a) == Times(m, a) + Times(n, a)
    decreases n
  {
    if n > 0 {
      TimesAdd(m, n - 1, a);
    }
  }
}
