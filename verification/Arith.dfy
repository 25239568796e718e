/**
 Multiplication, quotient and remainder by counting, so that proofs about blocks of
 an unknown size stay within linear arithmetic. `Exactly` says that they are the
 ordinary operations.
 */
module Arith {

  function Times(n: nat, d: nat): nat
  {
    if n == 0 then 0 else Times(n - 1, d) + d
  }

  function Quot(k: nat, d: nat): nat
    requires d > 0
  {
    if k < d then 0 else Quot(k - d, d) + 1
  }

  function Rem(k: nat, d: nat): (r: nat)
    requires d > 0
    ensures r < d
  {
    if k < d then k else Rem(k - d, d)
  }

  lemma {:induction false} TimesIs(n: nat, d: nat)
    ensures Times(n, d) == n * d
  {
    if n > 0 { TimesIs(n - 1, d); }
  }

  lemma {:induction false} Divided(k: nat, d: nat)
    requires d > 0
    ensures k == Times(Quot(k, d), d) + Rem(k, d)
  {
    if k >= d { Divided(k - d, d); }
  }

  /** A quotient and a remainder in range are the quotient and the remainder. */
  lemma {:induction false} DividedOnce(k: nat, q: nat, d: nat, r: nat)
    requires d > 0 && r < d && k == Times(q, d) + r
    ensures Quot(k, d) == q && Rem(k, d) == r
    decreases q
  {
    if q > 0 { DividedOnce(k - d, q - 1, d, r); }
  }

  lemma DivMod(k: nat, d: nat)
    requires d > 0
    ensures k / d * d <= k && k == k / d * d + k % d && k % d < d
  {
  }

  /** Counting agrees with the built-in operators. */
  lemma Exactly(k: nat, d: nat)
    requires d > 0
    ensures Times(k, d) == k * d && Quot(k, d) == k / d && Rem(k, d) == k % d
  {
    TimesIs(k, d);
    DivMod(k, d);
    TimesIs(k / d, d);
    DividedOnce(k, k / d, d, k % d);
  }

  lemma {:induction false} TimesGrows(a: nat, b: nat, d: nat)
    requires a < b
    ensures Times(a, d) + d <= Times(b, d)
    decreases b
  {
    if a < b - 1 { TimesGrows(a, b - 1, d); }
  }

  lemma MulMonotone(a: nat, b: nat, p: nat)
    requires a <= b
    ensures a * p <= b * p
  {
  }

  lemma QuotProduct(q: nat, d: nat)
    requires d > 0
    ensures Quot(d * q, d) == q
  {
    TimesIs(q, d);
    DividedOnce(d * q, q, d, 0);
  }

  lemma QuotientBelow(n: nat, b: nat, p: nat)
    requires p > 0 && n < b * p
    ensures n / p < b
  {
    DivMod(n, p);
    if n / p >= b { MulMonotone(b, n / p, p); }
  }

  function Pow(b: nat, e: nat): nat
    decreases e
  {
    if e == 0 then 1 else b * Pow(b, e - 1)
  }

  lemma MulPositive(a: nat, b: nat)
    requires a > 0 && b > 0
    ensures a * b > 0
  {
  }

  lemma {:induction false} PowPositive(b: nat, e: nat)
    requires b > 0
    ensures Pow(b, e) > 0
    decreases e
  {
    if e > 0 {
      PowPositive(b, e - 1);
      MulPositive(b, Pow(b, e - 1));
    }
  }
}
