/**
 The generator of the 2/pi table: Machin's formula in integer arithmetic, with the
 error of every truncation accounted for against the exact rational sums, carried
 through the final division into 64 words.
 */
module TwoOverPi {
  import opened Arith

  const BITS: nat := 2400
  const WORDS: nat := 64
  const WORD: nat := 0x1_0000_0000

  // --- Arithmetic ---

  lemma {:induction false} PowAdd(b: nat, d: nat, e: nat)
    ensures Pow(b, d + e) == Pow(b, d) * Pow(b, e)
    decreases d
  {
    if d > 0 {
      PowAdd(b, d - 1, e);
      assert b * (Pow(b, d - 1) * Pow(b, e)) == (b * Pow(b, d - 1)) * Pow(b, e);
    }
  }

  lemma {:induction false} PowGrows(d: nat, e: nat)
    requires d < e
    ensures Pow(2, d) < Pow(2, e)
    decreases e
  {
    PowPositive(2, e - 1);
    if d < e - 1 { PowGrows(d, e - 1); }
  }

  lemma {:induction false} PowBase(b: nat, e: nat)
    requires b >= 2
    ensures Pow(2, e) <= Pow(b, e)
    decreases e
  {
    if e > 0 {
      PowBase(b, e - 1);
      assert 2 * Pow(2, e - 1) <= b * Pow(b, e - 1) by { MulLe(2, b, Pow(2, e - 1), Pow(b, e - 1)); }
    }
  }

  lemma TwoMore(b: nat, e: nat)
    ensures Pow(b, e + 2) == (b * b) * Pow(b, e) == Pow(b, e) * (b * b)
  {
    assert Pow(b, e + 2) == b * Pow(b, e + 1) == b * (b * Pow(b, e));
  }

  lemma MulLe(a: nat, b: nat, c: nat, d: nat)
    requires a <= b && c <= d
    ensures a * c <= b * d
  {
    assert a * c <= b * c;
    assert b * c <= b * d;
  }

  lemma Division(n: int, d: nat)
    requires d > 0
    ensures n / d * d <= n < n / d * d + d
  {
  }

  lemma NextMultiple(a: int, b: int, d: nat)
    requires a < b
    ensures a * d + d <= b * d
  {
    assert (a + 1) * d == a * d + d;
  }

  lemma DivisionUnique(n: int, d: nat, q: int)
    requires d > 0 && q * d <= n < q * d + d
    ensures n / d == q
  {
    Division(n, d);
    var p := n / d;
    if p < q {
      NextMultiple(p, q, d);
    } else if q < p {
      NextMultiple(q, p, d);
    }
  }

  lemma Shrinks(n: nat, d: nat)
    requires n > 0 && d >= 2
    ensures n / d < n
  {
    Division(n, d);
    if n / d >= n { MulLe(n, n / d, 2, d); }
  }

  lemma Regroup(q: nat, b: nat, a: nat)
    ensures (q * b) * a == q * (a * b) && (q * b + b) * a == q * (a * b) + a * b
  {
  }

  lemma Nested(n: nat, a: nat, b: nat, m: nat, q: nat)
    requires m * a <= n < m * a + a && q * b <= m && m + 1 <= q * b + b
    ensures q * (a * b) <= n < q * (a * b) + a * b
  {
    Regroup(q, b, a);
    MulLe(q * b, m, a, a);
    MulLe(m + 1, q * b + b, a, a);
    assert (m + 1) * a == m * a + a;
  }

  /** Dividing twice is dividing by the product. */
  lemma DivideTwice(n: nat, a: nat, b: nat)
    requires a > 0 && b > 0
    ensures a * b > 0 && n / a / b == n / (a * b)
  {
    MulPositive(a, b);
    Division(n, a);
    Division(n / a, b);
    Nested(n, a, b, n / a, n / a / b);
    DivisionUnique(n, a * b, n / a / b);
  }

  // --- The integer series ---

  /** term after k steps. */
  function Term(unity: nat, x: nat, k: nat): nat
    requires x > 0
    decreases k
  {
    if k == 0 then unity / x else Term(unity, x, k - 1) / (x * x)
  }

  function Sign(k: nat): int
  {
    if k % 2 == 0 then 1 else -1
  }

  /** total after k steps: the k-th addend is a floor division of the signed term. */
  function Total(unity: nat, x: nat, k: nat): int
    requires x > 0
    decreases k
  {
    if k == 0 then unity / x
    else Total(unity, x, k - 1) + (Sign(k) * Term(unity, x, k)) / (2 * k + 1)
  }

  /** The loop runs until the term is zero; `steps` says how often, and everything follows from that. */
  method ArcCot(x: nat, unity: nat) returns (total: int, ghost steps: nat)
    requires x >= 2
    ensures total == Total(unity, x, steps)
    ensures Term(unity, x, steps) == 0 && (steps > 0 ==> Term(unity, x, steps - 1) > 0)
  {
    var term := unity / x;
    total := term;
    var x2 := x * x;
    MulLe(2, x, 2, x);
    var n := 1;
    var sign := -1;
    steps := 0;
    while term != 0
      invariant n == steps + 1 && sign == Sign(n)
      invariant term == Term(unity, x, steps) && total == Total(unity, x, steps)
      invariant steps > 0 ==> Term(unity, x, steps - 1) > 0
      decreases term
    {
      Shrinks(term, x2);
      Steps(unity, x, n);
      term := term / x2;
      total := total + (sign * term) / (2 * n + 1);
      sign := -sign;
      n := n + 1;
      steps := steps + 1;
    }
  }

  lemma Steps(unity: nat, x: nat, n: nat)
    requires x > 0 && n > 0
    ensures Term(unity, x, n) == Term(unity, x, n - 1) / (x * x)
    ensures Total(unity, x, n) == Total(unity, x, n - 1) + (Sign(n) * Term(unity, x, n)) / (2 * n + 1)
    ensures Sign(n + 1) == -Sign(n)
  {
  }

  /** The term is the scaled unit divided by an odd power of x, exactly as one division would give it. */
  lemma {:induction false} TermIs(unity: nat, x: nat, k: nat)
    requires x > 0
    ensures Pow(x, 2 * k + 1) > 0 && Term(unity, x, k) == unity / Pow(x, 2 * k + 1)
    decreases k
  {
    PowPositive(x, 2 * k + 1);
    if k == 0 {
      assert Pow(x, 1) == x * Pow(x, 0);
    } else {
      TermIs(unity, x, k - 1);
      var p := Pow(x, 2 * k - 1);
      MulPositive(x, x);
      DivideTwice(unity, p, x * x);
      TwoMore(x, 2 * k - 1);
    }
  }

  /** How many steps the loop can take for a unit of 2^b. */
  lemma StepsBounded(b: nat, x: nat, steps: nat)
    requires x >= 2 && steps > 0 && Term(Pow(2, b), x, steps - 1) > 0
    ensures 2 * steps - 1 <= b
  {
    var e := 2 * (steps - 1) + 1;
    TermIs(Pow(2, b), x, steps - 1);
    PowBase(x, e);
    Division(Pow(2, b), Pow(x, e));
    assert Pow(x, e) <= Pow(2, b) by {
      assert 1 * Pow(x, e) <= Term(Pow(2, b), x, steps - 1) * Pow(x, e)
      by { MulLe(1, Term(Pow(2, b), x, steps - 1), Pow(x, e), Pow(x, e)); }
    }
    if b < e { PowGrows(b, e); }
  }

  // --- The exact rational series ---

  /** The exact term, unity / x^(2k+1). */
  ghost function ExactTerm(unity: nat, x: nat, k: nat): real
    requires x > 0
    decreases k
  {
    if k == 0 then unity as real / x as real else ExactTerm(unity, x, k - 1) / (x * x) as real
  }

  /** The exact partial sum of unity * arccot x. */
  ghost function ExactSum(unity: nat, x: nat, k: nat): real
    requires x > 0
    decreases k
  {
    if k == 0 then unity as real / x as real
    else ExactSum(unity, x, k - 1) + Sign(k) as real * (ExactTerm(unity, x, k) / (2 * k + 1) as real)
  }

  lemma Quotient(a: real, b: real)
    requires b > 0.0
    ensures a / b * b == a
  {
  }

  lemma Scaled(a: real, b: real, c: real)
    requires c > 0.0
    ensures a < b <==> a * c < b * c
  {
  }

  lemma QuotientMonotone(a: real, b: real, c: real)
    requires c > 0.0 && a * c <= b
    ensures a <= b / c
  {
    Quotient(b, c);
    Scaled(b / c, a, c);
  }

  lemma QuotientBelow(a: real, b: real, c: real)
    requires c > 0.0 && b < a * c
    ensures b / c < a
  {
    Quotient(b, c);
    Scaled(b / c, a, c);
  }

  /** Flooring y and then dividing by d is flooring y / d. */
  lemma FloorStep(t: nat, y: real, d: nat)
    requires d > 0 && t as real <= y < t as real + 1.0
    ensures (t / d) as real <= y / d as real < (t / d) as real + 1.0
  {
    var q := t / d;
    Division(t, d);
    assert q * d <= t && t + 1 <= (q + 1) * d;
    ProductReal(q, d);
    ProductReal(q + 1, d);
    QuotientMonotone(q as real, y, d as real);
    QuotientBelow((q + 1) as real, y, d as real);
  }

  lemma ProductReal(a: int, b: int)
    ensures (a * b) as real == a as real * b as real
  {
  }

  lemma {:induction false} TermIsFloor(unity: nat, x: nat, k: nat)
    requires x > 0
    ensures Term(unity, x, k) as real <= ExactTerm(unity, x, k) < Term(unity, x, k) as real + 1.0
    decreases k
  {
    if k == 0 {
      FloorStep(unity, unity as real, x);
    } else {
      TermIsFloor(unity, x, k - 1);
      MulPositive(x, x);
      FloorStep(Term(unity, x, k - 1), ExactTerm(unity, x, k - 1), x * x);
    }
  }

  /** One addend is less than one away from the exact one, whichever its sign. */
  lemma AddendError(t: nat, y: real, b: nat, s: int)
    requires b > 0 && t as real <= y < t as real + 1.0 && (s == 1 || s == -1)
    ensures -1.0 < ((s * t) / b) as real - s as real * (y / b as real) < 1.0
  {
    if s == 1 {
      FloorStep(t, y, b);
    } else {
      NegatedError(t, y, b, 0 - t);
      assert s * t == 0 - t;
    }
  }

  lemma NegatedError(t: nat, y: real, b: nat, m: int)
    requires b > 0 && t as real <= y < t as real + 1.0 && m + t == 0
    ensures -1.0 < (m / b) as real + y / b as real < 1.0
  {
    var c := m / b;
    Division(m, b);
    var low, high := -c - 1, 1 - c;
    assert low * b == -(c * b) - b;
    assert high * b == -(c * b) + b;
    ProductReal(low, b);
    ProductReal(high, b);
    QuotientBelow(high as real, y, b as real);
    AboveLow(low, b, y);
  }

  lemma AboveLow(low: int, b: nat, y: real)
    requires b > 0 && (low * b) as real < y
    ensures low as real < y / b as real
  {
    ProductReal(low, b);
    Quotient(y, b as real);
    Scaled(low as real, y / b as real, b as real);
  }

  /** After k steps the total is within k + 1 of the exact partial sum. */
  lemma {:induction false} TotalError(unity: nat, x: nat, k: nat)
    requires x > 0
    ensures -(k as real + 1.0) < Total(unity, x, k) as real - ExactSum(unity, x, k) < k as real + 1.0
    decreases k
  {
    TermIsFloor(unity, x, k);
    if k > 0 {
      TotalError(unity, x, k - 1);
      AddendError(Term(unity, x, k), ExactTerm(unity, x, k), 2 * k + 1, Sign(k));
      var c, e := (Sign(k) * Term(unity, x, k)) / (2 * k + 1),
          Sign(k) as real * (ExactTerm(unity, x, k) / (2 * k + 1) as real);
      assert Total(unity, x, k) == Total(unity, x, k - 1) + c;
      assert ExactSum(unity, x, k) == ExactSum(unity, x, k - 1) + e;
    }
  }

  // --- The exact sums stay near their first term ---

  /** What is left of a geometric tail that bounds everything after the k-th term. */
  ghost function Tail(unity: nat, x: nat, k: nat): real
    requires x >= 2
  {
    MulLe(2, x, 2, x);
    ExactTerm(unity, x, k) / (x * x - 1) as real
  }

  lemma {:induction false} ExactTermPositive(unity: nat, x: nat, k: nat)
    requires x > 0
    ensures ExactTerm(unity, x, k) >= 0.0
    decreases k
  {
    if k > 0 {
      ExactTermPositive(unity, x, k - 1);
      MulPositive(x, x);
      QuotientMonotone(0.0, ExactTerm(unity, x, k - 1), (x * x) as real);
    } else {
      QuotientMonotone(0.0, unity as real, x as real);
    }
  }

  /** y/(d-1) loses exactly y/d when y becomes y/d. */
  lemma TailStep(y: real, d: real, z: real)
    requires d > 1.0 && z * d == y
    ensures y / (d - 1.0) - z / (d - 1.0) == z
  {
    Quotient(y, d - 1.0);
    Quotient(z, d - 1.0);
    var a, b := y / (d - 1.0), z / (d - 1.0);
    assert (a - b) * (d - 1.0) == z * (d - 1.0);
    SameFactor(a - b, z, d - 1.0);
  }

  lemma SameFactor(a: real, b: real, c: real)
    requires c > 0.0 && a * c == b * c
    ensures a == b
  {
    Scaled(a, b, c);
    Scaled(b, a, c);
  }

  lemma Smaller(y: real, n: nat)
    requires y >= 0.0 && n >= 1
    ensures 0.0 <= y / n as real <= y
  {
    QuotientMonotone(0.0, y, n as real);
    Quotient(y, n as real);
    Scaled(y, y / n as real, n as real);
    assert y * n as real >= y by { if n > 1 { Grow(y, n as real); } }
  }

  lemma Grow(y: real, n: real)
    requires y >= 0.0 && n >= 1.0
    ensures y * n >= y
  {
    assert y * (n - 1.0) >= 0.0;
  }

  /** However many terms are added, the sum stays within the first tail of the first term. */
  lemma {:induction false} SumNear(unity: nat, x: nat, k: nat)
    requires x >= 2
    ensures ExactSum(unity, x, k) - ExactTerm(unity, x, 0) <= Tail(unity, x, 0) - Tail(unity, x, k)
    ensures ExactTerm(unity, x, 0) - ExactSum(unity, x, k) <= Tail(unity, x, 0) - Tail(unity, x, k)
    decreases k
  {
    if k > 0 {
      SumNear(unity, x, k - 1);
      TailDrops(unity, x, k);
      ExactTermPositive(unity, x, k);
      Smaller(ExactTerm(unity, x, k), 2 * k + 1);
      var e := Sign(k) as real * (ExactTerm(unity, x, k) / (2 * k + 1) as real);
      assert ExactSum(unity, x, k) == ExactSum(unity, x, k - 1) + e;
    }
  }

  lemma TailDrops(unity: nat, x: nat, k: nat)
    requires x >= 2 && k > 0
    ensures Tail(unity, x, k - 1) - Tail(unity, x, k) == ExactTerm(unity, x, k)
  {
    MulLe(2, x, 2, x);
    var d := x * x;
    Quotient(ExactTerm(unity, x, k - 1), d as real);
    TailStep(ExactTerm(unity, x, k - 1), d as real, ExactTerm(unity, x, k));
  }

  /** However many more terms are added after the k-th, the sum moves by no more than the tail left there. */
  lemma {:induction false} SumsClose(unity: nat, x: nat, k: nat, m: nat)
    requires x >= 2 && k <= m
    ensures ExactSum(unity, x, m) - ExactSum(unity, x, k) <= Tail(unity, x, k) - Tail(unity, x, m)
    ensures ExactSum(unity, x, k) - ExactSum(unity, x, m) <= Tail(unity, x, k) - Tail(unity, x, m)
    decreases m
  {
    if k < m {
      SumsClose(unity, x, k, m - 1);
      hide Tail;
      TailDrops(unity, x, m);
      ExactTermPositive(unity, x, m);
      Smaller(ExactTerm(unity, x, m), 2 * m + 1);
      var e := Sign(m) as real * (ExactTerm(unity, x, m) / (2 * m + 1) as real);
      assert ExactSum(unity, x, m) == ExactSum(unity, x, m - 1) + e;
    }
  }

  /** Once the integer term is zero, everything still to come in the exact series is less than one. */
  lemma LastTail(unity: nat, x: nat, k: nat, m: nat)
    requires x >= 2 && k <= m && Term(unity, x, k) == 0
    ensures -1.0 < ExactSum(unity, x, m) - ExactSum(unity, x, k) < 1.0
  {
    SumsClose(unity, x, k, m);
    TermIsFloor(unity, x, k);
    ExactTermPositive(unity, x, k);
    ExactTermPositive(unity, x, m);
    TailBelow(unity, x, k);
    TailBelow(unity, x, m);
    hide Tail, ExactTerm, ExactSum, Term;
  }

  lemma TailBelow(unity: nat, x: nat, k: nat)
    requires x >= 2 && ExactTerm(unity, x, k) >= 0.0
    ensures 0.0 <= Tail(unity, x, k) <= ExactTerm(unity, x, k)
  {
    MulLe(2, x, 2, x);
    Smaller(ExactTerm(unity, x, k), x * x - 1);
  }

  /** The exact term in closed form. */
  lemma {:induction false} ExactTermIs(unity: nat, x: nat, k: nat)
    requires x > 0
    ensures ExactTerm(unity, x, k) * Pow(x, 2 * k + 1) as real == unity as real
    decreases k
  {
    if k == 0 {
      assert Pow(x, 1) == x * Pow(x, 0);
      Quotient(unity as real, x as real);
    } else {
      ExactTermIs(unity, x, k - 1);
      MulPositive(x, x);
      var p, d := Pow(x, 2 * k - 1), x * x;
      Quotient(ExactTerm(unity, x, k - 1), d as real);
      TwoMore(x, 2 * k - 1);
      ProductReal(d, p);
      Reassociate(ExactTerm(unity, x, k), d as real, p as real);
    }
  }

  lemma Reassociate(a: real, b: real, c: real)
    ensures a * (b * c) == (a * b) * c
  {
  }

  // --- Machin's formula ---

  ghost function ExactPi(unity: nat, k: nat, j: nat): real
  {
    4.0 * (4.0 * ExactSum(unity, 5, k) - ExactSum(unity, 239, j))
  }

  lemma SumStep(unity: nat, x: nat, k: nat, d: real, n: real, sign: real)
    requires x > 0 && k > 0 && d == (x * x) as real && n == (2 * k + 1) as real && sign == Sign(k) as real
    ensures n > 0.0 && d > 0.0 && ExactTerm(unity, x, k) == ExactTerm(unity, x, k - 1) / d
    ensures ExactSum(unity, x, k) == ExactSum(unity, x, k - 1) + sign * (ExactTerm(unity, x, k) / n)
  {
    MulPositive(x, x);
  }

  lemma SumBegins(unity: nat, x: nat, d: real)
    requires x > 0 && d == x as real
    ensures ExactTerm(unity, x, 0) == unity as real / d == ExactSum(unity, x, 0)
  {
  }

  /** What the terms after the k-th can come to. */
  lemma RestWithin(unity: nat, x: nat, k: nat, m: nat, d: real)
    requires x >= 2 && k <= m && d == (x * x - 1) as real
    ensures d > 0.0
    ensures ExactSum(unity, x, k) - ExactTerm(unity, x, k) / d <= ExactSum(unity, x, m)
         <= ExactSum(unity, x, k) + ExactTerm(unity, x, k) / d
  {
    MulLe(2, x, 2, x);
    SumsClose(unity, x, k, m);
    ExactTermPositive(unity, x, m);
    TailBelow(unity, x, m);
    TailIs(unity, x, k);
    hide Tail, ExactTerm, ExactSum;
  }

  lemma TailIs(unity: nat, x: nat, k: nat)
    requires x >= 2
    ensures (x * x - 1) as real > 0.0 && Tail(unity, x, k) == ExactTerm(unity, x, k) / (x * x - 1) as real
  {
    MulLe(2, x, 2, x);
  }

  lemma Signs()
    ensures Sign(1) == -1 && Sign(2) == 1 && Sign(3) == -1 && Sign(4) == 1
  {
  }

  /** The first five terms for 1/5, and what all the others can come to. */
  lemma FiveTerms(unity: nat, k: nat)
    requires k >= 4
    ensures var a := unity as real / 5.0;
            var b := a / 25.0;
            var c := b / 25.0;
            var d := c / 25.0;
            var e := d / 25.0;
            var s := a - b / 3.0 + c / 5.0 - d / 7.0 + e / 9.0;
            s - e / 24.0 <= ExactSum(unity, 5, k) <= s + e / 24.0
  {
    hide ExactTerm, ExactSum, Sign;
    Signs();
    SumBegins(unity, 5, 5.0);
    SumStep(unity, 5, 1, 25.0, 3.0, -1.0);
    SumStep(unity, 5, 2, 25.0, 5.0, 1.0);
    SumStep(unity, 5, 3, 25.0, 7.0, -1.0);
    SumStep(unity, 5, 4, 25.0, 9.0, 1.0);
    RestWithin(unity, 5, 4, k, 24.0);
  }

  /** The first two for 1/239. */
  lemma TwoTerms(unity: nat, j: nat)
    requires j >= 1
    ensures var a := unity as real / 239.0;
            var b := a / 57121.0;
            a - b / 3.0 - b / 57120.0 <= ExactSum(unity, 239, j) <= a - b / 3.0 + b / 57120.0
  {
    hide ExactTerm, ExactSum, Sign;
    Signs();
    SumBegins(unity, 239, 239.0);
    SumStep(unity, 239, 1, 57121.0, 3.0, -1.0);
    RestWithin(unity, 239, 1, j, 57120.0);
  }

  /** The exact sum is about pi times the unit, whatever the number of terms. */
  lemma ExactPiBounds(unity: nat, k: nat, j: nat)
    ensures 3.0 * unity as real <= ExactPi(unity, k, j) <= 4.0 * unity as real
  {
    hide ExactTerm, ExactSum;
    SumBegins(unity, 5, 5.0);
    RestWithin(unity, 5, 0, k, 24.0);
    SumBegins(unity, 239, 239.0);
    RestWithin(unity, 239, 0, j, 57120.0);
    Combine(unity as real, ExactSum(unity, 5, k), ExactSum(unity, 239, j));
  }

  lemma Combine(u: real, p: real, q: real)
    requires u >= 0.0
    requires u / 5.0 - u / 5.0 / 24.0 <= p <= u / 5.0 + u / 5.0 / 24.0
    requires u / 239.0 - u / 239.0 / 57120.0 <= q <= u / 239.0 + u / 239.0 / 57120.0
    ensures 3.0 * u <= 4.0 * (4.0 * p - q) <= 4.0 * u
  {
  }

  /** The exact sum has the digits of pi: from five and two terms on it lies between 3.141592 and 3.141594 units. */
  lemma ExactPiDigits(unity: nat, k: nat, j: nat)
    requires k >= 4 && j >= 1
    ensures 3.141592 * unity as real <= ExactPi(unity, k, j) <= 3.141594 * unity as real
  {
    FiveTerms(unity, k);
    TwoTerms(unity, j);
    hide ExactSum;
  }

  /** The loop for a unit of 2^b has run exactly as long as it should: the first zero term is term number `steps`. */
  ghost predicate Stopped(b: nat, x: nat, steps: nat)
    requires x > 0
  {
    Term(Pow(2, b), x, steps) == 0 && (steps > 0 ==> Term(Pow(2, b), x, steps - 1) > 0)
  }

  function Slack(b: nat): nat { 10 * b + 50 }

  /** The computed pi is this close to Machin's exact sum, taken this far or any further. */
  ghost predicate PiClose(b: nat, pi: int, k: nat, j: nat)
  {
    forall m, n {:trigger ExactPi(Pow(2, b), m, n)} :: m >= k && n >= j ==>
      -(Slack(b) as real) < pi as real - ExactPi(Pow(2, b), m, n) < Slack(b) as real
  }

  method MachinPi(bits: nat) returns (pi: int, ghost k: nat, ghost j: nat)
    ensures Stopped(bits + 32, 5, k) && Stopped(bits + 32, 239, j)
    ensures PiClose(bits + 32, pi, k, j)
  {
    var one := Pow(2, bits + 32);
    var a, c;
    a, k := ArcCot(5, one);
    c, j := ArcCot(239, one);
    pi := 4 * (4 * a - c);
    hide ExactPi, Slack, Total, Term;
    forall m, n | m >= k && n >= j
      ensures -(Slack(bits + 32) as real) < pi as real - ExactPi(one, m, n) < Slack(bits + 32) as real
    {
      MachinError(bits + 32, k, j, m, n);
    }
  }

  /** Every truncation of both series, and everything left out at their ends, added up. */
  lemma MachinError(b: nat, k: nat, j: nat, m: nat, n: nat)
    requires Stopped(b, 5, k) && Stopped(b, 239, j) && m >= k && n >= j
    ensures var u := Pow(2, b);
            -(Slack(b) as real)
            < (4 * (4 * Total(u, 5, k) - Total(u, 239, j))) as real - ExactPi(u, m, n)
            < Slack(b) as real
  {
    var u := Pow(2, b);
    TotalError(u, 5, k);
    TotalError(u, 239, j);
    LastTail(u, 5, k, m);
    LastTail(u, 239, j, n);
    if k > 0 { StepsBounded(b, 5, k); }
    if j > 0 { StepsBounded(b, 239, j); }
    hide Total, ExactSum, Pow, Term;
  }

  // --- The division ---

  ghost predicate Numerator(n: real, v: real, u: real) { n == 2.0 * v * u }

  ghost predicate Within(k: real, x: real) { -1.0 <= k * x <= 1.0 }

  ghost predicate Tight(k: real, v: real, err: real, u: real) { k * (v * err) <= u }

  /** Dividing by p instead of by e, when the two are close. */
  lemma CloseQuotients(n: real, p: real, e: real, v: real, u: real, err: real, k: real)
    requires u > 0.0 && v > 0.0 && err > 0.0 && k > 0.0 && Numerator(n, v, u)
    requires e >= 2.0 * u && p >= u && -err < p - e < err && Tight(k, v, err, u)
    ensures Within(k, n / p - n / e)
  {
    var x, y := n / p, n / e;
    hide Within, Tight;
    Quotient(n, p);
    Quotient(n, e);
    YBelow(y, e, v, u);
    SameProducts(x, y, p, e);
    DifferenceBound((x - y) * p, y, e - p, v, err);
    assert v * err >= 0.0;
    ScaleDown(x - y, p, v * err, v, err, u, k);
  }

  lemma SameProducts(x: real, y: real, p: real, e: real)
    requires x * p == y * e
    ensures (x - y) * p == y * (e - p)
  {
  }

  lemma YBelow(y: real, e: real, v: real, u: real)
    requires u > 0.0 && v > 0.0 && e >= 2.0 * u && y * e == 2.0 * v * u
    ensures 0.0 < y <= v
  {
    assert v * e >= v * (2.0 * u) by { MulLeReal(2.0 * u, e, v); }
    Scaled(v, y, e);
    assert v * (2.0 * u) > 0.0;
    Scaled(0.0, y, e);
  }

  lemma MulLeReal(a: real, b: real, c: real)
    requires a <= b && c >= 0.0
    ensures a * c <= b * c
  {
    assert (b - a) * c >= 0.0;
  }

  lemma Commute(a: real, b: real)
    ensures a * b == b * a && (-a) * b == -(b * a)
  {
  }

  lemma DifferenceBound(m: real, y: real, g: real, v: real, err: real)
    requires 0.0 < y <= v && -err < g < err && m == y * g
    ensures -(v * err) <= m <= v * err
  {
    ProductLe(y, g, v, err);
    ProductLe(y, -g, v, err);
    Negate(y, g);
  }

  lemma NonNegative(a: real, b: real)
    requires a >= 0.0 && b >= 0.0
    ensures a * b >= 0.0
  {
  }

  lemma Distribute(a: real, b: real, c: real)
    ensures a * (b - c) == a * b - a * c
  {
  }

  lemma ProductLe(y: real, g: real, v: real, err: real)
    requires 0.0 < y <= v && g <= err && err > 0.0
    ensures y * g <= v * err
  {
    NonNegative(y, err - g);
    Distribute(y, err, g);
    NonNegative(err, v - y);
    Distribute(err, v, y);
    Commute(err, v);
    Commute(err, y);
  }

  lemma Negate(a: real, b: real)
    ensures a * (-b) == -(a * b)
  {
  }

  lemma ScaleDown(d: real, p: real, m: real, v: real, err: real, u: real, k: real)
    requires u > 0.0 && p >= u && k > 0.0 && m == v * err && Tight(k, v, err, u) && -m <= d * p <= m
    ensures Within(k, d)
  {
    OneSided(d, p, m, u, k);
    Commute(d, p);
    Commute(p, d);
    Commute(-d, p);
    OneSided(-d, p, m, u, k);
    Negate(k, d);
  }

  lemma OneSided(d: real, p: real, m: real, u: real, k: real)
    requires u > 0.0 && p >= u && k > 0.0 && k * m <= u && d * p <= m
    ensures k * d <= 1.0
  {
    MulLeReal(d * p, m, k);
    Commute(d * p, k);
    Commute(m, k);
    Reassociate(k, d, p);
    Scaled(1.0, k * d, p);
  }

  // --- The words ---

  /** Word i of n, from the top: shifted down and masked. */
  function Words(target: nat, n: nat): (w: seq<nat>)
    ensures |w| == n
  {
    seq(n, i requires 0 <= i < n => WordAt(target, n - 1 - i))
  }

  function WordAt(target: nat, place: nat): nat
  {
    PowPositive(2, place * 32);
    target / Pow(2, place * 32) % WORD
  }

  function Assemble(w: seq<nat>): nat
  {
    if w == [] then 0 else Assemble(w[..|w| - 1]) * WORD + w[|w| - 1]
  }

  lemma Pow32()
    ensures Pow(2, 32) == WORD
  {
    assert Pow(2, 8) == 256;
    PowAdd(2, 8, 8);
    PowAdd(2, 16, 16);
  }

  /** Putting the words back together gives the number back, modulo what they can hold. */
  lemma {:induction false} WordsAssemble(target: nat, n: nat)
    requires target < Pow(2, n * 32)
    ensures Assemble(Words(target, n)) == target
    ensures forall i :: 0 <= i < n ==> Words(target, n)[i] < WORD
    decreases n
  {
    if n > 0 {
      var w := Words(target, n);
      var up := target / WORD;
      Pow32();
      PowAdd(2, 32, (n - 1) * 32);
      assert Pow(2, n * 32) == WORD * Pow(2, (n - 1) * 32);
      BelowQuotient(target, WORD, Pow(2, (n - 1) * 32));
      WordsAssemble(up, n - 1);
      forall i | 0 <= i < n - 1 ensures w[i] == Words(up, n - 1)[i] { NextPlace(target, n - 2 - i); }
      assert w[..n - 1] == Words(up, n - 1);
      LowWord(target);
      assert w[n - 1] == WordAt(target, 0);
    }
  }

  lemma BelowQuotient(n: nat, d: nat, m: nat)
    requires d > 0 && n < d * m
    ensures n / d < m
  {
    Division(n, d);
    if n / d >= m { MulLe(m, n / d, d, d); }
  }

  lemma LowWord(target: nat)
    ensures WordAt(target, 0) == target % WORD
  {
    assert Pow(2, 0) == 1;
  }

  lemma NextPlace(target: nat, place: nat)
    ensures WordAt(target, place + 1) == WordAt(target / WORD, place)
  {
    Pow32();
    PowAdd(2, 32, place * 32);
    PowPositive(2, place * 32);
    DivideTwice(target, WORD, Pow(2, place * 32));
    assert (place + 1) * 32 == 32 + place * 32;
  }

  // --- The table ---

  /** The numerator of the quotient: two, scaled by the words and by the unit. */
  function Dividend(bits: nat, n: nat): nat
  {
    2 * (Pow(2, n * 32) * Pow(2, bits + 32))
  }

  /** target is the floor of n / exact, give or take 1 / c. */
  ghost predicate Near(target: nat, n: nat, exact: real, c: nat)
  {
    && exact > 0.0
    && c as real * (target as real - n as real / exact) <= 1.0
    && c as real * (n as real / exact - 1.0 - target as real) <= 1.0
  }

  /** Near the quotient by Machin's exact sum, taken k and j terms far or any further. */
  ghost predicate NearFrom(target: nat, bits: nat, n: nat, k: nat, j: nat, c: nat)
  {
    forall p, q {:trigger ExactPi(Pow(2, bits + 32), p, q)} :: p >= k && q >= j ==>
      Near(target, Dividend(bits, n), ExactPi(Pow(2, bits + 32), p, q), c)
  }

  /** The precision leaves room for the truncations, with e bits to spare. */
  ghost predicate Roomy(bits: nat, n: nat, e: nat)
  {
    Pow(2, e) * (Pow(2, n * 32) * Slack(bits + 32)) <= Pow(2, bits + 32)
  }

  /**
   The table of n words from some bits of working precision. The words hold the whole
   target, and the target is the floor of the quotient by the exact sum, taken as far as
   the loops run or any further, give or take 2^-e, when the precision leaves room for that.
   */
  method WordsOfTwoOverPi(bits: nat, n: nat, ghost e: nat) returns (w: seq<nat>, ghost k: nat, ghost j: nat)
    requires Roomy(bits, n, e)
    ensures |w| == n && forall i :: 0 <= i < n ==> w[i] < WORD
    ensures Stopped(bits + 32, 5, k) && Stopped(bits + 32, 239, j)
    ensures NearFrom(Assemble(w), bits, n, k, j, Pow(2, e))
  {
    hide PiClose, NearFrom, Stopped, Pow, Dividend, Roomy, Words, Assemble;
    var pi;
    pi, k, j := MachinPi(bits);
    TableNearFrom(bits, n, e, pi, k, j);
    var target := Dividend(bits, n) / pi;
    w := Words(target, n);
    WordsAssemble(target, n);
  }

  lemma TableNearFrom(bits: nat, n: nat, e: nat, pi: int, k: nat, j: nat)
    requires Roomy(bits, n, e) && PiClose(bits + 32, pi, k, j)
    ensures pi > 0 && Dividend(bits, n) / pi < Pow(2, n * 32)
    ensures NearFrom(Dividend(bits, n) / pi, bits, n, k, j, Pow(2, e))
  {
    hide ExactPi, Slack, Near, Pow, Dividend;
    PowPositive(2, n * 32);
    PiAtLeast(bits + 32, Pow(2, n * 32), e, pi, k, j);
    TableNear(bits, n, e, pi, k, j);
    forall p, q {:trigger ExactPi(Pow(2, bits + 32), p, q)} | p >= k && q >= j
      ensures Near(Dividend(bits, n) / pi, Dividend(bits, n), ExactPi(Pow(2, bits + 32), p, q), Pow(2, e))
    {
      PiAtLeast(bits + 32, Pow(2, n * 32), e, pi, p, q);
      TableNear(bits, n, e, pi, p, q);
    }
  }

  lemma TableNear(bits: nat, n: nat, e: nat, pi: nat, k: nat, j: nat)
    requires Roomy(bits, n, e) && pi > 2 * Pow(2, bits + 32)
    requires ExactPi(Pow(2, bits + 32), k, j) >= 3.0 * Pow(2, bits + 32) as real
    requires -(Slack(bits + 32) as real) < pi as real - ExactPi(Pow(2, bits + 32), k, j) < Slack(bits + 32) as real
    ensures Dividend(bits, n) / pi < Pow(2, n * 32)
    ensures Near(Dividend(bits, n) / pi, Dividend(bits, n), ExactPi(Pow(2, bits + 32), k, j), Pow(2, e))
  {
    hide ExactPi, Near;
    PowPositive(2, bits + 32);
    PowPositive(2, n * 32);
    PowPositive(2, e);
    TargetNear(Pow(2, bits + 32), Pow(2, n * 32), Slack(bits + 32), Pow(2, e), pi, ExactPi(Pow(2, bits + 32), k, j));
  }

  /** The computed value lies above twice the unit, so the quotient fits its words. */
  lemma PiAtLeast(b: nat, v: nat, e: nat, pi: int, k: nat, j: nat)
    requires v > 0 && Pow(2, e) * (v * Slack(b)) <= Pow(2, b)
    requires -(Slack(b) as real) < pi as real - ExactPi(Pow(2, b), k, j)
    ensures pi > 2 * Pow(2, b) && ExactPi(Pow(2, b), k, j) >= 3.0 * Pow(2, b) as real
  {
    hide ExactPi;
    PowPositive(2, e);
    ExactPiBounds(Pow(2, b), k, j);
    MulLe(1, v, Slack(b), Slack(b));
    MulLe(1, Pow(2, e), v * Slack(b), v * Slack(b));
  }

  /** The floor of the quotient by pi, against the quotient by the number pi is close to. */
  lemma TargetNear(u: nat, v: nat, err: nat, c: nat, pi: nat, exact: real)
    requires u > 0 && v > 0 && err > 0 && c > 0 && c * (v * err) <= u
    requires pi > 2 * u && exact >= 3.0 * u as real && -(err as real) < pi as real - exact < err as real
    ensures (2 * (v * u)) / pi < v
    ensures Near((2 * (v * u)) / pi, 2 * (v * u), exact, c)
  {
    hide Near, Numerator, Tight;
    var n := 2 * (v * u);
    Division(n, pi);
    TargetFits(n / pi, v, u, pi);
    RealPremises(u, v, err, c);
    Floored(n, u, v, err, c, pi, exact);
  }

  lemma Floored(n: nat, u: nat, v: nat, err: nat, c: nat, pi: nat, exact: real)
    requires u > 0 && v > 0 && err > 0 && c > 0 && Numerator(n as real, v as real, u as real)
    requires Tight(c as real, v as real, err as real, u as real)
    requires pi > 2 * u && exact >= 3.0 * u as real && -(err as real) < pi as real - exact < err as real
    ensures Near(n / pi, n, exact, c)
  {
    hide Near, Numerator, Tight, Within;
    FloorStep(n, n as real, pi);
    CloseQuotients(n as real, pi as real, exact, v as real, u as real, err as real, c as real);
    Bracket(c, n / pi, n, n as real / pi as real, exact);
  }

  lemma RealPremises(u: nat, v: nat, err: nat, c: nat)
    requires c * (v * err) <= u
    ensures Numerator((2 * (v * u)) as real, v as real, u as real)
    ensures Tight(c as real, v as real, err as real, u as real)
  {
    ProductReal(v, u);
    ProductReal(2, v * u);
    Reassociate(2.0, v as real, u as real);
    ProductReal(v, err);
    ProductReal(c, v * err);
  }

  lemma TargetFits(target: nat, v: nat, u: nat, pi: nat)
    requires v > 0 && pi > 2 * u && target * pi <= 2 * (v * u)
    ensures target < v
  {
    assert v * (2 * u + 1) == 2 * (v * u) + v;
    if target >= v { MulLe(v, target, 2 * u + 1, pi); }
  }

  lemma Bracket(c: nat, target: nat, n: nat, x: real, exact: real)
    requires c > 0 && exact > 0.0 && target as real <= x < target as real + 1.0
    requires Within(c as real, x - n as real / exact)
    ensures Near(target, n, exact, c)
  {
    var y := n as real / exact;
    BracketReal(c as real, target as real, x, y);
  }

  lemma BracketReal(c: real, t: real, x: real, y: real)
    requires c > 0.0 && t <= x < t + 1.0 && Within(c, x - y)
    ensures c * (t - y) <= 1.0 && c * (y - 1.0 - t) <= 1.0
  {
    NonNegative(c, x - t);
    NonNegative(c, t + 1.0 - x);
    Distribute(c, x - y, x - t);
    assert x - y - (x - t) == t - y;
    Distribute(c, y - x, t + 1.0 - x);
    assert y - x - (t + 1.0 - x) == y - 1.0 - t;
    Negate(c, x - y);
    assert -(x - y) == y - x;
  }

  /** The constants of the script leave room for a table good to 2^-300 beyond its floor. */
  const MARGIN: nat := 300

  lemma Room(m: nat, w: nat, spare: nat, s: nat)
    requires s <= Pow(2, spare)
    ensures Pow(2, m) * (Pow(2, w) * s) <= Pow(2, m + (w + spare))
  {
    PowAdd(2, m, w + spare);
    PowAdd(2, w, spare);
    MulLe(Pow(2, w), Pow(2, w), s, Pow(2, spare));
    MulLe(Pow(2, m), Pow(2, m), Pow(2, w) * s, Pow(2, w) * Pow(2, spare));
  }

  lemma RoomForTruncations()
    ensures Roomy(BITS, WORDS, MARGIN)
  {
    hide Pow;
    Pow32();
    PowGrows(32, 84);
    Room(MARGIN, WORDS * 32, 84, Slack(BITS + 32));
  }

  /** The table as the script generates it. */
  method Table() returns (w: seq<nat>, ghost k: nat, ghost j: nat)
    ensures |w| == WORDS && forall i :: 0 <= i < WORDS ==> w[i] < WORD
    ensures Stopped(BITS + 32, 5, k) && Stopped(BITS + 32, 239, j)
    ensures NearFrom(Assemble(w), BITS, WORDS, k, j, Pow(2, MARGIN))
  {
    hide Pow, NearFrom, Assemble, Roomy, Stopped;
    RoomForTruncations();
    w, k, j := WordsOfTwoOverPi(BITS, WORDS, MARGIN);
  }
}
