/** What the algorithms on big integers rest on: divisors, powers, primes and Fermat's theorem. */
module NumberTheory {
  import opened Naturals

  // ----- divisibility -----

  predicate Divides(d: nat, n: nat)
    requires d > 0
  {
    Remainder(n, d) == 0
  }

  lemma DividesIs(d: nat, n: nat, k: int)
    requires d > 0 && n == k * d
    ensures Divides(d, n)
  {
    hide Remainder;
    QuotientIs(n, d, k, 0);
  }

  lemma Cofactor(d: nat, n: nat) returns (k: nat)
    requires d > 0 && Divides(d, n)
    ensures n == k * d
  {
    hide Remainder, Quotient;
    DivMod(n, d);
    k := Quotient(n, d);
  }

  lemma DividesSum(d: nat, m: nat, n: nat)
    requires d > 0 && Divides(d, m)
    ensures Divides(d, n) <==> Divides(d, m + n)
  {
    hide Divides;
    if Divides(d, n) {
      DividesAdd(d, m, n);
    }
    if Divides(d, m + n) {
      DividesRest(d, m, n);
    }
  }

  lemma DividesAdd(d: nat, m: nat, n: nat)
    requires d > 0 && Divides(d, m) && Divides(d, n)
    ensures Divides(d, m + n)
  {
    hide Divides;
    var k := Cofactor(d, m);
    var l := Cofactor(d, n);
    Distribute(k, l, d);
    DividesIs(d, m + n, k + l);
  }

  lemma DividesRest(d: nat, m: nat, n: nat)
    requires d > 0 && Divides(d, m) && Divides(d, m + n)
    ensures Divides(d, n)
  {
    hide Divides;
    var k := Cofactor(d, m);
    var l := Cofactor(d, m + n);
    Distribute(l, k, d);
    DividesIs(d, n, l - k);
  }

  lemma DividesTimes(d: nat, m: nat, n: nat)
    requires d > 0 && Divides(d, m)
    ensures Divides(d, m * n)
  {
    hide Divides;
    var k := Cofactor(d, m);
    SwapFactors(k, d, n);
    DividesIs(d, m * n, k * n);
  }

  // Equal remainders are a difference that the modulus divides.
  lemma SameRemainder(a: nat, b: nat, n: nat)
    requires n > 0 && a <= b
    ensures Remainder(a, n) == Remainder(b, n) <==> Divides(n, b - a)
  {
    hide Remainder, Quotient;
    DivMod(a, n);
    DivMod(b, n);
    Distribute(Quotient(b, n), Quotient(a, n), n);
    if Remainder(a, n) == Remainder(b, n) {
      DividesIs(n, b - a, Quotient(b, n) - Quotient(a, n));
    }
    if Divides(n, b - a) {
      var k := Cofactor(n, b - a);
      Distribute(k, Quotient(a, n), n);
      QuotientIs(b, n, k + Quotient(a, n), Remainder(a, n));
    }
  }

  lemma RemainderOfSmall(a: nat, n: nat)
    requires a < n
    ensures Remainder(a, n) == a
  {
    QuotientIs(a, n, 0, a);
  }

  // A factor may be reduced before multiplying.
  lemma RemainderTimes(a: nat, b: nat, n: nat)
    requires n > 0
    ensures Remainder(Remainder(a, n) * b, n) == Remainder(a * b, n)
  {
    hide Remainder, Quotient;
    DivMod(a, n);
    var q, r := Quotient(a, n), Remainder(a, n);
    Distribute(q * n, r, b);
    SwapFactors(q, n, b);
    Monotone(0, q * n, b);
    DividesIs(n, a * b - r * b, q * b);
    SameRemainder(r * b, a * b, n);
  }

  lemma RemainderTimesBoth(a: nat, b: nat, n: nat)
    requires n > 0
    ensures Remainder(Remainder(a, n) * Remainder(b, n), n) == Remainder(a * b, n)
  {
    hide Remainder;
    RemainderTimes(a, Remainder(b, n), n);
    RemainderTimes(b, a, n);
  }

  // Factors with equal remainders make products with equal remainders.
  lemma RemainderCongruent(r: nat, x: nat, s: nat, n: nat)
    requires n > 0 && Remainder(x, n) == Remainder(s, n)
    ensures Remainder(r * x, n) == Remainder(r * s, n)
  {
    hide Remainder;
    RemainderTimes(x, r, n);
    RemainderTimes(s, r, n);
  }

  // ----- greatest common divisors -----

  // Euclid's algorithm.
  function Gcd(a: nat, b: nat): nat
    decreases b
  {
    if b == 0 then a else
      DivMod(a, b);
      Gcd(b, Remainder(a, b))
  }

  lemma {:induction false} Bezout(a: nat, b: nat) returns (x: int, y: int)
    ensures x * a + y * b == Gcd(a, b)
    decreases b
  {
    hide Remainder, Quotient;
    if b == 0 {
      return 1, 0;
    }
    DivMod(a, b);
    var q, r := Quotient(a, b), Remainder(a, b);
    var x1, y1 := Bezout(b, r);
    x, y := y1, x1 - y1 * q;
    Distribute(x1, y1 * q, b);
    Associate(y1, q, b);
    Distribute(a, q * b, y1);
  }

  // The common divisors of two numbers are the divisors of their gcd.
  lemma {:induction false} CommonDivisors(a: nat, b: nat, d: nat)
    requires d > 0
    ensures Divides(d, Gcd(a, b)) <==> Divides(d, a) && Divides(d, b)
    decreases b
  {
    hide Remainder, Quotient, Divides;
    if b == 0 {
      DividesIs(d, 0, 0);
    } else {
      DivMod(a, b);
      var q, r := Quotient(a, b), Remainder(a, b);
      CommonDivisors(b, r, d);
      if Divides(d, b) {
        DividesTimes(d, b, q);
        DividesSum(d, q * b, r);
      }
    }
  }

  lemma DividesBounds(d: nat, n: nat)
    requires d > 0 && n > 0 && Divides(d, n)
    ensures d <= n
  {
    hide Divides;
    var k := Cofactor(d, n);
    if k > 0 {
      Monotone(1, k, d);
    }
  }

  lemma {:induction false} GcdPositive(a: nat, b: nat)
    ensures Gcd(a, b) == 0 <==> a == 0 && b == 0
    decreases b
  {
    if b != 0 {
      DivMod(a, b);
      GcdPositive(b, Remainder(a, b));
    }
  }

  // The gcd is the only number with exactly those divisors.
  lemma GcdIs(a: nat, b: nat, g: nat)
    requires g > 0 && forall d: nat | d > 0 :: Divides(d, g) <==> Divides(d, a) && Divides(d, b)
    requires a > 0 || b > 0
    ensures g == Gcd(a, b)
  {
    hide Divides, Gcd;
    GcdPositive(a, b);
    var h := Gcd(a, b);
    CommonDivisors(a, b, g);
    CommonDivisors(a, b, h);
    DividesIs(g, g, 1);
    DividesIs(h, h, 1);
    DividesBounds(g, h);
    DividesBounds(h, g);
  }

  // ----- primes -----

  ghost predicate IsPrime(p: nat) {
    p > 1 && forall d: nat | 1 < d < p :: !Divides(d, p)
  }

  lemma Coprime(p: nat, a: nat)
    requires IsPrime(p) && !Divides(p, a)
    ensures Gcd(a, p) == 1
  {
    hide Divides, Gcd;
    GcdPositive(a, p);
    var g := Gcd(a, p);
    DividesIs(g, g, 1);
    CommonDivisors(a, p, g);
    DividesBounds(g, p);
  }

  // Euclid's lemma.
  lemma PrimeDividesFactor(p: nat, a: nat, b: nat)
    requires IsPrime(p) && Divides(p, a * b)
    ensures Divides(p, a) || Divides(p, b)
  {
    hide Divides, Gcd, IsPrime;
    PrimeIsLarge(p);
    if !Divides(p, a) {
      Coprime(p, a);
      var x, y := Bezout(a, p);
      var k := Cofactor(p, a * b);
      Distribute(x * a, y * p, b);
      Associate(x, a, b);
      Associate(x, k, p);
      SwapFactors(y, p, b);
      Distribute(x * k, y * b, p);
      DividesIs(p, b, x * k + y * b);
    }
  }

  // ----- powers -----

  function Power(b: nat, e: nat): nat {
    if e == 0 then 1 else b * Power(b, e - 1)
  }

  lemma {:induction false} PowerAdds(b: nat, i: nat, j: nat)
    ensures Power(b, i + j) == Power(b, i) * Power(b, j)
  {
    if j > 0 {
      PowerAdds(b, i, j - 1);
      assert Power(b, i + j) == b * Power(b, i + (j - 1));
      Associate(b, Power(b, i), Power(b, j - 1));
      Associate(Power(b, i), b, Power(b, j - 1));
    }
  }

  lemma {:induction false} PowerTimes(b: nat, i: nat, j: nat)
    ensures Power(Power(b, i), j) == Power(b, i * j)
  {
    if j == 0 {
      assert i * 0 == 0;
    } else {
      PowerTimes(b, i, j - 1);
      Distribute(j - 1, 1, i);
      PowerAdds(b, i, i * (j - 1));
    }
  }

  lemma {:induction false} RemainderPower(b: nat, e: nat, n: nat)
    requires n > 0
    ensures Remainder(Power(Remainder(b, n), e), n) == Remainder(Power(b, e), n)
  {
    hide Remainder;
    if e > 0 {
      RemainderPower(b, e - 1, n);
      var s := Remainder(b, n);
      RemainderTimes(b, Power(s, e - 1), n);
      RemainderTimes(Power(s, e - 1), b, n);
      RemainderTimes(Power(b, e - 1), b, n);
    }
  }

  // ----- Fermat's theorem -----

  function Binomial(n: nat, k: nat): nat {
    if k == 0 then 1 else if n == 0 then 0 else Binomial(n - 1, k - 1) + Binomial(n - 1, k)
  }

  lemma {:induction false} BinomialBeyond(n: nat, k: nat)
    requires k > n
    ensures Binomial(n, k) == 0
  {
    if n > 0 {
      BinomialBeyond(n - 1, k - 1);
      BinomialBeyond(n - 1, k);
    }
  }

  lemma {:induction false} BinomialAll(n: nat)
    ensures Binomial(n, n) == 1
  {
    if n > 0 {
      BinomialAll(n - 1);
      BinomialBeyond(n - 1, n);
    }
  }

  lemma {:induction false} Absorption(n: nat, k: nat)
    requires n > 0 && k > 0
    ensures k * Binomial(n, k) == n * Binomial(n - 1, k - 1)
  {
    if n > 1 {
      Absorption(n - 1, k);
      if k > 1 {
        Absorption(n - 1, k - 1);
      }
      AbsorptionStep(n, k, Binomial(n - 1, k - 1), Binomial(n - 1, k),
                     if k > 1 then Binomial(n - 2, k - 2) else 0, Binomial(n - 2, k - 1));
    }
  }

  lemma AbsorptionStep(n: int, k: int, c: int, e: int, f: int, g: int)
    requires k * e == (n - 1) * g && (k - 1) * c == (n - 1) * f && c == f + g
    ensures k * (c + e) == n * c
  {
    Distribute(k, 1, c);
    Distribute(c, e, k);
    Distribute(f, g, n - 1);
    Distribute(n, 1, c);
  }

  lemma PrimeDividesBinomial(p: nat, k: nat)
    requires IsPrime(p) && 0 < k < p
    ensures Divides(p, Binomial(p, k))
  {
    hide Divides, Binomial, IsPrime;
    Absorption(p, k);
    DividesIs(p, k * Binomial(p, k), Binomial(p - 1, k - 1));
    PrimeDividesFactor(p, k, Binomial(p, k));
    if Divides(p, k) {
      DividesBounds(p, k);
    }
  }

  // The first m terms of (a + 1) to the n.
  function Expansion(n: nat, m: nat, a: nat): nat {
    if m == 0 then 0 else Expansion(n, m - 1, a) + Binomial(n, m - 1) * Power(a, m - 1)
  }

  lemma {:induction false} ExpansionStep(n: nat, m: nat, a: nat)
    ensures Expansion(n + 1, m + 1, a) == Expansion(n, m + 1, a) + a * Expansion(n, m, a)
  {
    if m > 0 {
      ExpansionStep(n, m - 1, a);
      var c, d, x := Binomial(n, m - 1), Binomial(n, m), Power(a, m - 1);
      assert Binomial(n + 1, m) == c + d && Power(a, m) == a * x;
      NextTerm(Expansion(n, m - 1, a), c, d, a, x);
    }
  }

  lemma NextTerm(s: int, c: int, d: int, a: int, x: int)
    ensures a * s + (c + d) * (a * x) == d * (a * x) + a * (s + c * x)
  {
    Distribute(c, d, a * x);
    Distribute(s, c * x, a);
    Associate(c, a, x);
    Associate(a, c, x);
  }

  lemma {:induction false} BinomialTheorem(n: nat, a: nat)
    ensures Expansion(n, n + 1, a) == Power(a + 1, n)
  {
    if n == 0 {
      assert Expansion(0, 1, a) == Expansion(0, 0, a) + 1 * 1;
    } else {
      BinomialTheorem(n - 1, a);
      ExpansionStep(n - 1, n, a);
      BinomialBeyond(n - 1, n);
      assert Expansion(n - 1, n + 1, a) == Expansion(n - 1, n, a) + 0 * Power(a, n);
      Distribute(a, 1, Power(a + 1, n - 1));
    }
  }

  // Between the first and the last term, a prime divides everything.
  lemma {:induction false} MiddleTerms(p: nat, m: nat, a: nat)
    requires IsPrime(p) && 1 <= m <= p
    ensures Expansion(p, m, a) >= 1 && Divides(p, Expansion(p, m, a) - 1)
  {
    hide Divides, Binomial, IsPrime;
    if m == 1 {
      ExpansionOfOne(p, a);
      DividesIs(p, 0, 0);
    } else {
      MiddleTerms(p, m - 1, a);
      PrimeDividesBinomial(p, m - 1);
      DividesTimes(p, Binomial(p, m - 1), Power(a, m - 1));
      DividesSum(p, Expansion(p, m - 1, a) - 1, Binomial(p, m - 1) * Power(a, m - 1));
    }
  }

  lemma ExpansionOfOne(n: nat, a: nat)
    ensures Expansion(n, 1, a) == 1
  {
    assert Expansion(n, 1, a) == Expansion(n, 0, a) + Binomial(n, 0) * Power(a, 0);
  }

  lemma {:induction false} FermatPower(p: nat, a: nat)
    requires IsPrime(p)
    ensures Power(a, p) >= a && Divides(p, Power(a, p) - a)
  {
    hide Divides, Binomial, IsPrime, Expansion;
    PrimeIsLarge(p);
    if a == 0 {
      DividesIs(p, 0, 0);
    } else {
      FermatPower(p, a - 1);
      BinomialTheorem(p, a - 1);
      MiddleTerms(p, p, a - 1);
      LastTerm(p, a - 1);
      DividesSum(p, Power(a - 1, p) - (a - 1), Expansion(p, p, a - 1) - 1);
    }
  }

  lemma PrimeIsLarge(p: nat)
    requires IsPrime(p)
    ensures p > 1
  {
  }

  lemma LastTerm(n: nat, a: nat)
    ensures Expansion(n, n + 1, a) == Expansion(n, n, a) + Power(a, n)
  {
    BinomialAll(n);
  }

  // Fermat's little theorem.
  lemma Fermat(p: nat, a: nat)
    requires IsPrime(p) && !Divides(p, a)
    ensures Remainder(Power(a, p - 1), p) == 1
  {
    hide Divides, IsPrime, Remainder;
    PrimeIsLarge(p);
    FermatPower(p, a);
    DividesIs(p, 0, 0);
    PowerPositive(a, p - 1);
    CancelFactor(p, a, Power(a, p - 1));
  }

  // A factor that p does not divide can be cancelled modulo p.
  lemma CancelFactor(p: nat, a: nat, x: nat)
    requires IsPrime(p) && !Divides(p, a) && x > 0 && a * x >= a && Divides(p, a * x - a)
    ensures Remainder(x, p) == 1
  {
    hide Divides, IsPrime, Remainder;
    PrimeIsLarge(p);
    Distribute(x, 1, a);
    assert a * (x - 1) == a * x - a;
    PrimeDividesFactor(p, a, x - 1);
    SameRemainder(1, x, p);
    RemainderOfSmall(1, p);
  }

  lemma {:induction false} PowerPositive(b: nat, e: nat)
    ensures b > 0 ==> Power(b, e) > 0
  {
    if e > 0 && b > 0 {
      PowerPositive(b, e - 1);
      Monotone(1, b, Power(b, e - 1));
    }
  }

  // Modulo a prime, 1 has no square roots but 1 and -1.
  lemma RootsOfOne(p: nat, x: nat)
    requires IsPrime(p) && x < p && Remainder(x * x, p) == 1
    ensures x == 1 || x == p - 1
  {
    hide Divides, IsPrime, Remainder;
    PrimeIsLarge(p);
    RemainderOfSmall(1, p);
    if x == 0 {
      RemainderOfSmall(0, p);
    } else {
      Monotone(1, x, x);
      SameRemainder(1, x * x, p);
      Distribute(x, 1, x + 1);
      assert (x - 1) * (x + 1) == x * x - 1;
      PrimeDividesFactor(p, x - 1, x + 1);
      if Divides(p, x - 1) && x > 1 {
        DividesBounds(p, x - 1);
      }
      if Divides(p, x + 1) {
        DividesBounds(p, x + 1);
      }
    }
  }
}
