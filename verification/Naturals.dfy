/** Arithmetic of naturals: products, quotients and remainders, one fact at a time. */
module Naturals {
  function Min(a: nat, b: nat): nat {
    if a < b then a else b
  }

  function Max(a: nat, b: nat): nat {
    if a > b then a else b
  }

  lemma Distribute(a: int, b: int, p: int)
    ensures (a + b) * p == a * p + b * p
    ensures (a - b) * p == a * p - b * p
  {
  }

  lemma Monotone(a: nat, b: nat, p: nat)
    requires a <= b
    ensures a * p <= b * p
  {
  }

  lemma Associate(a: int, b: int, c: int)
    ensures (a * b) * c == a * (b * c)
  {
  }

  lemma SwapFactors(a: int, b: int, c: int)
    ensures a * b * c == a * c * b
  {
  }

  function Quotient(n: nat, d: nat): nat
    requires d > 0
  {
    n / d
  }

  function Remainder(n: nat, d: nat): nat
    requires d > 0
  {
    n % d
  }

  lemma DivMod(n: nat, d: nat)
    requires d > 0
    ensures n == Quotient(n, d) * d + Remainder(n, d) && Remainder(n, d) < d
  {
  }

  // Quotient and remainder are the only numbers that satisfy the equation.
  lemma QuotientIs(n: nat, d: nat, q: int, r: nat)
    requires n == q * d + r && r < d
    ensures q >= 0 && Quotient(n, d) == q && Remainder(n, d) == r
  {
    hide Quotient, Remainder;
    DivMod(n, d);
    var q1 := Quotient(n, d);
    Distribute(q1, q, d);
    Distribute(q, q1, d);
    if q1 > q {
      Monotone(1, q1 - q, d);
    } else if q1 < q {
      Monotone(1, q - q1, d);
    }
  }

  lemma QuotientIsSmaller(n: nat, d: nat)
    requires d > 0
    ensures Quotient(n, d) <= n && Remainder(n, d) <= n
  {
    hide Quotient, Remainder;
    DivMod(n, d);
    Monotone(1, d, Quotient(n, d));
  }

  // A quotient is less than a bound when the bound times the divisor is out of reach.
  lemma QuotientBound(n: nat, d: nat, m: nat)
    requires d > 0 && n < m * d
    ensures Quotient(n, d) < m
  {
    hide Quotient, Remainder;
    DivMod(n, d);
    if Quotient(n, d) >= m {
      Monotone(m, Quotient(n, d), d);
    }
  }

  lemma NestedQuotient(n: nat, a: nat, b: nat)
    requires a > 0 && b > 0
    ensures a * b > 0 && Quotient(Quotient(n, a), b) == Quotient(n, a * b)
  {
    hide Quotient, Remainder;
    DivMod(n, a);
    var q1, r1 := Quotient(n, a), Remainder(n, a);
    DivMod(q1, b);
    var q2, r2 := Quotient(q1, b), Remainder(q1, b);
    Distribute(q2 * b, r2, a);
    Associate(q2, b, a);
    Monotone(r2 + 1, b, a);
    Distribute(r2, 1, a);
    Monotone(1, a, b);
    Monotone(0, r2, a);
    QuotientIs(n, a * b, q2, r2 * a + r1);
  }

  lemma QuotientAtLeast(n: nat, d: nat, m: nat)
    requires d > 0 && m * d <= n
    ensures Quotient(n, d) >= m
  {
    hide Quotient, Remainder;
    DivMod(n, d);
    var q := Quotient(n, d);
    Distribute(q, 1, d);
    if q < m {
      Monotone(q + 1, m, d);
    }
  }

  // ----- powers of two -----

  function Two(n: nat): (p: nat)
    ensures p > 0
  {
    if n == 0 then 1 else 2 * Two(n - 1)
  }

  lemma {:induction false} TwoAdds(i: nat, j: nat)
    ensures Two(i + j) == Two(i) * Two(j)
  {
    if j > 0 {
      TwoAdds(i, j - 1);
      Associate(Two(i), 2, Two(j - 1));
      Associate(2, Two(i), Two(j - 1));
      assert Two(i + j) == 2 * Two(i + (j - 1));
    }
  }

  lemma TwoOfOne()
    ensures Two(1) == 2
  {
    assert Two(1) == 2 * Two(0);
  }

  lemma TwoOfZero()
    ensures Two(0) == 1
  {
  }

  lemma TwoOfFour()
    ensures Two(4) == 16
  {
    TwoOfOne();
    assert Two(2) == 2 * Two(1) && Two(3) == 2 * Two(2) && Two(4) == 2 * Two(3);
  }

  lemma TwoOfSixteen()
    ensures Two(16) == 0x1_0000
  {
    hide Two;
    TwoOfFour();
    TwoAdds(4, 4);
    TwoAdds(8, 8);
  }

  // The sizes of words of 32 and 64 bits.
  lemma TwoOfWidths()
    ensures Two(32) == 0x1_0000_0000 && Two(64) == 0x1_0000_0000_0000_0000
  {
    hide Two;
    TwoOfSixteen();
    TwoAdds(16, 16);
    TwoAdds(32, 32);
  }

  lemma {:induction false} TwoGrows(i: nat, j: nat)
    requires i < j
    ensures Two(i) < Two(j)
  {
    if i < j - 1 {
      TwoGrows(i, j - 1);
    }
  }

  lemma TwoMonotone(i: nat, j: nat)
    requires i <= j
    ensures Two(i) <= Two(j)
  {
    if i < j {
      TwoGrows(i, j);
    }
  }

  // ----- bits -----

  // a | b
  function BitOr(a: nat, b: nat): nat {
    if a == 0 then b else if b == 0 then a else 2 * BitOr(a / 2, b / 2) + Max(a % 2, b % 2)
  }

  // Of numbers without a common bit it is the sum.
  lemma {:induction false} OrIsSum(a: nat, high: nat, k: nat)
    requires a < Two(k)
    ensures BitOr(a, high * Two(k)) == a + high * Two(k)
  {
    if k > 0 {
      var b := high * Two(k - 1);
      Associate(2, high, Two(k - 1));
      SwapFactors(2, high, Two(k - 1));
      assert high * Two(k) == 2 * b;
      OrIsSum(a / 2, high, k - 1);
    }
  }
}
