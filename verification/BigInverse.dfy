/** The inverse modulo a number, by the extended Euclidean algorithm. */
module BigInverse {
  import opened Naturals
  import opened BigDigits
  import opened BigUInts
  import opened BigArithmetic
  import opened BigMultiplication
  import opened BigDivision
  import opened NumberTheory
  import opened BigExponentiation
  import opened BigGcd
  import opened BigInts

  datatype Inversion = NoInverse | InverseIs(value: BigUInt)

  function Abs(x: int): nat {
    if x < 0 then -x else x
  }

  // t is the coefficient that makes r out of s, up to multiples of m.
  ghost predicate Makes(t: int, s: nat, r: nat, m: nat, k: int) {
    t * s == r + k * m
  }

  ghost predicate IsInverse(a: nat, s: nat, m: nat)
    requires m > 0
  {
    a < m && Remainder(a * s, m) == 1
  }

  // What every round keeps.
  ghost predicate Euclid(s: nat, m: nat, t1: int, t2: int, r1: nat, r2: nat, k1: int, k2: int) {
    && Makes(t1, s, r1, m, k1) && Makes(t2, s, r2, m, k2)
    && Gcd(r1, r2) == Gcd(s, m)
    && (t1 <= 0 <= t2 || t2 <= 0 <= t1)
    && Abs(t2) * r1 + Abs(t1) * r2 == m
    && (r2 > 0 ==> r1 > 1)
    && Abs(t1) < m && r1 > 0
  }

  lemma EuclidBegins(s: nat, m: nat)
    requires m > 1
    ensures Euclid(s, m, 0, 1, m, s, -1, 0)
  {
    GcdCommutes(m, s);
  }

  // Absolute values add up when the signs alternate.
  lemma SignsAlternate(t1: int, t2: int, q: nat)
    requires t1 <= 0 <= t2 || t2 <= 0 <= t1
    ensures Abs(t1 - q * t2) == Abs(t1) + q * Abs(t2)
    ensures t1 - q * t2 <= 0 <= t2 || t2 <= 0 <= t1 - q * t2
  {
    if t2 >= 0 {
      Monotone(0, t2, q);
    } else {
      Monotone(0, -t2, q);
      assert q * -t2 == -(q * t2);
    }
  }

  lemma CoefficientStep(t1: int, t2: int, s: nat, r1: int, r2: int, m: nat, k1: int, k2: int, q: int)
    requires t1 * s == r1 + k1 * m && t2 * s == r2 + k2 * m
    ensures (t1 - q * t2) * s == (r1 - q * r2) + (k1 - q * k2) * m
  {
    Distribute(t1, q * t2, s);
    Associate(q, t2, s);
    Distribute(r2, k2 * m, q);
    Distribute(k1, q * k2, m);
    Associate(q, k2, m);
  }

  lemma ConservedStep(a1: nat, a2: nat, r1: int, r2: int, q: int)
    ensures (a1 + q * a2) * r2 + a2 * (r1 - q * r2) == a2 * r1 + a1 * r2
  {
    Distribute(a1, q * a2, r2);
    Distribute(r1, q * r2, a2);
    Associate(q, a2, r2);
    assert a2 * (q * r2) == q * (a2 * r2);
  }

  // What a multiple leaves.
  ghost function Without(a: int, q: int, b: int): int {
    a - q * b
  }

  // One round: divide, and subtract the multiple of the second row from the first.
  lemma EuclidStep(s: nat, m: nat, t1: int, t2: int, r1: nat, r2: nat, k1: int, k2: int)
    requires Euclid(s, m, t1, t2, r1, r2, k1, k2) && r2 > 0
    ensures var q := Quotient(r1, r2);
      0 <= Without(r1, q, r2) < r2
      && Euclid(s, m, t2, Without(t1, q, t2), r2, Without(r1, q, r2), k2, Without(k1, q, k2))
  {
    hide Quotient, Remainder;
    var q := Quotient(r1, r2);
    DivMod(r1, r2);
    CoefficientStep(t1, t2, s, r1, r2, m, k1, k2, q);
    ConservedStep(Abs(t1), Abs(t2), r1, r2, q);
    SignsAlternate(t1, t2, q);
    NotWhole(Abs(t2), Abs(t1), r1, r2, m);
    assert Gcd(r1, r2) == Gcd(r2, Remainder(r1, r2));
  }

  lemma NotWhole(a2: nat, a1: nat, r1: nat, r2: nat, m: nat)
    requires a2 * r1 + a1 * r2 == m > 0 && r1 > 1
    ensures a2 < m
  {
    Monotone(2, r1, a2);
    Monotone(0, a1, r2);
  }

  // With 1 as the last remainder, its coefficient is the inverse.
  lemma InverseFound(s: nat, m: nat, t: int, k: int, a: nat)
    requires m > 1 && Makes(t, s, 1, m, k) && Abs(t) < m && a == (if t < 0 then m + t else t)
    ensures IsInverse(a, s, m)
  {
    hide Remainder;
    if t < 0 {
      Distribute(m, t, s);
      Distribute(k, s, m);
      QuotientIs(a * s, m, k + s, 1);
    } else {
      QuotientIs(a * s, m, k, 1);
    }
  }

  // The number that gives 1 when multiplied by s modulo m, if there is one.
  method Inverse(s: BigUInt, modulus: BigUInt, limit: int) returns (r: Inversion)
    requires s.Valid() && modulus.Valid() && modulus.Value() > 1
    ensures r.NoInverse? <==> Gcd(s.Value(), modulus.Value()) != 1
    ensures r.InverseIs? ==> r.value.Valid() && IsInverse(r.value.Value(), s.Value(), modulus.Value())
  {
    hide BigUInt.Valid, BigUInt.Words, ValueOf, Gcd, Remainder, Quotient, Euclid, IsInverse;
    ghost var sv, m := s.Value(), modulus.Value();
    var t, r1 := LastCoefficient(s, modulus, limit);
    var one := FromWord(1);
    var c := Compare(r1, one);
    if c > 0 {
      return NoInverse;
    }
    if t.minus {
      var d := Difference(modulus, t.magnitude);
      ghost var k :| Makes(t.Value(), sv, 1, m, k);
      InverseFound(sv, m, t.Value(), k, d.Value());
      r := InverseIs(d);
    } else {
      ghost var k :| Makes(t.Value(), sv, 1, m, k);
      InverseFound(sv, m, t.Value(), k, t.magnitude.Value());
      r := InverseIs(t.magnitude);
    }
  }

  // Euclid's loop: the gcd and its coefficient.
  method LastCoefficient(s: BigUInt, modulus: BigUInt, limit: int) returns (t: BigInt, g: BigUInt)
    requires s.Valid() && modulus.Valid() && modulus.Value() > 1
    ensures t.Valid() && g.Valid() && g.Value() == Gcd(s.Value(), modulus.Value()) > 0
    ensures Abs(t.Value()) < modulus.Value() && exists k: int :: Makes(t.Value(), s.Value(), g.Value(), modulus.Value(), k)
  {
    hide BigUInt.Valid, BigUInt.Words, ValueOf, Gcd, Remainder, Quotient, Euclid, Makes;
    ghost var sv, m := s.Value(), modulus.Value();
    ghost var k1: int, k2: int := -1, 0;
    var zero := new BigUInt();
    var one := FromWord(1);
    NoQuotientYet([], 0);
    var t1 := BigInt(false, zero);
    var t2 := BigInt(false, one);
    var r1 := modulus.Copy();
    var r2 := s.Copy();
    EuclidBegins(sv, m);
    var done := r2.IsZero();
    while !done
      invariant r1.Valid() && r2.Valid() && t1.Valid() && t2.Valid() && (done <==> r2.Value() == 0)
      invariant Euclid(sv, m, t1.Value(), t2.Value(), r1.Value(), r2.Value(), k1, k2)
      decreases r2.Value()
    {
      ghost var k3: int;
      var t3, r3;
      t3, r3, k3 := NextRow(t1, t2, r1, r2, sv, m, k1, k2, limit);
      k1, k2 := k2, k3;
      t1, t2 := t2, t3;
      r1, r2 := r2, r3;
      done := r2.IsZero();
    }
    EuclidEnds(sv, m, t1.Value(), t2.Value(), r1.Value(), k1, k2);
    return t1, r1;
  }

  lemma EuclidEnds(s: nat, m: nat, t1: int, t2: int, r1: nat, k1: int, k2: int)
    requires Euclid(s, m, t1, t2, r1, 0, k1, k2)
    ensures r1 == Gcd(s, m) > 0 && Abs(t1) < m && Makes(t1, s, r1, m, k1)
  {
  }

  // Divides the two remainders, and subtracts the multiple of the second row from the first.
  method NextRow(t1: BigInt, t2: BigInt, r1: BigUInt, r2: BigUInt, ghost s: nat, ghost m: nat, ghost k1: int, ghost k2: int,
                 limit: int)
    returns (t3: BigInt, r3: BigUInt, ghost k3: int)
    requires t1.Valid() && t2.Valid() && r1.Valid() && r2.Valid() && r2.Value() > 0
    requires Euclid(s, m, t1.Value(), t2.Value(), r1.Value(), r2.Value(), k1, k2)
    ensures t3.Valid() && r3.Valid() && r3.Value() < r2.Value()
    ensures Euclid(s, m, t2.Value(), t3.Value(), r2.Value(), r3.Value(), k2, k3)
  {
    hide BigUInt.Valid, BigUInt.Words, ValueOf, Quotient, Remainder, Euclid, Without;
    EuclidStep(s, m, t1.Value(), t2.Value(), r1.Value(), r2.Value(), k1, k2);
    var q := r1.Copy();
    var rest := r2.Copy();
    Divide(q, rest);
    k3 := Without(k1, q.Value(), k2);
    t3 := Reduced(t1, q, t2, limit);
    var product := Multiply(q, r2, limit);
    WithoutIs(r1.Value(), q.Value(), r2.Value(), product.Value());
    r3 := Difference(r1, product);
  }

  lemma WithoutIs(a: int, q: int, b: int, product: int)
    requires product == q * b
    ensures Without(a, q, b) == a - product
  {
  }

  // t1 - q * t2
  method Reduced(t1: BigInt, q: BigUInt, t2: BigInt, limit: int) returns (t3: BigInt)
    requires t1.Valid() && q.Valid() && t2.Valid()
    ensures fresh(t3.magnitude) && t3.Valid() && t3.Value() == Without(t1.Value(), q.Value(), t2.Value())
  {
    hide BigUInt.Valid, BigUInt.Words, ValueOf;
    var multiple := Times(BigInt(false, q), t2, limit);
    t3 := Minus(t1, multiple);
  }
}
