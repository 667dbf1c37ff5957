/** Powers, plain and modular, by squaring. */
module BigExponentiation {
  import opened Naturals
  import opened BigDigits
  import opened BigUInts
  import opened BigArithmetic
  import opened BigMultiplication
  import opened BigShifts
  import opened BigDivision
  import opened NumberTheory

  // ----- one bit of the exponent -----

  lemma {:induction false} PowerOfProduct(a: nat, b: nat, e: nat)
    ensures Power(a * b, e) == Power(a, e) * Power(b, e)
  {
    if e > 0 {
      PowerOfProduct(a, b, e - 1);
      var x, y := Power(a, e - 1), Power(b, e - 1);
      Associate(a, b, x * y);
      SwapFactors(x, y, b);
      Associate(x, b, y);
      Associate(a, x, b * y);
      assert b * (x * y) == x * (b * y);
    }
  }

  lemma Halving(b: nat, e: nat)
    ensures Power(b, e) == Power(b * b, Quotient(e, 2)) * (if Remainder(e, 2) == 1 then b else 1)
  {
    hide Quotient, Remainder;
    DivMod(e, 2);
    var h := Quotient(e, 2);
    PowerOfProduct(b, b, h);
    PowerAdds(b, h, h);
    if Remainder(e, 2) == 1 {
      assert Power(b, e) == b * Power(b, h + h);
    }
  }

  // base to the exponent
  method PowerOf(base: BigUInt, exponent: int, limit: int) returns (result: BigUInt)
    requires base.Valid() && (exponent < 0 ==> base.Value() > 0)
    ensures fresh(result) && result.Valid()
    ensures exponent >= 0 ==> result.Value() == Power(base.Value(), exponent)
    ensures exponent < 0 ==> result.Value() == if base.Value() == 1 then 1 else 0
  {
    hide Low, Place, BigUInt.Valid, Power, ValueOf, BigUInt.Words;
    var one := FromWord(1);
    var zero := FromWord(0);
    PowerStarts(base.Value());
    if exponent == 0 {
      return one;
    }
    if exponent == 1 {
      result := base.Copy();
      return;
    }
    var c := Compare(base, one);
    if exponent < 0 {
      return if c == 0 then one else zero;
    }
    if c <= 0 {
      result := base.Copy();
      SmallPower(base.Value(), exponent);
      return;
    }
    result := one;
    var b := base.Copy();
    var e := exponent;
    while e > 0
      invariant e >= 0 && result.Valid() && b.Valid() && fresh(result) && fresh(b)
      invariant result.Value() * Power(b.Value(), e) == Power(base.Value(), exponent)
    {
      PowerStep(result.Value(), b.Value(), e);
      if e % 2 == 1 {
        result := Multiply(result, b, limit);
      }
      e := e / 2;
      b := Multiply(b, b, limit);
    }
    PowerStarts(b.Value());
  }

  method FromWord(w: Word) returns (r: BigUInt)
    ensures fresh(r) && r.Valid() && r.Value() == w
  {
    r := new BigUInt.FromPair(w, 0);
    PairValue(r.Words(), w);
  }

  lemma PowerStarts(b: nat)
    ensures Power(b, 0) == 1 && Power(b, 1) == b
  {
    assert Power(b, 1) == b * Power(b, 0);
  }

  lemma {:induction false} SmallPower(b: nat, e: nat)
    requires b <= 1 && e > 0
    ensures Power(b, e) == b
  {
    if e > 1 {
      SmallPower(b, e - 1);
    } else {
      PowerStarts(b);
    }
  }

  lemma PowerStep(r: nat, b: nat, e: nat)
    ensures r * Power(b, e) == (if e % 2 == 1 then r * b else r) * Power(b * b, e / 2)
  {
    Halving(b, e);
    var x := Power(b * b, e / 2);
    Associate(r, b, x);
    assert x * b == b * x;
  }

  // ----- modular powers -----

  // a = a * b mod m, by the normalized modulus
  method MultiplyModulo(a: BigUInt, b: BigUInt, normalized: BigUInt, shift: nat, ghost m: nat, limit: int)
    requires a.Valid() && b.Valid() && normalized.Valid() && a != normalized && Normalized(normalized, shift, m)
    modifies a
    ensures a.Valid() && a.Value() == Remainder(old(a.Value()) * old(b.Value()), m)
  {
    hide Low, Place, BigUInt.Valid, BigUInt.Words, ValueOf, Remainder;
    var product := Multiply(a, b, limit);
    a.Assign(product);
    FormRemainder(a, normalized, shift, m);
  }

  method PowerBit(result: BigUInt, b: BigUInt, one: bool, normalized: BigUInt, shift: nat, ghost m: nat, limit: int)
    requires result.Valid() && b.Valid() && normalized.Valid() && Normalized(normalized, shift, m)
    requires result != b && result != normalized && b != normalized
    modifies result, b
    ensures result.Valid() && b.Valid()
    ensures result.Value() == if one then Remainder(old(result.Value()) * old(b.Value()), m) else old(result.Value())
    ensures b.Value() == Remainder(old(b.Value()) * old(b.Value()), m)
  {
    hide BigUInt.Valid, BigUInt.Words, ValueOf, Remainder, Normalized;
    if one {
      MultiplyModulo(result, b, normalized, shift, m, limit);
    }
    MultiplyModulo(b, b, normalized, shift, m, limit);
  }

  // One bit of the exponent, modulo m.
  lemma ModularStep(r: nat, b: nat, e: nat, m: nat)
    requires m > 0
    ensures Remainder(r * Power(b, e), m)
         == Remainder((if e % 2 == 1 then Remainder(r * b, m) else r) * Power(Remainder(b * b, m), e / 2), m)
  {
    hide Power, Remainder, Quotient;
    PowerStep(r, b, e);
    RemainderPower(b * b, e / 2, m);
    var x, s, more := Power(b * b, e / 2), Power(Remainder(b * b, m), e / 2), if e % 2 == 1 then r * b else r;
    RemainderCongruent(more, x, s, m);
    if e % 2 == 1 {
      RemainderTimes(r * b, s, m);
    }
  }

  // One word of the exponent: all its bits, lowest first, also the leading zeros.
  method PowerWord(result: BigUInt, b: BigUInt, e0: Word, normalized: BigUInt, shift: nat, ghost m: nat, limit: int)
    requires result.Valid() && b.Valid() && normalized.Valid() && Normalized(normalized, shift, m) && m > 0
    requires result != b && result != normalized && b != normalized
    requires result.Value() < m && b.Value() < m
    modifies result, b
    ensures result.Valid() && b.Valid()
    ensures result.Value() == Remainder(old(result.Value()) * Power(old(b.Value()), e0), m)
    ensures b.Value() == Remainder(Power(old(b.Value()), B), m)
  {
    hide Low, Place, BigUInt.Valid, BigUInt.Words, ValueOf, Remainder, Power, Two, Normalized;
    ghost var r0, b0 := result.Value(), b.Value();
    var e: Word := e0;
    PowerStarts(b0);
    TwoOfZero();
    RemainderOfSmall(b0, m);
    WordWidth();
    for i := 0 to WIDTH
      invariant result.Valid() && b.Valid() && normalized.Valid() && Normalized(normalized, shift, m)
      invariant result.Value() < m && e < Two(WIDTH - i)
      invariant Remainder(result.Value() * Power(b.Value(), e), m) == Remainder(r0 * Power(b0, e0), m)
      invariant b.Value() == Remainder(Power(b0, Two(i)), m)
    {
      ModularStep(result.Value(), b.Value(), e, m);
      SquareStep(b0, i, m);
      RemainderBound(result.Value() * b.Value(), m);
      TwoStep(WIDTH - i, e);
      PowerBit(result, b, e % 2 == 1, normalized, shift, m, limit);
      e := e / 2;
    }
    PowerStarts(b.Value());
    RemainderOfSmall(result.Value(), m);
  }

  lemma RemainderBound(n: nat, m: nat)
    requires m > 0
    ensures Remainder(n, m) < m
  {
    DivMod(n, m);
  }

  lemma TwoStep(n: nat, e: nat)
    requires n > 0 && e < Two(n)
    ensures e / 2 < Two(n - 1)
  {
  }

  lemma SquareStep(b: nat, i: nat, m: nat)
    requires m > 0
    ensures var x := Remainder(Power(b, Two(i)), m);
      Remainder(x * x, m) == Remainder(Power(b, Two(i + 1)), m)
  {
    hide Remainder, Power, Two;
    RemainderTimesBoth(Power(b, Two(i)), Power(b, Two(i)), m);
    PowerAdds(b, Two(i), Two(i));
    TwoAdds(i, 1);
    TwoOfOne();
  }

  // The power grows by one word of the exponent.
  lemma ExponentWord(b: nat, es: Digits, i: nat, r: nat, c: nat, m: nat)
    requires m > 0 && r == Remainder(Power(b, Low(es, i)), m) && c == Remainder(Power(b, Pow(i)), m)
    ensures Remainder(r * Power(c, Digit(es, i)), m) == Remainder(Power(b, Low(es, i + 1)), m)
    ensures Remainder(Power(c, B), m) == Remainder(Power(b, Pow(i + 1)), m)
  {
    hide Remainder, Power, Low;
    var e := Digit(es, i);
    LowNext(es, i);
    PowerAdds(b, Low(es, i), e * Pow(i));
    PowerTimes(b, Pow(i), e);
    RemainderPower(Power(b, Pow(i)), e, m);
    RemainderTimesBoth(Power(b, Low(es, i)), Power(c, e), m);
    RemainderTimesBoth(Power(b, Low(es, i)), Power(Power(b, Pow(i)), e), m);
    RemainderTwice(Power(b, Low(es, i)), m);
    RemainderTimesBoth(r, Power(c, e), m);
    assert Pow(i) * e == e * Pow(i);
    PowerTimes(b, Pow(i), B);
    RemainderPower(Power(b, Pow(i)), B, m);
    assert Pow(i + 1) == Pow(i) * B;
  }

  lemma RemainderTwice(n: nat, m: nat)
    requires m > 0
    ensures Remainder(Remainder(n, m), m) == Remainder(n, m)
  {
    hide Remainder;
    RemainderBound(n, m);
    RemainderOfSmall(Remainder(n, m), m);
  }

  // base to the exponent, modulo modulus
  method PowerModulo(base: BigUInt, exponent: BigUInt, modulus: BigUInt, limit: int) returns (result: BigUInt)
    requires base.Valid() && exponent.Valid() && modulus.Valid() && modulus.Value() > 0
    ensures fresh(result) && result.Valid()
    ensures result.Value() == Remainder(Power(base.Value(), exponent.Value()), modulus.Value())
  {
    hide Low, Place, BigUInt.Valid, BigUInt.Words, ValueOf, Remainder, Power, Pow;
    var one := FromWord(1);
    var c := Compare(modulus, one);
    if c == 0 {
      result := FromWord(0);
      RemainderBound(Power(base.Value(), exponent.Value()), 1);
      return;
    }
    result := PowerWords(base, exponent, modulus, limit);
  }

  method PowerWords(base: BigUInt, exponent: BigUInt, modulus: BigUInt, limit: int) returns (result: BigUInt)
    requires base.Valid() && exponent.Valid() && modulus.Valid() && modulus.Value() > 1
    ensures fresh(result) && result.Valid()
    ensures result.Value() == Remainder(Power(base.Value(), exponent.Value()), modulus.Value())
  {
    hide Low, Place, BigUInt.Valid, BigUInt.Words, ValueOf, Remainder, Power, Pow, Normalized;
    ghost var b0, m, es := base.Value(), modulus.Value(), exponent.Words();
    var normalized, shift := Normalize(modulus);
    result := FromWord(1);
    var b := base.Copy();
    FormRemainder(b, normalized, shift, m);
    PowerBegins(b0, es, m);
    var n := exponent.Count();
    for i := 0 to n
      invariant fresh(result) && fresh(b) && fresh(normalized) && result != b && result != normalized && b != normalized
      invariant result.Valid() && b.Valid() && normalized.Valid() && Normalized(normalized, shift, m)
      invariant result.Value() == Remainder(Power(b0, Low(es, i)), m) && b.Value() == Remainder(Power(b0, Pow(i)), m)
      invariant exponent.Valid() && exponent.Words() == es
    {
      var e := exponent.Get(i);
      ExponentWord(b0, es, i, result.Value(), b.Value(), m);
      RemainderBound(Power(b0, Low(es, i)), m);
      RemainderBound(Power(b0, Pow(i)), m);
      PowerWord(result, b, e, normalized, shift, m, limit);
    }
    LowBeyond(es, n);
  }

  lemma PowerBegins(b: nat, es: Digits, m: nat)
    requires m > 1
    ensures Remainder(Power(b, Low(es, 0)), m) == 1 && Remainder(Power(b, Pow(0)), m) == Remainder(b, m)
  {
    PowerStarts(b);
    RemainderOfSmall(1, m);
  }
}
