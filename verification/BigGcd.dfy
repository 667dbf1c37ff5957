/** The greatest common divisor by Stein's binary algorithm. */
module BigGcd {
  import opened Naturals
  import opened BigDigits
  import opened BigUInts
  import opened BigArithmetic
  import opened BigMultiplication
  import opened BigShifts
  import opened NumberTheory
  import opened PrimeTest

  // ----- what the gcd keeps -----

  lemma GcdCommutes(a: nat, b: nat)
    requires a > 0 || b > 0
    ensures Gcd(a, b) == Gcd(b, a)
  {
    hide Divides, Gcd;
    GcdPositive(b, a);
    forall d: nat | d > 0 ensures Divides(d, Gcd(b, a)) <==> Divides(d, a) && Divides(d, b) {
      CommonDivisors(b, a, d);
    }
    GcdIs(a, b, Gcd(b, a));
  }

  lemma GcdSubtracts(x: nat, y: nat)
    requires x >= y > 0
    ensures Gcd(x - y, y) == Gcd(x, y)
  {
    hide Divides, Gcd;
    GcdPositive(x - y, y);
    forall d: nat | d > 0 ensures Divides(d, Gcd(x - y, y)) <==> Divides(d, x) && Divides(d, y) {
      CommonDivisors(x - y, y, d);
      if Divides(d, y) {
        DividesSum(d, y, x - y);
      }
    }
    GcdIs(x, y, Gcd(x - y, y));
  }

  // An odd divisor of twice a number divides the number.
  lemma OddDivides(d: nat, x: nat)
    requires d % 2 == 1 && Divides(d, 2 * x)
    ensures Divides(d, x)
  {
    hide Divides;
    var k := Cofactor(d, 2 * x);
    var m := d / 2;
    Distribute(x, k * m, d);
    assert d == 2 * m + 1;
    assert x * d == x * (2 * m) + x;
    assert x * (2 * m) == 2 * x * m;
    SwapFactors(k, d, m);
    DividesIs(d, x, x - k * m);
  }

  lemma DivisorOfOdd(d: nat, y: nat)
    requires d > 0 && y % 2 == 1 && Divides(d, y)
    ensures d % 2 == 1
  {
    hide Divides;
    var k := Cofactor(d, y);
    if d % 2 == 0 {
      Associate(k, d / 2, 2);
    }
  }

  // A factor 2 in only one of two numbers is not in the gcd.
  lemma GcdHalves(x: nat, y: nat)
    requires y % 2 == 1
    ensures Gcd(2 * x, y) == Gcd(x, y)
  {
    hide Divides, Gcd;
    GcdPositive(2 * x, y);
    forall d: nat | d > 0 ensures Divides(d, Gcd(2 * x, y)) <==> Divides(d, x) && Divides(d, y) {
      CommonDivisors(2 * x, y, d);
      if Divides(d, y) {
        DivisorOfOdd(d, y);
        if Divides(d, x) {
          DividesTimes(d, x, 2);
        }
        if Divides(d, 2 * x) {
          OddDivides(d, x);
        }
      }
    }
    GcdIs(x, y, Gcd(2 * x, y));
  }

  lemma {:induction false} GcdOddPart(x: nat, y: nat, k: nat)
    requires y % 2 == 1
    ensures Gcd(x * Two(k), y) == Gcd(x, y)
  {
    if k > 0 {
      GcdOddPart(x, y, k - 1);
      assert x * Two(k) == 2 * (x * Two(k - 1)) by { Associate(x, 2, Two(k - 1)); Associate(2, x, Two(k - 1)); }
      GcdHalves(x * Two(k - 1), y);
    }
  }

  // A factor 2 in both is.
  lemma {:induction false} GcdDoubles(a: nat, b: nat)
    ensures Gcd(2 * a, 2 * b) == 2 * Gcd(a, b)
    decreases b
  {
    if b > 0 {
      DivMod(a, b);
      var q, r := Quotient(a, b), Remainder(a, b);
      Associate(2, q, b);
      assert q * (2 * b) == 2 * (q * b);
      QuotientIs(2 * a, 2 * b, q, 2 * r);
      GcdDoubles(b, r);
    }
  }

  lemma {:induction false} GcdScales(a: nat, b: nat, k: nat)
    ensures Gcd(a * Two(k), b * Two(k)) == Gcd(a, b) * Two(k)
  {
    hide Gcd;
    if k > 0 {
      GcdScales(a, b, k - 1);
      var p := Two(k - 1);
      Doubled(a, p);
      Doubled(b, p);
      Doubled(Gcd(a, b), p);
      GcdDoubles(a * p, b * p);
    }
  }

  lemma Doubled(a: nat, p: nat)
    ensures a * (2 * p) == 2 * (a * p)
  {
  }

  // The odd parts, and the smaller power of two.
  lemma GcdOfParts(x: nat, i: nat, y: nat, j: nat)
    requires x % 2 == 1 && y % 2 == 1
    ensures Gcd(x * Two(i), y * Two(j)) == Gcd(x, y) * Two(Min(i, j))
  {
    hide Gcd, Two;
    TwoOfZero();
    var k := Min(i, j);
    TwoAdds(i - k, k);
    TwoAdds(j - k, k);
    Associate(x, Two(i - k), Two(k));
    Associate(y, Two(j - k), Two(k));
    GcdScales(x * Two(i - k), y * Two(j - k), k);
    TwoIsPositive(x, i - k);
    TwoIsPositive(y, j - k);
    if i <= j {
      GcdCommutes(x, y * Two(j - k));
      GcdOddPart(y, x, j - k);
      GcdCommutes(x, y);
    } else {
      GcdOddPart(x, y, i - k);
    }
  }

  lemma TwoIsPositive(x: nat, k: nat)
    requires x > 0
    ensures x * Two(k) > 0
  {
    Monotone(1, x, Two(k));
  }

  // ----- the algorithm -----

  method SwapNumbers(x: BigUInt, y: BigUInt)
    requires x.Valid() && y.Valid() && x != y
    modifies x, y
    ensures x.Valid() && y.Valid() && x.Words() == old(y.Words()) && y.Words() == old(x.Words())
  {
    var t := x.Copy();
    x.Assign(y);
    y.Assign(t);
  }

  // x >>= x.trailingZeroBitCount
  method DropZeros(x: BigUInt) returns (zeros: nat)
    requires x.Valid() && x.Value() > 0
    modifies x
    ensures x.Valid() && x.Value() % 2 == 1 && old(x.Value()) == x.Value() * Two(zeros) && x.Value() <= old(x.Value())
  {
    hide BigUInt.Valid, BigUInt.Words, ValueOf, Two, TrailingZeroBits, Quotient;
    zeros := TrailingZeroBitCount(x);
    ghost var odd := OddPart(x.Value());
    ShiftRight(x, zeros);
    Monotone(1, Two(zeros), odd);
  }

  // One round of the loop: the larger of two odd numbers becomes their difference.
  method Reduce(x: BigUInt, y: BigUInt)
    requires x.Valid() && y.Valid() && x != y && x.Value() > 0 && y.Value() % 2 == 1
    modifies x, y
    ensures x.Valid() && y.Valid() && y.Value() % 2 == 1 && Gcd(x.Value(), y.Value()) == Gcd(old(x.Value()), old(y.Value()))
    ensures x.Value() + y.Value() < old(x.Value()) + old(y.Value())
  {
    hide BigUInt.Valid, BigUInt.Words, ValueOf, Gcd, Two, Place;
    var zeros := DropZeros(x);
    GcdOddPart(x.Value(), y.Value(), zeros);
    var c := Compare(x, y);
    if c < 0 {
      GcdCommutes(x.Value(), y.Value());
      SwapNumbers(x, y);
    }
    GcdSubtracts(x.Value(), y.Value());
    PlaceAtZero(y.Value());
    Subtract(x, y, 0);
  }

  method GreatestCommonDivisor(a: BigUInt, b: BigUInt) returns (g: BigUInt)
    requires a.Valid() && b.Valid()
    ensures fresh(g) && g.Valid() && g.Value() == Gcd(a.Value(), b.Value())
  {
    hide BigUInt.Valid, BigUInt.Words, ValueOf, Gcd, Two;
    GcdOfZero(a.Value(), b.Value());
    var aZero := a.IsZero();
    if aZero {
      g := b.Copy();
      return;
    }
    var bZero := b.IsZero();
    if bZero {
      g := a.Copy();
      return;
    }
    var x := a.Copy();
    var y := b.Copy();
    var az := DropZeros(x);
    var bz := DropZeros(y);
    var twos := Min(az, bz);
    GcdOfParts(x.Value(), az, y.Value(), bz);
    OddGcd(x, y);
    g := y;
    ShiftLeft(g, twos);
  }

  // Leaves the gcd of two odd numbers in y.
  method OddGcd(x: BigUInt, y: BigUInt)
    requires x.Valid() && y.Valid() && x != y && x.Value() % 2 == 1 && y.Value() % 2 == 1
    modifies x, y
    ensures x.Valid() && y.Valid() && y.Value() == Gcd(old(x.Value()), old(y.Value()))
  {
    hide BigUInt.Valid, BigUInt.Words, ValueOf, Gcd, Two;
    GcdCommutes(x.Value(), y.Value());
    var c := Compare(x, y);
    if c < 0 {
      SwapNumbers(x, y);
    }
    var zero := x.IsZero();
    while !zero
      invariant x.Valid() && y.Valid() && y.Value() % 2 == 1 && (zero <==> x.Value() == 0)
      invariant Gcd(x.Value(), y.Value()) == Gcd(old(x.Value()), old(y.Value()))
      decreases x.Value() + y.Value()
    {
      Reduce(x, y);
      zero := x.IsZero();
    }
    GcdOfZero(0, y.Value());
  }

  lemma GcdOfZero(a: nat, b: nat)
    ensures Gcd(0, b) == b && Gcd(a, 0) == a
  {
    if b > 0 {
      RemainderOfSmall(0, b);
      assert Gcd(0, b) == Gcd(b, 0);
    }
  }
}
