/** The integer square root by Newton's iteration, from a power of two above the root. */
module BigSquareRoot {
  import opened Naturals
  import opened BigDigits
  import opened BigUInts
  import opened BigArithmetic
  import opened BigMultiplication
  import opened BigShifts
  import opened BigDivision
  import opened BigExponentiation
  import opened PrimeTest

  ghost predicate IsRoot(r: nat, n: nat) {
    r * r <= n < (r + 1) * (r + 1)
  }

  ghost predicate NotBelowRoot(x: nat, n: nat) {
    n < (x + 1) * (x + 1)
  }

  ghost function Newton(n: nat, x: nat): nat
    requires x > 0
  {
    (Quotient(n, x) + x) / 2
  }

  // The mean of two numbers is at least the root of their product.
  lemma SquareOfSum(a: int, b: int)
    ensures (a + b) * (a + b) >= 4 * (a * b)
  {
    var d := a - b;
    assert (a + b) * (a + b) - 4 * (a * b) == d * d;
    if d >= 0 {
      Monotone(0, d, d);
    } else {
      assert d * d == -d * -d;
      Monotone(0, -d, -d);
    }
  }

  // A step never falls below the root.
  lemma StaysAbove(n: nat, x: nat)
    requires x > 0
    ensures NotBelowRoot(Newton(n, x), n)
  {
    hide Quotient, Remainder;
    DivMod(n, x);
    var q, y := Quotient(n, x), Newton(n, x);
    Distribute(q, 1, x);
    SquareOfSum(q + 1, x);
    var s, t := q + 1 + x, 2 * (y + 1);
    Monotone(s, t, s);
    Monotone(s, t, t);
    assert t * t == 4 * ((y + 1) * (y + 1));
  }

  // Above the root it descends; at the root it stays or goes one up.
  lemma StepDecides(n: nat, x: nat)
    requires x > 0 && NotBelowRoot(x, n)
    ensures if x * x <= n then x <= Newton(n, x) <= x + 1 else Newton(n, x) < x
  {
    hide Quotient, Remainder;
    Distribute(x, 1, x + 1);
    Distribute(x, 1, x);
    if x * x <= n {
      QuotientAtLeast(n, x, x);
      Distribute(x, 3, x);
      QuotientBound(n, x, x + 3);
    } else {
      QuotientBound(n, x, x);
    }
  }

  lemma FirstGuess(n: nat, k: nat)
    requires BitLength(n) <= 2 * k
    ensures NotBelowRoot(Two(k), n)
  {
    hide Two, BitLength;
    TwoMonotone(BitLength(n), 2 * k);
    TwoAdds(k, k);
    assert k + k == 2 * k;
    Distribute(Two(k), 1, Two(k));
    Distribute(Two(k), 1, Two(k) + 1);
  }

  lemma RootIsPositive(n: nat, y: nat)
    requires n > 0 && NotBelowRoot(y, n)
    ensures y > 0
  {
  }

  // y = (n / x + x) >> 1
  method NewtonStep(y: BigUInt, n: BigUInt, x: BigUInt)
    requires y.Valid() && n.Valid() && x.Valid() && y != n && y != x && x.Value() > 0
    modifies y
    ensures y.Valid() && y.Value() == Newton(n.Value(), x.Value())
  {
    hide BigUInt.Valid, BigUInt.Words, ValueOf, Quotient, Two, Place;
    var divisor := x.Copy();
    y.Load(n);
    Divide(y, divisor);
    PlaceAtZero(x.Value());
    Add(y, x, 0);
    ShiftRight(y, 1);
    HalfIs(Quotient(n.Value(), x.Value()) + x.Value());
  }

  lemma HalfIs(v: nat)
    ensures Quotient(v, Two(1)) == v / 2
  {
    assert Two(1) == 2 * Two(0);
  }

  // x == y || x == y - 1
  method CloseEnough(x: BigUInt, y: BigUInt) returns (close: bool)
    requires x.Valid() && y.Valid() && y.Value() > 0
    ensures close <==> x.Value() == y.Value() || x.Value() == y.Value() - 1
  {
    hide BigUInt.Valid, BigUInt.Words, ValueOf, Place;
    close := Equal(x, y);
    if !close {
      var one := FromWord(1);
      var before := y.Copy();
      PlaceAtZero(1);
      Subtract(before, one, 0);
      close := Equal(x, before);
    }
  }

  method SquareRoot(n: BigUInt) returns (r: BigUInt)
    requires n.Valid()
    ensures fresh(r) && r.Valid() && IsRoot(r.Value(), n.Value())
  {
    hide BigUInt.Valid, BigUInt.Words, ValueOf, BitLength, Two, NotBelowRoot, Newton;
    LowOfNone([]);
    var zero := n.IsZero();
    if zero {
      r := FromWord(0);
      return;
    }
    var width := BitWidth(n);
    var x := FromWord(1);
    ShiftLeft(x, (width + 1) / 2);
    FirstGuess(n.Value(), (width + 1) / 2);
    r := Iterate(n, x);
  }

  lemma RootFound(n: nat, x: nat)
    requires x * x <= n && NotBelowRoot(x, n)
    ensures IsRoot(x, n)
  {
  }

  method Iterate(n: BigUInt, start: BigUInt) returns (r: BigUInt)
    requires n.Valid() && n.Value() > 0 && start.Valid() && start.Value() > 0 && NotBelowRoot(start.Value(), n.Value())
    ensures fresh(r) && r.Valid() && IsRoot(r.Value(), n.Value())
  {
    hide BigUInt.Valid, BigUInt.Words, ValueOf, NotBelowRoot, Newton;
    var x := start.Copy();
    var y := FromWord(0);
    while true
      invariant x.Valid() && y.Valid() && fresh(x) && fresh(y) && x != y && x.Value() > 0
      invariant NotBelowRoot(x.Value(), n.Value())
      decreases x.Value()
    {
      StepDecides(n.Value(), x.Value());
      StaysAbove(n.Value(), x.Value());
      NewtonStep(y, n, x);
      RootIsPositive(n.Value(), y.Value());
      var close := CloseEnough(x, y);
      if close {
        RootFound(n.Value(), x.Value());
        return x;
      }
      x.Assign(y);
    }
  }
}
