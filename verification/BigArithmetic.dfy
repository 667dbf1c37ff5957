/** Comparison, addition, subtraction and multiplication by a word, digit by digit. */
module BigArithmetic {
  import opened Naturals
  import opened BigDigits
  import opened BigUInts

  // ----- words -----

  function AddingReportingOverflow(x: Word, y: Word): (r: (Word, bool))
    ensures r.0 + Bit(r.1) * B == x + y
  {
    if x + y < B then (x + y, false) else (x + y - B, true)
  }

  function SubtractingReportingOverflow(x: Word, y: Word): (r: (Word, bool))
    ensures r.0 - Bit(r.1) * B == x - y
  {
    if x >= y then (x - y, false) else (x - y + B, true)
  }

  // The sum of two digits and the carry bit.
  function AddWithCarry(x: Word, y: Word, carry: bool): (r: (Word, bool))
    ensures r.0 + Bit(r.1) * B == x + y + Bit(carry)
  {
    var (d, c) := AddingReportingOverflow(x, y);
    if carry then
      var (d2, c2) := AddingReportingOverflow(d, 1);
      (d2, c || c2)
    else
      (d, c)
  }

  function SubtractWithBorrow(x: Word, y: Word, borrow: bool): (r: (Word, bool))
    ensures r.0 - Bit(r.1) * B == x - y - Bit(borrow)
  {
    var (d, c) := SubtractingReportingOverflow(x, y);
    if borrow then
      var (d2, c2) := SubtractingReportingOverflow(d, 1);
      (d2, c || c2)
    else
      (d, c)
  }

  function MultipliedFullWidth(x: Word, y: Word): (r: (Word, Word))
    ensures r.0 * B + r.1 == x * y && r.0 < B - 1
  {
    ProductBound(x, y);
    (x * y / B, x * y % B)
  }

  lemma ProductBound(x: Word, y: Word)
    ensures x * y < (B - 1) * B
  {
    Monotone(y, B - 1, x);
    Monotone(x, B - 1, B - 1);
  }

  function Bit(b: bool): nat {
    if b then 1 else 0
  }

  // ----- comparison -----

  // Negative, zero or positive.
  method Compare(a: BigUInt, b: BigUInt) returns (c: int)
    requires a.Valid() && b.Valid()
    ensures c < 0 <==> a.Value() < b.Value()
    ensures c == 0 <==> a.Value() == b.Value()
  {
    a.WordsAreNormal();
    b.WordsAreNormal();
    hide BigUInt.Valid, BigUInt.Words, Low;
    ghost var x, y := a.Words(), b.Words();
    var n := a.Count();
    var m := b.Count();
    if n != m {
      if n < m {
        LongerIsGreater(x, y);
        return -1;
      }
      LongerIsGreater(y, x);
      return 1;
    }
    var i := n;
    while i > 0
      invariant 0 <= i <= n && forall k: nat | i <= k < n :: Digit(x, k) == Digit(y, k)
    {
      i := i - 1;
      var ad := a.Get(i);
      var bd := b.Get(i);
      if ad < bd {
        TopDecides(x, y, i, n);
        return -1;
      } else if bd < ad {
        TopDecides(y, x, i, n);
        return 1;
      }
    }
    assert forall k: nat | k < n :: x[k] == Digit(x, k) && y[k] == Digit(y, k);
    assert x == y;
    return 0;
  }

  // ----- addition -----

  // One step of a digit loop: what leaves as carry comes back at the next place.
  lemma CarryStep(x: int, d: int, carryIn: int, carryOut: int, more: int, i: nat)
    requires d + carryOut * B == x + more + carryIn
    ensures Place(d - x, i) + Place(carryOut, i + 1) == Place(carryIn, i) + Place(more, i)
  {
    var p := Pow(i);
    assert Pow(i + 1) == B * p;
    Associate(carryOut, B, p);
    Distribute(d - x, carryOut * B, p);
    Distribute(more, carryIn, p);
  }

  lemma BorrowStep(x: int, d: int, borrowIn: int, borrowOut: int, less: int, i: nat)
    requires d - borrowOut * B == x - less - borrowIn
    ensures Place(d - x, i) - Place(borrowOut, i + 1) == -Place(borrowIn, i) - Place(less, i)
  {
    CarryStep(x, d, 0 - borrowIn, 0 - borrowOut, 0 - less, i);
    Negate(borrowIn, i);
    Negate(borrowOut, i + 1);
    Negate(less, i);
  }

  lemma Negate(d: int, i: nat)
    ensures Place(0 - d, i) == -Place(d, i)
  {
    Distribute(0, d, Pow(i));
  }

  // What one round of Add does to the numbers.
  lemma CarryGoesOn(bs: Digits, bi: nat, shift: nat, x: Word, d: Word, carryIn: bool, carryOut: bool, now: int, start: int)
    requires now + Place(Bit(carryIn), shift + bi) == start + Place(Low(bs, bi), shift)
    requires d + Bit(carryOut) * B == x + Digit(bs, bi) + Bit(carryIn)
    ensures now + Place(d - x, shift + bi) + Place(Bit(carryOut), shift + (bi + 1)) == start + Place(Low(bs, bi + 1), shift)
  {
    hide Low, Pow, Place, Digit;
    LowShifted(bs, bi, shift);
    CarryStep(x, d, Bit(carryIn), Bit(carryOut), Digit(bs, bi), shift + bi);
  }

  // And one of SubtractReportingOverflow.
  lemma BorrowGoesOn(bs: Digits, bi: nat, shift: nat, x: Word, d: Word, borrowIn: bool, borrowOut: bool, now: int, start: int)
    requires now - Place(Bit(borrowIn), shift + bi) == start - Place(Low(bs, bi), shift)
    requires d - Bit(borrowOut) * B == x - Digit(bs, bi) - Bit(borrowIn)
    ensures now + Place(d - x, shift + bi) - Place(Bit(borrowOut), shift + (bi + 1)) == start - Place(Low(bs, bi + 1), shift)
  {
    hide Low, Pow, Place, Digit;
    LowShifted(bs, bi, shift);
    BorrowStep(x, d, Bit(borrowIn), Bit(borrowOut), Digit(bs, bi), shift + bi);
  }

  // a += b << (64 * shift)
  method Add(a: BigUInt, b: BigUInt, shift: nat)
    requires a.Valid() && b.Valid() && a != b
    modifies a
    ensures a.Valid() && a.Value() == old(a.Value()) + Place(b.Value(), shift)
  {
    hide Low, Pow, Place, BigUInt.Valid, BigUInt.Words, AddWithCarry;
    ghost var bs, as0 := b.Words(), a.Words();
    LowOfNone(bs);
    PlaceOfZero(shift);
    var carry, bi := false, 0;
    var bc := b.Count();
    while bi < bc || carry
      invariant a.Valid() && b.Valid() && b.Words() == bs
      invariant a.Value() + Place(Bit(carry), shift + bi) == old(a.Value()) + Place(Low(bs, bi), shift)
      invariant forall i: nat | i >= shift + bi :: Digit(a.Words(), i) == Digit(as0, i)
      invariant carry ==> bi <= Max(bc, |as0|)
      decreases Max(bc, |as0|) + 1 - bi
    {
      var ai := shift + bi;
      var x := a.Get(ai);
      var y := b.Get(bi);
      var (d, c) := AddWithCarry(x, y, carry);
      CarryGoesOn(bs, bi, shift, x, d, carry, c, a.Value(), old(a.Value()));
      a.Set(ai, d);
      carry := c;
      bi := bi + 1;
    }
    PlaceOfZero(shift + bi);
    LowBeyond(bs, bi);
  }

  // a -= b << (64 * shift), modulo the size of the longer operand
  method SubtractReportingOverflow(a: BigUInt, b: BigUInt, shift: nat) returns (overflow: bool)
    requires a.Valid() && b.Valid() && a != b
    modifies a
    ensures a.Valid() && (overflow <==> old(a.Value()) < Place(b.Value(), shift))
    ensures a.Value() == old(a.Value()) - Place(b.Value(), shift)
                         + if overflow then Pow(Max(shift + |b.Words()|, |old(a.Words())|)) else 0
  {
    hide Low, Pow, Place, BigUInt.Valid, BigUInt.Words, SubtractWithBorrow;
    ghost var bs, as0 := b.Words(), a.Words();
    LowOfNone(bs);
    PlaceOfZero(shift);
    var carry, bi := false, 0;
    var bc := b.Count();
    var count := a.Count();
    while bi < bc || (shift + bi < count && carry)
      invariant a.Valid() && b.Valid() && b.Words() == bs
      invariant a.Value() - Place(Bit(carry), shift + bi) == old(a.Value()) - Place(Low(bs, bi), shift)
      invariant forall i: nat | i >= shift + bi :: Digit(a.Words(), i) == Digit(as0, i)
      invariant bi <= bc || shift + bi <= count
      invariant bi == 0 ==> !carry
      decreases Max(bc, count) + 1 - bi
    {
      var ai := shift + bi;
      var x := a.Get(ai);
      var y := b.Get(bi);
      var (d, c) := SubtractWithBorrow(x, y, carry);
      BorrowGoesOn(bs, bi, shift, x, d, carry, c, a.Value(), old(a.Value()));
      a.Set(ai, d);
      carry := c;
      bi := bi + 1;
    }
    LowBeyond(bs, bi);
    if carry {
      ValueBound(a.Words(), shift + bi);
    }
    PlaceOfBit(carry, shift + bi);
    return carry;
  }

  lemma PlaceOfBit(b: bool, i: nat)
    ensures Place(Bit(b), i) == if b then Pow(i) else 0
  {
  }

  // Without digits from n on, the number is small.
  lemma ValueBound(ds: Digits, n: nat)
    requires forall i: nat | i >= n :: Digit(ds, i) == 0
    ensures ValueOf(ds) < Pow(n)
  {
    LowBound(ds, n);
    if n < |ds| {
      LowStops(ds, n, |ds|);
    } else {
      LowBeyond(ds, n);
    }
  }
}
