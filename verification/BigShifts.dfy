/** Shifts by any number of bits, in place. */
module BigShifts {
  import opened Naturals
  import opened BigDigits
  import opened BigUInts
  import opened BigMultiplication

  const WIDTH: nat := 64

  lemma WordWidth()
    ensures Two(64) == B
  {
    TwoOfWidths();
  }

  // w << n, dropping what leaves the word
  function ShiftUp(w: Word, n: nat): Word {
    Remainder(w * Two(n), B)
  }

  // w >> n
  function ShiftDown(w: Word, n: nat): Word {
    QuotientIsSmaller(w, Two(n));
    Quotient(w, Two(n))
  }

  // high | low, for words that have no bit in common
  function Or(high: Word, low: Word, bits: nat): Word
    requires low < Two(bits) && Remainder(high, Two(bits)) == 0 && high + Two(bits) <= B
  {
    high + low
  }

  // The bits that leave the word are those that a shift down keeps.
  lemma ShiftSplits(w: Word, up: nat, down: nat)
    requires up + down == 64
    ensures ShiftUp(w, up) == Remainder(w, Two(down)) * Two(up)
    ensures ShiftUp(w, up) + ShiftDown(w, down) * B == w * Two(up)
    ensures ShiftDown(w, down) < Two(up)
    ensures Remainder(ShiftUp(w, up), Two(up)) == 0 && ShiftUp(w, up) + Two(up) <= B
  {
    hide Two, Quotient, Remainder;
    var u, d := Two(up), Two(down);
    TwoAdds(up, down);
    WordWidth();
    DivMod(w, d);
    var q, r := Quotient(w, d), Remainder(w, d);
    Distribute(q * d, r, u);
    Associate(q, d, u);
    assert d * u == B;
    Monotone(r + 1, d, u);
    Distribute(r, 1, u);
    QuotientIs(w * u, B, q, r * u);
    QuotientIs(r * u, u, r, 0);
    QuotientBound(w, d, u);
  }

  // ----- to the left -----

  lemma {:induction false} TwoOfWords(n: nat)
    ensures Two(64 * n) == Pow(n)
  {
    hide Two;
    if n == 0 {
      assert Two(64 * 0) == Two(0) == 1 by { TwoOfZero(); }
    } else {
      TwoOfWords(n - 1);
      assert 64 * n == 64 + 64 * (n - 1);
      TwoAdds(64, 64 * (n - 1));
      WordWidth();
    }
  }

  // Less than a word: multiplication by a power of two.
  method ShiftBitsLeft(a: BigUInt, up: nat)
    requires a.Valid() && 0 < up < 64
    modifies a
    ensures a.Valid() && a.Value() == old(a.Value()) * Two(up)
  {
    hide Low, Pow, Place, Two, BigUInt.Valid, BigUInt.Words, Gained, ShiftUp, ShiftDown;
    var down := 64 - up;
    ghost var as0 := a.Words();
    TwoGrows(up, 64);
    WordWidth();
    ghost var factor: Word := Two(up);
    var i, lowbits: Word := 0, 0;
    a.WordsAreNormal();
    PlaceOfZero(0);
    AllGained(as0, |as0|, factor);
    var count := a.Count();
    while i < count || lowbits > 0
      invariant a.Valid() && count == |a.Words()| && lowbits < Two(up)
      invariant a.Value() + Place(lowbits, i) == old(a.Value()) + Gained(as0, i, factor)
      invariant forall j: nat | j >= i :: Digit(a.Words(), j) == Digit(as0, j)
      invariant lowbits > 0 ==> i <= |as0|
      decreases |as0| + 1 - i
    {
      var word := a.Get(i);
      ShiftSplits(word, up, down);
      var d := Or(ShiftUp(word, up), lowbits, up);
      GainStep(as0, d, factor, lowbits, ShiftDown(word, down), i);
      NothingShiftsOut(word, down);
      TopDigit(a, as0, i);
      a.Set(i, d);
      lowbits := ShiftDown(word, down);
      i := i + 1;
      count := a.Count();
    }
    PlaceOfZero(i);
    EndOfDigits(a, as0, i);
    AllGained(as0, i, factor);
  }

  lemma NothingShiftsOut(w: Word, down: nat)
    ensures w == 0 ==> ShiftDown(w, down) == 0
  {
    if w == 0 {
      QuotientIs(0, Two(down), 0, 0);
    }
  }

  // A digit that is still there has been there from the beginning.
  lemma TopDigit(a: BigUInt, as0: Digits, i: nat)
    requires a.Valid() && forall j: nat | j >= i :: Digit(a.Words(), j) == Digit(as0, j)
    ensures i < |a.Words()| ==> i < |as0|
  {
    a.WordsAreNormal();
    var n := |a.Words()|;
    if i < n {
      assert Digit(a.Words(), n - 1) == Digit(as0, n - 1);
    }
  }

  lemma EndOfDigits(a: BigUInt, as0: Digits, i: nat)
    requires Normal(as0) && i >= |a.Words()| && forall j: nat | j >= i :: Digit(a.Words(), j) == Digit(as0, j)
    ensures i >= |as0|
  {
    var last := if as0 == [] then 0 else |as0| - 1;
    assert last >= i ==> Digit(a.Words(), last) == Digit(as0, last);
  }

  lemma ShiftTotal(v: nat, half: nat, ext: nat, up: nat, amount: nat)
    requires amount == 64 * ext + up && half == v * Two(up)
    ensures Place(half, ext) == v * Two(amount)
    ensures ext == 0 ==> half == v * Two(amount)
  {
    hide Two;
    TwoOfWords(ext);
    TwoAdds(up, 64 * ext);
    Associate(v, Two(up), Two(64 * ext));
  }

  // a <<= amount
  method ShiftLeft(a: BigUInt, amount: nat)
    requires a.Valid()
    modifies a
    ensures a.Valid() && a.Value() == old(a.Value()) * Two(amount)
  {
    hide Two, Low, Pow, Place, BigUInt.Valid, BigUInt.Words;
    TwoOfZero();
    if amount == 0 {
      return;
    }
    var ext, up := amount / WIDTH, amount % WIDTH;
    if up > 0 {
      ShiftBitsLeft(a, up);
    }
    ShiftTotal(old(a.Value()), a.Value(), ext, up, amount);
    var count := a.Count();
    if ext > 0 && count > 0 {
      ghost var before := a.Words();
      a.ShiftLeftWords(ext);
      CutValue(a.Words(), [], before, ext);
      LowOfNone([]);
    } else if ext > 0 {
      LowOfNone([]);
      PlaceOfZero(ext);
    }
  }

  // ----- to the right -----

  // Dividing from the top: the digits from i on are done, and r is what is left of them.
  ghost function Undivided(ds: Digits, i: nat, value: int, r: nat, y: nat): int {
    y * (value - Low(ds, i)) + Place(r, i) + Low(ds, i)
  }

  lemma DivideAlgebra(y: int, d: int, r': int, r: int, w: int, p: int, rest: int)
    requires y * d + r' == r * B + w
    ensures y * (rest + (d - w) * p) + r' * p == y * (rest - w * p) + r * (B * p) + w * p
  {
    Associate(r, B, p);
    Associate(y, d, p);
    Distribute(y * d, r', p);
    Distribute(r * B, w, p);
    Distribute(d, w, p);
    Distribute(rest - w * p, d * p, y);
  }

  lemma DivideStep(ds: Digits, i: nat, value: int, d: nat, r: nat, r': nat, y: nat)
    requires y * d + r' == r * B + Digit(ds, i)
    ensures Undivided(ds, i, value + Place(d - Digit(ds, i), i), r', y) == Undivided(ds, i + 1, value, r, y)
  {
    hide Low;
    LowNext(ds, i);
    assert Pow(i + 1) == B * Pow(i);
    DivideAlgebra(y, d, r', r, Digit(ds, i), Pow(i), value - Low(ds, i));
  }

  lemma DivideEnds(ds: Digits, n: nat, value: int, r: nat, y: nat)
    ensures n >= |ds| ==> Undivided(ds, n, ValueOf(ds), 0, y) == ValueOf(ds)
    ensures Undivided(ds, 0, value, r, y) == value * y + r
  {
    if n >= |ds| {
      LowBeyond(ds, n);
    }
  }

  // Less than a word: division by a power of two.
  method ShiftBitsRight(a: BigUInt, down: nat)
    requires a.Valid() && 0 < down < 64
    modifies a
    ensures a.Valid() && a.Value() == Quotient(old(a.Value()), Two(down))
  {
    hide Low, Pow, Place, Two, BigUInt.Valid, BigUInt.Words, Undivided, ShiftUp, ShiftDown, Quotient, Remainder;
    var up := 64 - down;
    ghost var as0, d := a.Words(), Two(down);
    var i := a.Count();
    var highbits: Word := 0;
    ghost var r := 0;
    NoHighbits(up);
    DivideEnds(as0, i, 0, 0, d);
    while i > 0
      invariant 0 <= i && a.Valid() && r < d && highbits == r * Two(up)
      invariant Undivided(as0, i, a.Value(), r, d) == old(a.Value())
      invariant forall j: nat | j < i :: Digit(a.Words(), j) == Digit(as0, j)
    {
      i := i - 1;
      var word := a.Get(i);
      ShiftRightStep(word, r, up, down);
      var digit := Or(highbits, ShiftDown(word, down), up);
      DivideStep(as0, i, a.Value(), digit, r, Remainder(word, d), d);
      a.Set(i, digit);
      highbits := ShiftUp(word, up);
      r := Remainder(word, d);
    }
    DivideEnds(as0, 0, a.Value(), r, d);
    QuotientIs(old(a.Value()), d, a.Value(), r);
  }

  lemma NoHighbits(up: nat)
    ensures 0 * Two(up) == 0
  {
  }

  lemma ShiftRightStep(w: Word, r: nat, up: nat, down: nat)
    requires up + down == 64 && r < Two(down)
    ensures ShiftDown(w, down) < Two(up)
    ensures Remainder(r * Two(up), Two(up)) == 0 && r * Two(up) + Two(up) <= B
    ensures Two(down) * (r * Two(up) + ShiftDown(w, down)) + Remainder(w, Two(down)) == r * B + w
    ensures ShiftUp(w, up) == Remainder(w, Two(down)) * Two(up) && Remainder(w, Two(down)) < Two(down)
  {
    hide Two, Quotient, Remainder;
    ShiftSplits(w, up, down);
    TwoAdds(up, down);
    WordWidth();
    DivMod(w, Two(down));
    HighbitsFit(r, Two(up), Two(down));
    PutTogether(w, r, Two(up), Two(down), Quotient(w, Two(down)), Remainder(w, Two(down)));
  }

  lemma HighbitsFit(r: nat, u: nat, d: nat)
    requires u > 0 && r < d
    ensures Remainder(r * u, u) == 0 && r * u + u <= u * d
  {
    hide Remainder;
    Monotone(r + 1, d, u);
    Distribute(r, 1, u);
    QuotientIs(r * u, u, r, 0);
  }

  lemma PutTogether(w: int, r: int, u: int, d: int, q: int, m: int)
    requires w == q * d + m && u * d == B
    ensures d * (r * u + q) + m == r * B + w
  {
    Distribute(r * u, q, d);
    Associate(r, u, d);
  }

  // The number of binary digits.
  function BitLength(w: nat): (n: nat)
    ensures w < Two(n) && (w > 0 ==> n > 0 && Two(n - 1) <= w) && (w == 0 ==> n == 0)
  {
    if w == 0 then 0 else
      DivMod(w, 2);
      1 + BitLength(Quotient(w, 2))
  }

  lemma WordLength(w: Word)
    ensures BitLength(w) <= 64
  {
    hide BitLength, Two;
    WordWidth();
    if BitLength(w) > 64 {
      TwoMonotone(64, BitLength(w) - 1);
    }
  }

  function LeadingZeroBitCount(w: Word): (z: nat)
    ensures z <= 64
  {
    WordLength(w);
    64 - BitLength(w)
  }

  method BitWidth(a: BigUInt) returns (n: nat)
    requires a.Valid()
    ensures n == BitLength(a.Value())
  {
    hide BigUInt.Valid, BigUInt.Words, BitLength, Pow, Two, Low;
    var count := a.Count();
    a.WordsAreNormal();
    LowOfNone([]);
    if count == 0 {
      LengthIs(0, 0);
      return 0;
    }
    var top := a.Get(count - 1);
    WordLength(top);
    TopLength(a.Words(), top);
    return count * 64 - LeadingZeroBitCount(top);
  }

  lemma LengthIs(v: nat, n: nat)
    requires v < Two(n) && (v > 0 ==> n > 0 && Two(n - 1) <= v)
    requires v == 0 ==> n == 0
    ensures BitLength(v) == n
  {
    hide Two;
    var m := BitLength(v);
    if v == 0 {
    } else if m < n {
      TwoMonotone(m, n - 1);
    } else if n < m {
      TwoMonotone(n, m - 1);
    }
  }

  lemma TopLength(ds: Digits, top: Word)
    requires Normal(ds) && ds != [] && top == ds[|ds| - 1]
    ensures BitLength(ValueOf(ds)) == 64 * (|ds| - 1) + BitLength(top)
  {
    hide Two, Pow, BitLength, Low;
    var n, m := |ds| - 1, BitLength(top);
    LowBound(ds, n);
    LowNext(ds, n);
    TwoOfWords(n);
    TwoAdds(m, 64 * n);
    TwoAdds(m - 1, 64 * n);
    TopBound(Low(ds, n), top, Pow(n), Two(m - 1), Two(m));
    LengthIs(ValueOf(ds), 64 * n + m);
  }

  lemma TopBound(low: nat, top: nat, p: nat, least: nat, bound: nat)
    requires low < p && least <= top < bound
    ensures least * p <= low + top * p < bound * p
  {
    Monotone(least, top, p);
    Monotone(top + 1, bound, p);
    Distribute(top, 1, p);
  }

  lemma WordsHold(ds: Digits, amount: nat)
    requires Normal(ds) && amount < BitLength(ValueOf(ds))
    ensures amount / WIDTH < |ds|
  {
    hide BitLength, Low;
    LowOfNone([]);
    if ds != [] {
      var top := ds[|ds| - 1];
      TopLength(ds, top);
      WordLength(top);
    }
  }

  method ShiftWordsRight(a: BigUInt, ext: nat)
    requires a.Valid() && ext < |a.Words()|
    modifies a
    ensures a.Valid() && a.Value() == Quotient(old(a.Value()), Pow(ext))
  {
    hide BigUInt.Valid, BigUInt.Words, Low, Quotient, Pow;
    ghost var before := a.Words();
    a.ShiftRightWords(ext);
    CutValue(before, before[..ext], a.Words(), ext);
    QuotientIs(ValueOf(before), Pow(ext), a.Value(), ValueOf(before[..ext]));
  }

  lemma QuotientTotal(v: nat, ext: nat, down: nat, amount: nat)
    requires amount == 64 * ext + down
    ensures Quotient(Quotient(v, Pow(ext)), Two(down)) == Quotient(v, Two(amount))
    ensures ext == 0 ==> Quotient(v, Pow(ext)) == v
    ensures down == 0 ==> Quotient(v, Pow(ext)) == Quotient(v, Two(amount))
  {
    hide Two, Quotient;
    TwoOfWords(ext);
    TwoAdds(64 * ext, down);
    NestedQuotient(v, Pow(ext), Two(down));
    if ext == 0 {
      QuotientIs(v, 1, v, 0);
    }
  }

  // a >>= amount
  method ShiftRight(a: BigUInt, amount: nat)
    requires a.Valid()
    modifies a
    ensures a.Valid() && a.Value() == Quotient(old(a.Value()), Two(amount))
  {
    hide BigUInt.Valid, BigUInt.Words, BitLength, Pow, Two, Low, Quotient, Place;
    if amount == 0 {
      TwoOfZero();
      QuotientIs(a.Value(), 1, a.Value(), 0);
      return;
    }
    var bitWidth := BitWidth(a);
    if amount >= bitWidth {
      TwoMonotone(bitWidth, amount);
      QuotientIs(a.Value(), Two(amount), 0, a.Value());
      LowOfNone([]);
      a.Clear();
      return;
    }
    var ext, down := amount / WIDTH, amount % WIDTH;
    if ext > 0 {
      a.WordsAreNormal();
      WordsHold(a.Words(), amount);
      ShiftWordsRight(a, ext);
    }
    if down > 0 {
      ShiftBitsRight(a, down);
    }
    QuotientTotal(old(a.Value()), ext, down, amount);
  }
}
