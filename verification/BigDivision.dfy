/** Long division of big integers: Algorithm D of Knuth's The Art of Computer Programming, volume 2,
    section 4.3.1. */
module BigDivision {
  import opened Naturals
  import opened BigDigits
  import opened BigUInts
  import opened BigArithmetic
  import opened BigMultiplication
  import opened BigShifts
  import opened WordDivision

  // Divides by a word in place and returns the remainder.
  method DivideByWord(a: BigUInt, y: Word) returns (remainder: Word)
    requires a.Valid() && y > 0
    modifies a
    ensures a.Valid() && a.Value() == Quotient(old(a.Value()), y) && remainder == Remainder(old(a.Value()), y)
  {
    hide Quotient, Remainder;
    if y == 1 {
      QuotientIs(a.Value(), 1, a.Value(), 0);
      return 0;
    }
    remainder := DivideDigits(a, y);
    QuotientIs(old(a.Value()), y, a.Value(), remainder);
  }

  method DivideDigits(a: BigUInt, y: Word) returns (remainder: Word)
    requires a.Valid() && y > 0
    modifies a
    ensures a.Valid() && old(a.Value()) == a.Value() * y + remainder && remainder < y
  {
    hide Low, Pow, Place, BigUInt.Valid, BigUInt.Words, Undivided, ValueOf, Digit, FastDividingFullWidth;
    ghost var as0 := a.Words();
    var i := a.Count();
    remainder := 0;
    DivideEnds(as0, i, 0, 0, y);
    while i > 0
      invariant 0 <= i && a.Valid() && remainder < y
      invariant Undivided(as0, i, a.Value(), remainder, y) == old(a.Value())
      invariant forall j: nat | j < i :: Digit(a.Words(), j) == Digit(as0, j)
    {
      i := i - 1;
      var u := a.Get(i);
      var (q, r) := FastDividingFullWidth(remainder, u, y);
      DivideStep(as0, i, a.Value(), q, remainder, r, y);
      a.Set(i, q);
      remainder := r;
    }
    DivideEnds(as0, 0, a.Value(), remainder, y);
  }

  // ----- the estimate of a quotient digit -----

  lemma TopThree(ds: Digits, n: nat)
    ensures Low(ds, n + 3) == Low(ds, n) + ((Digit(ds, n + 2) * B + Digit(ds, n + 1)) * B + Digit(ds, n)) * Pow(n)
  {
    hide Low;
    TopTwo(ds, n);
    LowNext(ds, n + 2);
    assert Pow(n + 2) == B * Pow(n + 1) == B * (B * Pow(n));
    var t, p := Digit(ds, n + 1) * B + Digit(ds, n), Pow(n);
    Distribute(Digit(ds, n + 2) * B * B, t, p);
    assert Digit(ds, n + 2) * (B * (B * p)) == Digit(ds, n + 2) * B * B * p;
  }

  lemma TopTwo(ds: Digits, n: nat)
    ensures Low(ds, n + 2) == Low(ds, n) + (Digit(ds, n + 1) * B + Digit(ds, n)) * Pow(n)
  {
    hide Low;
    LowNext(ds, n);
    LowNext(ds, n + 1);
    assert Pow(n + 1) == B * Pow(n);
    Distribute(Digit(ds, n + 1) * B, Digit(ds, n), Pow(n));
    Associate(Digit(ds, n + 1), B, Pow(n));
  }

  // The top words of the dividend do not exceed those of the divisor.
  lemma TopFits(w: nat, y: nat, wl: nat, yl: nat, t: nat, x2: nat, t2: nat, p: nat)
    requires w == wl + (t * B + x2) * p && y == yl + t2 * p && yl < p && w < y * B
    ensures t <= t2
  {
    if t > t2 {
      Monotone((t2 + 1) * B, t * B + x2, p);
      Distribute(t2, 1, p);
      Monotone(y, (t2 + 1) * p, B);
      SwapFactors(t2 + 1, B, p);
    }
  }

  // The quotient of the top words never undershoots the true digit, and overshoots by at most one.
  lemma DigitEstimate(w: nat, y: nat, wl: nat, yl: nat, t3: nat, t2: nat, p: nat, q: nat)
    requires w == wl + t3 * p && y == yl + t2 * p && wl < p && yl < p && w < y * B && t2 >= B
    requires q == Min(Quotient(t3, t2), B - 1)
    ensures y > 0 && Quotient(w, y) <= q <= Quotient(w, y) + 1
  {
    hide Quotient, Remainder;
    Monotone(B, t2, p);
    var d := Quotient(w, y);
    DivMod(w, y);
    QuotientBound(w, y, B);
    NotTooSmall(w, y, wl, yl, t3, t2, p, d);
    QuotientAtLeast(t3, t2, d);
    DivMod(t3, t2);
    if q > d + 1 {
      NotTooLarge(w, y, wl, yl, t3, t2, p, q);
      Monotone(d + 2, q, y);
      Distribute(d, 2, y);
    }
  }

  lemma NotTooSmall(w: nat, y: nat, wl: nat, yl: nat, t3: nat, t2: nat, p: nat, d: nat)
    requires w == wl + t3 * p && y == yl + t2 * p && wl < p && d * y <= w
    ensures d * t2 <= t3
  {
    if d * t2 > t3 {
      Monotone(t3 + 1, d * t2, p);
      Distribute(t3, 1, p);
      Distribute(yl, t2 * p, d);
      Associate(d, t2, p);
      Monotone(0, yl, d);
    }
  }

  lemma NotTooLarge(w: nat, y: nat, wl: nat, yl: nat, t3: nat, t2: nat, p: nat, q: nat)
    requires w == wl + t3 * p && y == yl + t2 * p && yl < p && t2 >= B && q < B && q <= Quotient(t3, t2)
    ensures q * y < w + y
  {
    hide Quotient, Remainder;
    DivMod(t3, t2);
    Monotone(q, Quotient(t3, t2), t2);
    Monotone(q * t2, t3, p);
    Associate(q, t2, p);
    Distribute(yl, t2 * p, q);
    Monotone(yl, p, q);
    Monotone(q, B - 1, p);
    Monotone(B, t2, p);
  }

  // ----- one digit of the quotient -----

  // The window of x that is divided next: its digits from k on.
  ghost function Window(xs: Digits, k: nat): nat {
    Quotient(ValueOf(xs), Pow(k))
  }

  // A divisor that is normalized and long enough for the 3/2 estimate.
  ghost predicate Divisor(ys: Digits) {
    |ys| >= 2 && ys[|ys| - 1] >= B / 2
  }

  // The digits of the window are those of x, and there is one more of them than of the divisor.
  lemma WindowDigits(xs: Digits, ws: Digits, ys: Digits, k: nat)
    requires Normal(xs) && ValueOf(xs) < Place(ValueOf(ys), k + 1)
    requires forall i: nat :: Digit(ws, i) == if i < |ys| + 1 then Digit(xs, k + i) else 0
    ensures ValueOf(ws) == Window(xs, k) && ValueOf(xs) == Low(xs, k) + Place(ValueOf(ws), k)
    ensures ValueOf(ws) < ValueOf(ys) * B && Low(xs, k) < Pow(k)
    ensures ValueOf(ws) == Low(ws, |ys| + 1)
  {
    hide Low, Quotient;
    var n := |ys| + 1 + k;
    LowBound(ys, |ys|);
    Monotone(ValueOf(ys), Pow(|ys|), Pow(k + 1));
    PowAdds(|ys|, k + 1);
    CountBound(xs, n);
    assert forall i: nat | i >= n :: Digit(xs, i) == 0;
    var low := xs[..Min(k, |xs|)];
    CutValue(xs, low, ws, k);
    QuotientIs(ValueOf(xs), Pow(k), ValueOf(ws), ValueOf(low));
    WindowBound(ValueOf(xs), ValueOf(low), ValueOf(ws), ValueOf(ys), k);
    LowStops(ws, |ys| + 1, |ys| + 1 + |ws|);
    LowBeyond(ws, |ys| + 1 + |ws|);
  }

  lemma WindowBound(v: nat, low: nat, w: nat, y: nat, k: nat)
    requires v == low + Place(w, k) && v < Place(y, k + 1)
    ensures w < y * B
  {
    if w >= y * B {
      Monotone(y * B, w, Pow(k));
      Associate(y, B, Pow(k));
    }
  }

  // The estimate for a window, from its digits.
  lemma WindowEstimate(ws: Digits, ys: Digits)
    requires Divisor(ys) && ValueOf(ws) == Low(ws, |ys| + 1) && ValueOf(ws) < ValueOf(ys) * B
    ensures var n := |ys|;
      && Digit(ws, n) * B + Digit(ws, n - 1) <= ys[n - 1] * B + ys[n - 2]
      && var q := ApproximateQuotient(Digit(ws, n), Digit(ws, n - 1), Digit(ws, n - 2), ys[n - 1], ys[n - 2]);
         ValueOf(ys) > 0 && Quotient(ValueOf(ws), ValueOf(ys)) <= q <= Quotient(ValueOf(ws), ValueOf(ys)) + 1
  {
    hide Low, Quotient, ApproximateQuotient;
    var n, m := |ys|, |ys| - 2;
    TopThree(ws, m);
    TopTwo(ys, m);
    LowBound(ws, m);
    LowBound(ys, m);
    var t, t2 := Digit(ws, n) * B + Digit(ws, n - 1), ys[n - 1] * B + ys[n - 2];
    TopFits(ValueOf(ws), ValueOf(ys), Low(ws, m), Low(ys, m), t, Digit(ws, n - 2), t2, Pow(m));
    DigitEstimate(ValueOf(ws), ValueOf(ys), Low(ws, m), Low(ys, m), t * B + Digit(ws, n - 2), t2, Pow(m),
                  ApproximateQuotient(Digit(ws, n), Digit(ws, n - 1), Digit(ws, n - 2), ys[n - 1], ys[n - 2]));
  }

  ghost function Multiple(d: nat, y: nat): nat {
    d * y
  }

  // Taking the true digit's multiple of the divisor leaves less than the divisor, at its place.
  lemma DigitTaken(v: nat, low: nat, w: nat, y: nat, k: nat)
    requires v == low + Place(w, k) && low < Pow(k) && y > 0
    ensures var d := Quotient(w, y);
      && 0 <= v - Place(Multiple(d, y), k) < Place(y, k)
      && Place(Multiple(d + 1, y), k) == Place(Multiple(d, y), k) + Place(y, k)
      && w < Multiple(d + 1, y)
  {
    hide Quotient, Remainder;
    var d := Quotient(w, y);
    DivMod(w, y);
    var p := Pow(k);
    Distribute(d, 1, y);
    Distribute(w, d * y, p);
    Distribute(d * y, y, p);
    Monotone(0, w - d * y, p);
    Monotone(w - d * y + 1, y, p);
    Distribute(w - d * y, 1, p);
  }

  // Adding the divisor back never carries past the window.
  lemma AddBackFits(v: nat, low: nat, w: nat, ys: Digits, q: nat, k: nat)
    requires v == low + Place(w, k) && low < Pow(k) && w < Multiple(q, ValueOf(ys)) && q < B
    ensures v + Place(ValueOf(ys), k) < Pow(k + |ys| + 1)
  {
    hide Low;
    var y, p := ValueOf(ys), Pow(k);
    LowBound(ys, |ys|);
    Monotone(q + 1, B, y);
    Distribute(q, 1, y);
    Monotone(w + y + 1, B * Pow(|ys|), p);
    Distribute(w + y, 1, p);
    Distribute(w, y, p);
    PowAdds(|ys| + 1, k);
    assert Pow(|ys| + 1) == B * Pow(|ys|);
  }

  // The same for the digits of x itself.
  lemma EstimateOf(xs: Digits, ws: Digits, ys: Digits, k: nat)
    requires Divisor(ys) && Normal(xs) && ValueOf(xs) < Place(ValueOf(ys), k + 1)
    requires forall i: nat :: Digit(ws, i) == if i < |ys| + 1 then Digit(xs, k + i) else 0
    ensures ValueOf(ys) > 0 && ValueOf(xs) == Low(xs, k) + Place(ValueOf(ws), k) && Low(xs, k) < Pow(k)
    ensures var j := k + |ys|;
      && Digit(xs, j) * B + Digit(xs, j - 1) <= ys[|ys| - 1] * B + ys[|ys| - 2]
      && var q := ApproximateQuotient(Digit(xs, j), Digit(xs, j - 1), Digit(xs, j - 2), ys[|ys| - 1], ys[|ys| - 2]);
         Quotient(ValueOf(ws), ValueOf(ys)) <= q <= Quotient(ValueOf(ws), ValueOf(ys)) + 1
  {
    hide Low, Place, Quotient, ApproximateQuotient, ValueOf, Window;
    WindowDigits(xs, ws, ys, k);
    WindowEstimate(ws, ys);
    var n := |ys|;
    assert Digit(ws, n) == Digit(xs, k + n) && Digit(ws, n - 1) == Digit(xs, k + n - 1) && Digit(ws, n - 2) == Digit(xs, k + n - 2);
  }

  // The 3/2 estimate of the quotient digit at place k, and the window it is for.
  method EstimateDigit(x: BigUInt, y: BigUInt, k: nat) returns (q: Word, window: BigUInt)
    requires x.Valid() && y.Valid() && Divisor(y.Words()) && x.Value() < Place(y.Value(), k + 1)
    ensures fresh(window) && window.Valid() && y.Value() > 0
    ensures x.Value() == Low(x.Words(), k) + Place(window.Value(), k) && Low(x.Words(), k) < Pow(k)
    ensures var true_ := Quotient(window.Value(), y.Value()); true_ <= q <= true_ + 1
  {
    hide Low, Place, Pow, BigUInt.Valid, BigUInt.Words, Quotient, ApproximateQuotient, ValueOf, Normal;
    var dc := y.Count();
    var j := k + dc;
    var d1 := y.Get(dc - 1);
    var d0 := y.Get(dc - 2);
    window := x.Extract(k, j + 1);
    x.WordsAreNormal();
    EstimateOf(x.Words(), window.Words(), y.Words(), k);
    var r2 := x.Get(j);
    var r1 := x.Get(j - 1);
    var r0 := x.Get(j - 2);
    q := ApproximateQuotient(r2, r1, r0, d1, d0);
  }

  // Takes the true multiple of y from x, whichever of the two digits the estimate stands for.
  method SubtractMultiple(x: BigUInt, y: BigUInt, product: BigUInt, window: BigUInt, q: Word, k: nat) returns (digit: Word)
    requires x.Valid() && y.Valid() && product.Valid() && window.Valid()
    requires x != y && x != product && y != product && window != x && window != product && y.Value() > 0
    requires x.Value() == Low(x.Words(), k) + Place(window.Value(), k) && Low(x.Words(), k) < Pow(k)
    requires var d := Quotient(window.Value(), y.Value()); d <= q <= d + 1
    modifies x, product
    ensures x.Valid() && product.Valid() && digit == Quotient(window.Value(), y.Value())
    ensures x.Value() == old(x.Value()) - Place(Multiple(digit, y.Value()), k)
    ensures x.Value() < Place(y.Value(), k)
  {
    hide Low, Place, Pow, BigUInt.Valid, BigUInt.Words, Quotient, ValueOf, Multiple;
    ghost var w, v, low, ys := window.Value(), x.Value(), Low(x.Words(), k), y.Words();
    DigitTaken(v, low, w, y.Value(), k);
    EstimateDecides(w, y.Value(), q);
    product.Load(y);
    MultiplyByWord(product, q);
    var c := Compare(product, window);
    if c <= 0 {
      Subtract(x, product, k);
      digit := q;
    } else {
      // one too large: add the divisor back first
      AddBackFits(v, low, w, ys, q, k);
      Add(x, y, k);
      assert x.Value() < Pow(k + |ys| + 1);
      Subtract(x, product, k);
      digit := q - 1;
    }
  }

  // The quotient digit at place k: the window's multiple of y is taken from x.
  method ReduceWindow(x: BigUInt, y: BigUInt, product: BigUInt, k: nat) returns (digit: Word)
    requires x.Valid() && y.Valid() && product.Valid() && x != y && x != product && y != product
    requires Divisor(y.Words()) && x.Value() < Place(y.Value(), k + 1)
    modifies x, product
    ensures x.Valid() && product.Valid()
    ensures x.Value() == old(x.Value()) - Place(Multiple(digit, y.Value()), k)
    ensures x.Value() < Place(y.Value(), k)
  {
    hide Low, Place, Pow, BigUInt.Valid, BigUInt.Words, Quotient, ValueOf, Multiple;
    var q, window := EstimateDigit(x, y, k);
    digit := SubtractMultiple(x, y, product, window, q, k);
  }

  // The product tells whether the estimate is the true digit or one more.
  lemma EstimateDecides(w: nat, y: nat, q: nat)
    requires y > 0 && Quotient(w, y) <= q <= Quotient(w, y) + 1
    ensures y * q == Multiple(q, y)
    ensures q == if y * q <= w then Quotient(w, y) else Quotient(w, y) + 1
  {
    hide Quotient, Remainder;
    DivMod(w, y);
    Distribute(Quotient(w, y), 1, y);
  }

  // ----- the whole division -----

  // Shifting out the leading zeros makes a divisor of the same length.
  lemma NormalizedDivisor(y0: Digits, ys: Digits)
    requires Normal(y0) && Normal(ys) && |y0| >= 1
    requires ValueOf(ys) == ValueOf(y0) * Two(LeadingZeroBitCount(y0[|y0| - 1]))
    ensures |ys| == |y0| && ys[|ys| - 1] >= B / 2
  {
    hide Low, Pow, Two, BitLength;
    var top := y0[|y0| - 1];
    var z, v := LeadingZeroBitCount(top), ValueOf(y0);
    WordLength(top);
    TopLength(y0, top);
    NormalBound(y0);
    LengthShifts(v, z);
    LowOfNone([]);
    if ys != [] {
      var top' := ys[|ys| - 1];
      TopLength(ys, top');
      WordLength(top');
      WordWidth();
      TwoOfHalf();
    }
  }

  lemma LengthShifts(v: nat, z: nat)
    requires v > 0
    ensures BitLength(v * Two(z)) == BitLength(v) + z && v * Two(z) > 0
  {
    hide Two, BitLength;
    var n := BitLength(v);
    TwoAdds(n, z);
    TwoAdds(n - 1, z);
    Monotone(Two(n - 1), v, Two(z));
    Monotone(v + 1, Two(n), Two(z));
    Distribute(v, 1, Two(z));
    LengthIs(v * Two(z), n + z);
  }

  // Before the first step the dividend is small enough.
  lemma FirstWindow(xs: Digits, ys: Digits)
    requires Normal(ys) && ys != []
    ensures |xs| + 1 >= |ys| ==> ValueOf(xs) < Place(ValueOf(ys), |xs| + 1 - |ys|)
  {
    hide Low;
    if |xs| + 1 >= |ys| {
      LowBound(xs, |xs|);
      NormalBound(ys);
      PowAdds(|ys| - 1, |xs| + 1 - |ys|);
      Monotone(Pow(|ys| - 1), ValueOf(ys), Pow(|xs| + 1 - |ys|));
    }
  }

  // A digit set in the quotient balances the multiple taken from the dividend.
  lemma DigitBalances(q: nat, q': nat, before: nat, digit: nat, y: nat, k: nat)
    requires q' == q + Place(digit - before, k) && before == 0
    ensures Multiple(q', y) == Multiple(q, y) + Place(Multiple(digit, y), k)
  {
    Distribute(q, Place(digit, k), y);
    SwapFactors(digit, Pow(k), y);
  }

  lemma NotShorter(xs: Digits, ys: Digits)
    requires Normal(xs) && Normal(ys) && ValueOf(xs) >= ValueOf(ys)
    ensures |xs| >= |ys|
  {
    if |xs| < |ys| {
      LongerIsGreater(xs, ys);
    }
  }

  // The long division loop: leaves the remainder in x.
  method LongDivision(x: BigUInt, y: BigUInt) returns (quotient: BigUInt)
    requires x.Valid() && y.Valid() && x != y && Divisor(y.Words()) && x.Value() >= y.Value()
    modifies x
    ensures x.Valid() && fresh(quotient) && quotient.Valid()
    ensures old(x.Value()) == Multiple(quotient.Value(), y.Value()) + x.Value() && x.Value() < y.Value()
  {
    hide Low, Place, Pow, BigUInt.Valid, BigUInt.Words, ValueOf, Normal, Multiple;
    quotient := new BigUInt();
    var product := new BigUInt();
    var dc := y.Count();
    var j := x.Count();
    x.WordsAreNormal();
    y.WordsAreNormal();
    NotShorter(x.Words(), y.Words());
    FirstWindow(x.Words(), y.Words());
    PlaceAtZero(y.Value());
    NoQuotientYet(quotient.Words(), y.Value());
    while j >= dc
      invariant x.Valid() && y.Valid() && product.Valid() && quotient.Valid() && fresh(product) && fresh(quotient)
      invariant product != quotient && j >= dc - 1
      invariant old(x.Value()) == Multiple(quotient.Value(), y.Value()) + x.Value()
      invariant x.Value() < Place(y.Value(), j + 1 - dc)
      invariant forall i: nat | i + dc <= j :: Digit(quotient.Words(), i) == 0
      decreases j + 1
    {
      LongDivisionStep(x, y, product, quotient, j - dc);
      j := j - 1;
    }
  }

  // One digit of the quotient: the multiple of y leaves x and enters the quotient.
  method LongDivisionStep(x: BigUInt, y: BigUInt, product: BigUInt, quotient: BigUInt, k: nat)
    requires x.Valid() && y.Valid() && product.Valid() && quotient.Valid()
    requires x != y && x != product && y != product && quotient != x && quotient != y && quotient != product
    requires Divisor(y.Words()) && x.Value() < Place(y.Value(), k + 1) && quotient.At(k) == 0
    modifies x, product, quotient
    ensures x.Valid() && product.Valid() && quotient.Valid()
    ensures Multiple(quotient.Value(), y.Value()) + x.Value() == Multiple(old(quotient.Value()), y.Value()) + old(x.Value())
    ensures x.Value() < Place(y.Value(), k)
    ensures forall i: nat | i != k :: Digit(quotient.Words(), i) == old(Digit(quotient.Words(), i))
  {
    hide Low, Place, Pow, BigUInt.Valid, BigUInt.Words, BigUInt.At, ValueOf, Multiple, Divisor;
    ghost var q, before := quotient.Value(), quotient.At(k);
    var digit := ReduceWindow(x, y, product, k);
    quotient.Set(k, digit);
    DigitBalances(q, quotient.Value(), before, digit, y.Value(), k);
  }

  lemma NoQuotientYet(ds: Digits, y: nat)
    requires ds == []
    ensures ValueOf(ds) == 0 && Multiple(ValueOf(ds), y) == 0 && forall i: nat :: Digit(ds, i) == 0
  {
  }

  // Undoing the normalization: x0 = q * y0 + r, from the shifted numbers.
  lemma Denormalized(x0: nat, y0: nat, u: nat, q: nat, r: nat)
    requires u > 0 && x0 * u == Multiple(q, y0 * u) + r && r < y0 * u
    ensures y0 > 0 && q == Quotient(x0, y0) && Quotient(r, u) == Remainder(x0, y0)
  {
    hide Quotient, Remainder;
    Associate(q, y0, u);
    Distribute(x0, q * y0, u);
    RestIsMultiple(x0 - q * y0, r, u, y0);
    QuotientIs(x0, y0, q, x0 - q * y0);
  }

  // Leaves the quotient in x and the remainder in y.
  method Divide(x: BigUInt, y: BigUInt)
    requires x.Valid() && y.Valid() && x != y && y.Value() > 0
    modifies x, y
    ensures x.Valid() && y.Valid()
    ensures x.Value() == Quotient(old(x.Value()), old(y.Value()))
    ensures y.Value() == Remainder(old(x.Value()), old(y.Value()))
  {
    hide Low, Place, Pow, BigUInt.Valid, BigUInt.Words, ValueOf, Quotient, Remainder;
    NoQuotientYet([], 0);
    var c := Compare(x, y);
    if c < 0 {
      QuotientIs(x.Value(), y.Value(), 0, x.Value());
      var zero := new BigUInt();
      y.Assign(x);
      x.Assign(zero);
      return;
    }
    var n := y.Count();
    if n == 1 {
      var w := y.Get(0);
      OneDigit(y.Words());
      var r := DivideByWord(x, w);
      var rest := new BigUInt.FromPair(r, 0);
      PairValue(rest.Words(), r);
      y.Assign(rest);
      return;
    }
    DivideLong(x, y);
  }

  lemma PairValue(ds: Digits, low: Word)
    requires Digit(ds, 0) == low && forall i: nat | i > 0 :: Digit(ds, i) == 0
    ensures ValueOf(ds) == low
  {
    ValueAgrees(ds, [low]);
    OneDigit([low]);
  }

  method DivideLong(x: BigUInt, y: BigUInt)
    requires x.Valid() && y.Valid() && x != y && |y.Words()| != 1 && 0 < y.Value() <= x.Value()
    modifies x, y
    ensures x.Valid() && y.Valid()
    ensures x.Value() == Quotient(old(x.Value()), old(y.Value()))
    ensures y.Value() == Remainder(old(x.Value()), old(y.Value()))
  {
    hide Low, Place, Pow, BigUInt.Valid, BigUInt.Words, ValueOf, Quotient, Remainder, Two;
    ghost var x0, y0 := x.Value(), y.Value();
    NoQuotientYet([], 0);
    y.WordsAreNormal();
    ghost var ys := y.Words();
    var n := y.Count();
    var top := y.Get(n - 1);
    var z := LeadingZeroBitCount(top);
    ShiftLeft(y, z);
    ShiftLeft(x, z);
    y.WordsAreNormal();
    NormalizedDivisor(ys, y.Words());
    Monotone(y0, x0, Two(z));
    var quotient := LongDivision(x, y);
    Denormalized(x0, y0, Two(z), quotient.Value(), x.Value());
    ShiftRight(x, z);
    y.Assign(x);
    x.Assign(quotient);
  }

  // The remainder alone.  `y` is the modulus m, shifted by `shift` bits so that its top bit is set.
  method FormRemainder(x: BigUInt, y: BigUInt, shift: nat, ghost m: nat)
    requires x.Valid() && y.Valid() && x != y
    requires Normalized(y, shift, m)
    modifies x
    ensures x.Valid() && x.Value() == Remainder(old(x.Value()), m)
  {
    hide Low, Place, Pow, BigUInt.Valid, BigUInt.Words, ValueOf, Quotient, Remainder, Two;
    var n := y.Count();
    if n == 1 {
      var w := y.Get(0);
      OneDigit(y.Words());
      QuotientIs(w, Two(shift), m, 0);
      var r := DivideByWord(x, ShiftDown(w, shift));
      var rest := new BigUInt.FromPair(r, 0);
      PairValue(rest.Words(), r);
      x.Load(rest);
      return;
    }
    ghost var x0 := x.Value();
    ShiftLeft(x, shift);
    var c := Compare(x, y);
    ghost var q := 0;
    NoQuotientYet([], y.Value());
    if c >= 0 {
      q := RemainderLoop(x, y);
    }
    Denormalized(x0, m, Two(shift), q, x.Value());
    ShiftRight(x, shift);
  }

  ghost predicate Normalized(y: BigUInt, shift: nat, m: nat)
    reads y
  {
    && y.Words() != [] && y.Words()[|y.Words()| - 1] >= B / 2
    && y.Value() == m * Two(shift)
  }

  // Like the long division loop, but the quotient is not kept.
  method RemainderLoop(x: BigUInt, y: BigUInt) returns (ghost quotient: nat)
    requires x.Valid() && y.Valid() && x != y && Divisor(y.Words()) && x.Value() >= y.Value()
    modifies x
    ensures x.Valid() && old(x.Value()) == Multiple(quotient, y.Value()) + x.Value() && x.Value() < y.Value()
  {
    hide Low, Place, Pow, BigUInt.Valid, BigUInt.Words, ValueOf, Normal, Multiple;
    var product := new BigUInt();
    var dc := y.Count();
    var j := x.Count();
    quotient := 0;
    x.WordsAreNormal();
    y.WordsAreNormal();
    NotShorter(x.Words(), y.Words());
    FirstWindow(x.Words(), y.Words());
    PlaceAtZero(y.Value());
    NoQuotientYet([], y.Value());
    while j >= dc
      invariant x.Valid() && y.Valid() && product.Valid() && fresh(product) && j >= dc - 1
      invariant old(x.Value()) == Multiple(quotient, y.Value()) + x.Value()
      invariant x.Value() < Place(y.Value(), j + 1 - dc)
      decreases j + 1
    {
      var digit := ReduceWindow(x, y, product, j - dc);
      MultipleGrows(quotient, digit, y.Value(), j - dc);
      quotient := quotient + Place(digit, j - dc);
      j := j - 1;
    }
  }

  lemma MultipleGrows(q: nat, digit: nat, y: nat, k: nat)
    ensures Place(digit, k) >= 0 && Multiple(q + Place(digit, k), y) == Multiple(q, y) + Place(Multiple(digit, y), k)
  {
    PlaceIsNatural(digit, k);
    DigitBalances(q, q + Place(digit, k), 0, digit, y, k);
  }

  // A modulus shifted so that its top bit is set.
  method Normalize(y: BigUInt) returns (normalized: BigUInt, shift: nat)
    requires y.Valid() && y.Value() > 0
    ensures fresh(normalized) && normalized.Valid() && Normalized(normalized, shift, y.Value())
  {
    hide Low, Pow, BigUInt.Valid, BigUInt.Words, ValueOf, Two;
    NoQuotientYet([], 0);
    y.WordsAreNormal();
    var n := y.Count();
    var top := y.Get(n - 1);
    shift := LeadingZeroBitCount(top);
    normalized := y.Copy();
    ShiftLeft(normalized, shift);
    normalized.WordsAreNormal();
    NormalizedDivisor(y.Words(), normalized.Words());
  }
}
