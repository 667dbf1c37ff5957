/** Multiplication: by a word in place, fused with addition, by hand, and by Karatsuba's recursion. */
module BigMultiplication {
  import opened Naturals
  import opened BigDigits
  import opened BigUInts
  import opened BigArithmetic

  method Subtract(a: BigUInt, b: BigUInt, shift: nat)
    requires a.Valid() && b.Valid() && a != b && a.Value() >= Place(b.Value(), shift)
    modifies a
    ensures a.Valid() && a.Value() == old(a.Value()) - Place(b.Value(), shift)
  {
    var overflow := SubtractReportingOverflow(a, b, shift);
  }

  // The product of two words and a carry word, low word and new carry.
  function MultiplyWithCarry(x: Word, y: Word, carry: Word): (Word, Word) {
    var (h, l) := MultipliedFullWidth(x, y);
    var (low, o) := AddingReportingOverflow(l, carry);
    (low, if o then h + 1 else h)
  }

  lemma MultiplyIsExact(x: Word, y: Word, carry: Word)
    ensures var r := MultiplyWithCarry(x, y, carry); r.0 + r.1 * B == x * y + carry
  {
  }

  // What the lowest n digits have gained by the multiplication.
  ghost function Gained(ds: Digits, n: nat, y: Word): int {
    Low(ds, n) * (y - 1)
  }

  // One digit of a product in place.
  lemma GainStep(ds: Digits, d: int, y: Word, carryIn: int, carryOut: int, i: nat)
    requires d + carryOut * B == Digit(ds, i) * y + carryIn
    ensures Place(d - Digit(ds, i), i) + Place(carryOut, i + 1) - Gained(ds, i + 1, y) == Place(carryIn, i) - Gained(ds, i, y)
  {
    var x, p := Digit(ds, i), Pow(i);
    Distribute(y, 1, x);
    CarryStep(x, d, carryIn, carryOut, x * (y - 1), i);
    Distribute(Low(ds, i), x * p, y - 1);
    assert x * p * (y - 1) == x * (y - 1) * p;
  }

  lemma TimesStep(ds: Digits, y: Word, carry: Word, i: nat)
    ensures var x := Digit(ds, i);
      var (d, next) := MultiplyWithCarry(x, y, carry);
      Place(d - x, i) + Place(next, i + 1) - Gained(ds, i + 1, y) == Place(carry, i) - Gained(ds, i, y)
  {
    hide Place, Gained, MultiplyWithCarry;
    var (d, next) := MultiplyWithCarry(Digit(ds, i), y, carry);
    MultiplyIsExact(Digit(ds, i), y, carry);
    GainStep(ds, d, y, carry, next, i);
  }

  lemma AllGained(ds: Digits, n: nat, y: Word)
    requires n >= |ds|
    ensures ValueOf(ds) + Gained(ds, n, y) == ValueOf(ds) * y
    ensures Gained(ds, 0, y) == 0
  {
    LowBeyond(ds, n);
    Distribute(y, 1, ValueOf(ds));
  }

  method MultiplyByWord(a: BigUInt, y: Word)
    requires a.Valid()
    modifies a
    ensures a.Valid() && a.Value() == old(a.Value()) * y
  {
    if y == 0 {
      var zero := new BigUInt();
      a.Assign(zero);
    } else if y != 1 {
      MultiplyDigits(a, y);
    }
  }

  method MultiplyDigits(a: BigUInt, y: Word)
    requires a.Valid()
    modifies a
    ensures a.Valid() && a.Value() == old(a.Value()) * y
  {
    hide Low, Pow, Place, BigUInt.Valid, BigUInt.Words, MultiplyWithCarry, Gained;
    ghost var as0 := a.Words();
    var carry: Word := 0;
    var c := a.Count();
    PlaceOfZero(0);
    AllGained(as0, c, y);
    for i := 0 to c
      invariant a.Valid()
      invariant a.Value() + Place(carry, i) == old(a.Value()) + Gained(as0, i, y)
      invariant forall j: nat | j >= i :: Digit(a.Words(), j) == Digit(as0, j)
    {
      var x := a.Get(i);
      var (low, next) := MultiplyWithCarry(x, y, carry);
      TimesStep(as0, y, carry, i);
      a.Set(i, low);
      carry := next;
    }
    assert a.At(c) == 0;
    a.Set(c, carry);
  }

  // What the lowest n digits contribute.
  ghost function Contributed(ds: Digits, n: nat, y: Word, shift: nat): int {
    Place(Low(ds, n) * y, shift)
  }

  lemma AllContributed(ds: Digits, n: nat, y: Word, shift: nat)
    requires n >= |ds|
    ensures Contributed(ds, n, y, shift) == Place(ValueOf(ds) * y, shift)
    ensures Contributed(ds, 0, y, shift) == 0
  {
    LowBeyond(ds, n);
  }

  // One digit of a product that is added on: both carries go to the next place.
  lemma FusedStep(xs: Digits, xi: nat, y: Word, shift: nat, ad: Word, mulCarry: Word, addCarry: bool)
    ensures var (low, next) := MultiplyWithCarry(Digit(xs, xi), y, mulCarry);
      var (sum, c) := AddWithCarry(ad, low, addCarry);
      Place(sum - ad, shift + xi) + Place(next + Bit(c), shift + xi + 1) - Contributed(xs, xi + 1, y, shift)
      == Place(mulCarry + Bit(addCarry), shift + xi) - Contributed(xs, xi, y, shift)
  {
    hide Low, Place, MultiplyWithCarry, AddWithCarry;
    var (low, next) := MultiplyWithCarry(Digit(xs, xi), y, mulCarry);
    var (sum, c) := AddWithCarry(ad, low, addCarry);
    MultiplyIsExact(Digit(xs, xi), y, mulCarry);
    LowTimes(xs, xi, y, shift);
    CarryStep(ad, sum, mulCarry + Bit(addCarry), next + Bit(c), Digit(xs, xi) * y, shift + xi);
  }

  // Above the multiplicand there is nothing to multiply, and above both nothing to carry.
  lemma CarryDiesOut(xs: Digits, xi: nat, y: Word, ad: Word, mulCarry: Word, addCarry: bool)
    requires xi >= |xs|
    ensures var (low, next) := MultiplyWithCarry(Digit(xs, xi), y, mulCarry);
      next == 0 && low == mulCarry && (ad == 0 && mulCarry == 0 ==> !AddWithCarry(ad, low, addCarry).1)
  {
    MultiplyIsExact(0, y, mulCarry);
  }

  // a += x * y << (64 * shift)
  method MultiplyAndAdd(a: BigUInt, x: BigUInt, y: Word, shift: nat)
    requires a.Valid() && x.Valid() && a != x
    modifies a
    ensures a.Valid() && a.Value() == old(a.Value()) + Place(x.Value() * y, shift)
  {
    var xc := x.Count();
    if y == 0 || xc == 0 {
      LowOfNone(x.Words());
      PlaceOfZero(shift);
    } else if y == 1 {
      Add(a, x, shift);
    } else {
      MultiplyDigitsAndAdd(a, x, y, shift);
    }
  }

  method MultiplyDigitsAndAdd(a: BigUInt, x: BigUInt, y: Word, shift: nat)
    requires a.Valid() && x.Valid() && a != x
    modifies a
    ensures a.Valid() && a.Value() == old(a.Value()) + Place(x.Value() * y, shift)
  {
    hide Low, Pow, Place, BigUInt.Valid, BigUInt.Words, MultiplyWithCarry, AddWithCarry, Contributed;
    ghost var xs, as0 := x.Words(), a.Words();
    var xc := x.Count();
    var mulCarry: Word, addCarry, xi := 0, false, 0;
    PlaceOfZero(shift);
    AllContributed(xs, xc, y, shift);
    while xi < xc || addCarry || mulCarry > 0
      invariant a.Valid() && x.Valid() && x.Words() == xs
      invariant a.Value() + Place(mulCarry + Bit(addCarry), shift + xi) == old(a.Value()) + Contributed(xs, xi, y, shift)
      invariant forall i: nat | i >= shift + xi :: Digit(a.Words(), i) == Digit(as0, i)
      invariant addCarry ==> xi <= Max(xc + 1, |as0|)
      invariant mulCarry > 0 ==> xi <= xc
      decreases Max(xc + 1, |as0|) + 1 - xi
    {
      var xd := x.Get(xi);
      var (low, next) := MultiplyWithCarry(xd, y, mulCarry);
      var ai := shift + xi;
      var ad := a.Get(ai);
      var (sum, c) := AddWithCarry(ad, low, addCarry);
      FusedStep(xs, xi, y, shift, ad, mulCarry, addCarry);
      if xi >= xc {
        CarryDiesOut(xs, xi, y, ad, mulCarry, addCarry);
      }
      a.Set(ai, sum);
      mulCarry, addCarry := next, c;
      xi := xi + 1;
    }
    PlaceOfZero(shift + xi);
    AllContributed(xs, xi, y, shift);
  }

  // ----- whole numbers -----

  lemma Karatsuba(a: int, b: int, c: int, d: int, s: int)
    ensures (a * s + b) * (c * s + d)
         == a * c * (s * s) + (a * c + b * d - (a - b) * (c - d)) * s + b * d
  {
    Expand(a, b, c, d);
    assert (a * d + b * c) * s == a * d * s + b * c * s by {
      Distribute(a * d, b * c, s);
    }
    assert (a * s + b) * (c * s + d) == a * s * (c * s) + a * s * d + b * (c * s) + b * d by {
      Expand(a * s, 0 - b, c * s, 0 - d);
    }
    Rearrange(a, b, c, d, s);
  }

  lemma Rearrange(a: int, b: int, c: int, d: int, s: int)
    ensures a * s * (c * s) == a * c * (s * s) && a * s * d == a * d * s && b * (c * s) == b * c * s
  {
  }

  lemma Expand(a: int, b: int, c: int, d: int)
    ensures (a - b) * (c - d) == a * c - a * d - b * c + b * d
  {
  }

  // The halves of a number of at least two words.
  method Split(x: BigUInt) returns (high: BigUInt, low: BigUInt, mid: nat)
    requires x.Valid() && |x.Words()| > 1
    ensures fresh(high) && fresh(low) && high.Valid() && low.Valid() && high != low
    ensures mid == (|x.Words()| + 1) / 2 && x.Value() == low.Value() + Place(high.Value(), mid)
    ensures |low.Words()| <= mid && |high.Words()| <= |x.Words()| - mid
    ensures low.Value() < Pow(mid) && high.Value() < Pow(mid)
  {
    hide Low, Pow, Place, BigUInt.Valid, BigUInt.Words, ValueOf, Normal;
    var n := x.Count();
    mid := (n + 1) / 2;
    high := x.Extract(mid, n);
    low := x.Extract(0, mid);
    low.WordsAreNormal();
    high.WordsAreNormal();
    SplitWords(x.Words(), low.Words(), high.Words(), mid);
  }

  lemma SplitWords(xs: Digits, low: Digits, high: Digits, mid: nat)
    requires |xs| - mid <= mid <= |xs| && Normal(low) && Normal(high)
    requires forall i: nat :: Digit(low, i) == if i < mid then Digit(xs, i) else 0
    requires forall i: nat :: Digit(high, i) == if i < |xs| - mid then Digit(xs, mid + i) else 0
    ensures ValueOf(xs) == ValueOf(low) + Place(ValueOf(high), mid)
    ensures ValueOf(low) < Pow(mid) && ValueOf(high) < Pow(mid)
    ensures |low| <= mid && |high| <= |xs| - mid
  {
    hide Low, Pow, Place, ValueOf, Normal;
    CutValue(xs, low, high, mid);
    ValueBound(high, |xs| - mid);
    CountBound(low, mid);
    CountBound(high, |xs| - mid);
    PowGrows(|xs| - mid, mid);
  }

  // Schoolbook multiplication: one fused step for each digit of the shorter operand, from the top.
  method MultiplyDirectly(left: BigUInt, right: BigUInt) returns (r: BigUInt)
    requires left.Valid() && right.Valid()
    ensures fresh(r) && r.Valid() && r.Value() == left.Value() * right.Value()
  {
    hide Low, Pow, Place, BigUInt.Valid, BigUInt.Words;
    ghost var rs, l := right.Words(), left.Value();
    r := new BigUInt();
    LowOfNone([]);
    var i := right.Count();
    AllContributedBelow(rs, l);
    while i > 0
      invariant 0 <= i <= |rs| && fresh(r) && r.Valid() && left.Valid() && right.Valid()
      invariant left.Value() == l && right.Words() == rs
      invariant r.Value() + Below(rs, i, l) == l * ValueOf(rs)
    {
      i := i - 1;
      var w := right.Get(i);
      MultiplyAndAdd(r, left, w, i);
      BelowStep(rs, i, l);
    }
  }

  // The part of the product that the lowest n digits are going to make.
  ghost function Below(ds: Digits, n: nat, l: nat): int {
    l * Low(ds, n)
  }

  lemma BelowStep(ds: Digits, i: nat, l: nat)
    ensures Below(ds, i + 1, l) == Below(ds, i, l) + Place(l * Digit(ds, i), i)
  {
    Distribute(Low(ds, i), Digit(ds, i) * Pow(i), l);
    Associate(l, Digit(ds, i), Pow(i));
  }

  lemma AllContributedBelow(ds: Digits, l: nat)
    ensures Below(ds, |ds|, l) == l * ValueOf(ds) && Below(ds, 0, l) == 0
  {
  }

  // The distance of two numbers, and whether the first is not the smaller one.
  method Distance(a: BigUInt, b: BigUInt) returns (m: BigUInt, ordered: bool)
    requires a.Valid() && b.Valid() && a != b
    ensures fresh(m) && m.Valid() && (ordered <==> a.Value() >= b.Value())
    ensures m.Value() == if ordered then a.Value() - b.Value() else b.Value() - a.Value()
  {
    hide BigUInt.Valid, BigUInt.Words;
    PlaceAtZero(a.Value());
    PlaceAtZero(b.Value());
    var c := Compare(a, b);
    ordered := c >= 0;
    if ordered {
      m := a.Copy();
      Subtract(m, b, 0);
    } else {
      m := b.Copy();
      Subtract(m, a, 0);
    }
  }

  lemma PlaceAtZero(d: int)
    ensures Place(d, 0) == d
  {
  }

  // low + high << 2s + low << s + high << s, and the mixed product taken from it or added to it
  method Recombine(high: BigUInt, low: BigUInt, m: BigUInt, shift: nat, same: bool) returns (r: BigUInt)
    requires high.Valid() && low.Valid() && m.Valid()
    requires same ==> Place(m.Value(), shift) <= Place(low.Value(), shift) + Place(high.Value(), shift)
    ensures fresh(r) && r.Valid()
    ensures r.Value() == low.Value() + Place(high.Value(), 2 * shift) + Place(low.Value(), shift) + Place(high.Value(), shift)
                         + if same then -Place(m.Value(), shift) else Place(m.Value(), shift)
  {
    hide BigUInt.Valid, BigUInt.Words, Place;
    PlaceIsNatural(high.Value(), 2 * shift);
    r := low.Copy();
    Add(r, high, 2 * shift);
    Add(r, low, shift);
    Add(r, high, shift);
    if same {
      Subtract(r, m, shift);
    } else {
      Add(r, m, shift);
    }
  }

  lemma PlaceIsNatural(d: nat, i: nat)
    ensures Place(d, i) >= 0
  {
    Monotone(0, d, Pow(i));
  }

  // The three products of Karatsuba's recursion make up the whole one.
  lemma Recombined(x: nat, y: nat, a: nat, b: nat, c: nat, d: nat, m: nat, shift: nat)
    requires x == b + Place(a, shift) && y == d + Place(c, shift)
    requires m == (if a >= b then a - b else b - a) * (if c >= d then c - d else d - c)
    ensures (a >= b) == (c >= d) ==> Place(m, shift) <= Place(b * d, shift) + Place(a * c, shift)
    ensures x * y == b * d + Place(a * c, 2 * shift) + Place(b * d, shift) + Place(a * c, shift)
                     + if (a >= b) == (c >= d) then -Place(m, shift) else Place(m, shift)
  {
    var s := Pow(shift);
    var mixed := (a - b) * (c - d);
    Karatsuba(a, b, c, d, s);
    PowAdds(shift, shift);
    assert shift + shift == 2 * shift;
    SignOfProduct(a, b, c, d);
    Distribute(a * c, b * d, s);
    Distribute(a * c + b * d, mixed, s);
    assert mixed == a * c - a * d - b * c + b * d;
    Monotone(0, a, d);
    Monotone(0, b, c);
    if (a >= b) == (c >= d) {
      assert m <= a * c + b * d;
      Monotone(m, a * c + b * d, s);
    } else {
      Distribute(0, m, s);
    }
  }

  lemma SignOfProduct(a: nat, b: nat, c: nat, d: nat)
    ensures var m := (if a >= b then a - b else b - a) * (if c >= d then c - d else d - c);
      (a - b) * (c - d) == (if (a >= b) == (c >= d) then m else -m) && m >= 0
  {
    Monotone(0, if a >= b then a - b else b - a, if c >= d then c - d else d - c);
  }

  // A difference of two numbers has no more digits than the longer one.
  lemma DifferenceIsShort(a: Digits, b: Digits, m: Digits, n: nat)
    requires Normal(a) && Normal(b) && Normal(m) && |a| <= n && |b| <= n
    requires ValueOf(m) <= ValueOf(a) || ValueOf(m) <= ValueOf(b)
    ensures |m| <= n
  {
    hide Low;
    LowBound(a, |a|);
    LowBound(b, |b|);
    PowGrows(|a|, n);
    PowGrows(|b|, n);
    CountBound(m, n);
  }

  // x * y, for any value of directMultiplicationLimit
  method Multiply(x: BigUInt, y: BigUInt, limit: int) returns (r: BigUInt)
    requires x.Valid() && y.Valid()
    ensures fresh(r) && r.Valid() && r.Value() == x.Value() * y.Value()
    decreases |x.Words()| + |y.Words()|
  {
    hide BigUInt.Valid, BigUInt.Words, Low, Place, Pow;
    var xc := x.Count();
    var yc := y.Count();
    LowOfNone([]);
    if xc == 0 {
      r := new BigUInt();
    } else if yc == 0 {
      r := new BigUInt();
    } else if yc == 1 {
      var w := y.Get(0);
      OneDigit(y.Words());
      r := x.Copy();
      MultiplyByWord(r, w);
    } else if xc == 1 {
      var w := x.Get(0);
      OneDigit(x.Words());
      r := y.Copy();
      MultiplyByWord(r, w);
    } else if Min(xc, yc) <= limit {
      r := MultiplyDirectly(if xc < yc then y else x, if xc < yc then x else y);
    } else if yc < xc {
      r := MultiplyHalves(x, y, limit);
    } else if xc < yc {
      r := MultiplyHalves(y, x, limit);
    } else {
      r := MultiplyKaratsuba(x, y, limit);
    }
  }

  lemma OneDigit(ds: Digits)
    requires |ds| == 1
    ensures ValueOf(ds) == ds[0]
  {
    assert Low(ds, 1) == Low(ds, 0) + ds[0] * Pow(0);
  }

  // Splits the longer factor only.
  method MultiplyHalves(x: BigUInt, y: BigUInt, limit: int) returns (r: BigUInt)
    requires x.Valid() && y.Valid() && |x.Words()| > 1
    ensures fresh(r) && r.Valid() && r.Value() == x.Value() * y.Value()
    decreases |x.Words()| + |y.Words()|, 0
  {
    hide BigUInt.Valid, BigUInt.Words, Low, Place, Pow;
    var xh, xl, mid := Split(x);
    r := Multiply(xl, y, limit);
    var h := Multiply(xh, y, limit);
    Add(r, h, mid);
    TimesPlace(xl.Value(), xh.Value(), y.Value(), mid);
  }

  lemma TimesPlace(low: int, high: int, y: int, i: nat)
    ensures (low + Place(high, i)) * y == low * y + Place(high * y, i)
  {
    Distribute(low, Place(high, i), y);
    assert high * Pow(i) * y == high * y * Pow(i);
  }

  method MultiplyKaratsuba(x: BigUInt, y: BigUInt, limit: int) returns (r: BigUInt)
    requires x.Valid() && y.Valid() && |x.Words()| == |y.Words()| > 1
    ensures fresh(r) && r.Valid() && r.Value() == x.Value() * y.Value()
    decreases |x.Words()| + |y.Words()|, 0
  {
    hide BigUInt.Valid, BigUInt.Words, Low, Place, Pow;
    var a, b, shift := Split(x);
    var c, d, _ := Split(y);
    var high := Multiply(a, c, limit);
    var low := Multiply(b, d, limit);
    var m, same := MixedProduct(a, b, c, d, shift, limit);
    Recombined(x.Value(), y.Value(), a.Value(), b.Value(), c.Value(), d.Value(), m.Value(), shift);
    r := Recombine(high, low, m, shift, same);
  }

  // |a - b| * |c - d|, and whether the differences have the same sign
  method MixedProduct(a: BigUInt, b: BigUInt, c: BigUInt, d: BigUInt, n: nat, limit: int) returns (m: BigUInt, same: bool)
    requires a.Valid() && b.Valid() && c.Valid() && d.Valid() && a != b && c != d
    requires |a.Words()| <= n && |b.Words()| <= n && |c.Words()| <= n && |d.Words()| <= n
    ensures fresh(m) && m.Valid()
    ensures same == ((a.Value() >= b.Value()) == (c.Value() >= d.Value()))
    ensures m.Value() == (if a.Value() >= b.Value() then a.Value() - b.Value() else b.Value() - a.Value())
                         * (if c.Value() >= d.Value() then c.Value() - d.Value() else d.Value() - c.Value())
    decreases 2 * n + 1
  {
    hide BigUInt.Valid, BigUInt.Words, BigUInt.Value;
    var xm, xp := Distance(a, b);
    var ym, yp := Distance(c, d);
    DistanceIsShort(a, b, xm, n);
    DistanceIsShort(c, d, ym, n);
    m := Multiply(xm, ym, limit);
    same := xp == yp;
  }

  lemma DistanceIsShort(a: BigUInt, b: BigUInt, m: BigUInt, n: nat)
    requires a.Valid() && b.Valid() && m.Valid() && |a.Words()| <= n && |b.Words()| <= n
    requires m.Value() == (if a.Value() >= b.Value() then a.Value() - b.Value() else b.Value() - a.Value())
    ensures |m.Words()| <= n
  {
    a.WordsAreNormal();
    b.WordsAreNormal();
    m.WordsAreNormal();
    DifferenceIsShort(a.Words(), b.Words(), m.Words(), n);
  }
}
