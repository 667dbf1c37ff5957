/** Division of two words by one, in half-words, and the 3/2 estimate of a quotient digit.  Every
    intermediate value is a Word, so that nothing overflows but where the wrap-around is written out. */
module WordDivision {
  import opened Naturals
  import opened BigDigits
  import opened BigArithmetic
  import opened BigShifts

  const HALF: nat := 0x1_0000_0000

  type Half = x: nat | x < HALF

  function HighHalf(w: Word): Half {
    w / 0x1_0000_0000
  }

  function LowHalf(w: Word): Half {
    w % 0x1_0000_0000
  }

  lemma Halves(w: Word)
    ensures w == HighHalf(w) * HALF + LowHalf(w)
    ensures HighHalf(w) == 0 <==> w < HALF
  {
  }

  // Two halves as one word; nothing is lost when the upper one is a half.
  function Upshifted(high: nat, low: Half): Word {
    high % 0x1_0000_0000 * HALF + low
  }

  // ----- three halves by two -----

  // What is left after q - k times the divisor, in digits of base b.
  lemma LeftAfter(u1: int, u0: int, v1: int, v0: int, q: int, r: int, k: int, b: int)
    requires u1 == q * v1 + r
    ensures u1 * b + u0 - (q - k) * (v1 * b + v0) == (r + k * v1) * b + u0 - (q * v0 - k * v0)
  {
    Distribute(q, k, v1 * b + v0);
    Associate(q, v1, b);
    Associate(k, v1, b);
    Distribute(r, k * v1, b);
    Distribute(q * v1, r, b);
    Distribute(v1 * b, v0, q);
    Distribute(v1 * b, v0, k);
  }

  // How far the estimate q overshoots shows from its rest r and the product p with the lower half.
  predicate Estimates(q: nat, r: nat, p: nat, vn1: nat, vn0: nat, u0: nat, quotient: nat) {
    quotient < HALF
    && if p <= r * HALF + u0 then quotient == q
       else if r + vn1 >= HALF || p - vn0 <= (r + vn1) * HALF + u0 then q >= 1 && vn0 <= p && quotient == q - 1
       else q >= 2 && vn0 <= p && quotient == q - 2
  }

  // The quotient is q - k when the rest after that is between zero and the divisor.
  lemma QuotientIsLess(u1: nat, u0: nat, v1: nat, v0: nat, q: nat, r: nat, k: nat, b: nat)
    requires u1 == q * v1 + r && v1 * b + v0 > 0 && u1 * b >= 0
    requires 0 <= (r + k * v1) * b + u0 - (q * v0 - k * v0) < v1 * b + v0
    ensures k <= q && Quotient(u1 * b + u0, v1 * b + v0) == q - k
  {
    hide Quotient;
    LeftAfter(u1, u0, v1, v0, q, r, k, b);
    QuotientIs(u1 * b + u0, v1 * b + v0, q - k, (r + k * v1) * b + u0 - (q * v0 - k * v0));
  }

  // The estimate from the upper half of the divisor is right, or one or two too large.
  lemma HalfEstimate(u1: nat, u0: nat, vn1: nat, vn0: nat, q: nat, r: nat, p: nat)
    requires u0 < HALF && HALF / 2 <= vn1 < HALF && vn0 < HALF
    requires u1 == q * vn1 + r && r < vn1 && u1 < vn1 * HALF + vn0 && p == q * vn0
    ensures q <= HALF + 1 && p < B
    ensures Estimates(q, r, p, vn1, vn0, u0, Quotient(u1 * HALF + u0, vn1 * HALF + vn0))
  {
    hide Quotient;
    EstimateBound(u1, vn1, vn0, q, r);
    SomeProduct(q, vn0, p);
    QuotientBound(u1 * HALF + u0, vn1 * HALF + vn0, HALF);
    if p <= r * HALF + u0 {
      QuotientIsLess(u1, u0, vn1, vn0, q, r, 0, HALF);
    } else if r + vn1 >= HALF || p - vn0 <= (r + vn1) * HALF + u0 {
      QuotientIsLess(u1, u0, vn1, vn0, q, r, 1, HALF);
    } else {
      QuotientIsLess(u1, u0, vn1, vn0, q, r, 2, HALF);
    }
  }

  lemma SomeProduct(q: nat, m: nat, p: nat)
    requires p == q * m
    ensures p > 0 ==> q > 0 && m <= p
  {
    if q > 0 {
      Monotone(1, q, m);
    }
  }

  lemma EstimateBound(u1: nat, vn1: nat, vn0: nat, q: nat, r: nat)
    requires HALF / 2 <= vn1 && vn0 < HALF
    requires u1 == q * vn1 + r && u1 < vn1 * HALF + vn0
    ensures q <= HALF + 1 && q * vn0 < B
  {
    if q >= HALF + 2 {
      Monotone(HALF + 2, q, vn1);
    }
    Monotone(q, HALF + 1, vn0);
  }

  function Corrected(q: Word, r: Half, p: Word, vn1: Half, vn0: Half, u0: Half, ghost quotient: nat): (e: Word)
    requires Estimates(q, r, p, vn1, vn0, u0, quotient)
    ensures e == quotient
  {
    if HighHalf(q) == 0 && p <= Upshifted(r, u0) then q else
      var r2: Word := r as int + vn1 as int;
      if HighHalf(r2) != 0 then q - 1
      else if HighHalf(q - 1) == 0 && p - vn0 <= Upshifted(r2, u0) then q - 1
      else q - 2
  }

  // The half-word quotient of u1 * HALF + u0 by vn, which has its top bit set.
  function HalfQuotient(u1: Word, u0: Half, vn: Word): (q: Word)
    requires u1 < vn && vn >= B / 2
    ensures q < HALF && q == Quotient(u1 * HALF + u0, vn)
  {
    var vn1, vn0 := HighHalf(vn), LowHalf(vn);
    Halves(vn);
    DivMod(u1, vn1);
    QuotientIsSmaller(u1, vn1);
    var q, r := Quotient(u1, vn1), Remainder(u1, vn1);
    HalfEstimate(u1, u0, vn1, vn0, q, r, q * vn0);
    Corrected(q, r, q * vn0, vn1, vn0, u0, Quotient(u1 * HALF + u0, vn))
  }

  // a &- b
  function WrappingSubtract(a: Word, b: Word): Word {
    if a >= b then a - b else a - b + B
  }

  // A small difference of two large numbers survives the wrap-around.
  lemma WrapsBack(n: nat, m: nat, s: Word, t: Word, a: int, b: int)
    requires n == a * B + s && m == b * B + t && 0 <= n - m < B
    ensures WrappingSubtract(s, t) == n - m
  {
  }

  // Three halves by two: a half-word quotient and a full-word remainder.
  function HalfDivide(u1: Word, u0: Half, v: Word): (r: (Word, Word))
    requires u1 < v && v >= B / 2
    ensures r.0 < HALF && r.1 < v && u1 * HALF + u0 == r.0 * v + r.1
  {
    var q := HalfQuotient(u1, u0, v);
    var r := WrappingSubtract(Upshifted(u1, u0), Remainder(q * v, B));
    HalfRemainderIs(u1, u0, v, q);
    (q, r)
  }

  lemma HalfRemainderIs(u1: Word, u0: Half, v: Word, q: Word)
    requires v > 0 && q == Quotient(u1 * HALF + u0, v)
    ensures Upshifted(u1, u0) < B
    ensures var r := WrappingSubtract(Upshifted(u1, u0), Remainder(q * v, B));
      r < v && u1 * HALF + u0 == q * v + r
  {
    hide Quotient, Remainder;
    var n := u1 * HALF + u0;
    DivMod(n, v);
    DivMod(q * v, B);
    Halves(u1);
    assert n == HighHalf(u1) * B + Upshifted(u1, u0);
    WrapsBack(n, q * v, Upshifted(u1, u0), Remainder(q * v, B), HighHalf(u1), Quotient(q * v, B));
  }

  // ----- two words by one -----

  // Shifting the divisor's top bit to the top loses no bits.
  lemma Normalized(d: Word)
    requires d > 0
    ensures var z := LeadingZeroBitCount(d);
      z < 64 && ShiftUp(d, z) == d * Two(z) && B / 2 <= d * Two(z) < B
  {
    hide Two, BitLength, Quotient, Remainder;
    WordLength(d);
    var n, z := BitLength(d), 64 - BitLength(d);
    WordWidth();
    TwoAdds(n, z);
    TwoAdds(n - 1, z);
    Monotone(Two(n - 1), d, Two(z));
    Monotone(d + 1, Two(n), Two(z));
    Distribute(d, 1, Two(z));
    TwoOfHalf();
    QuotientIs(d * Two(z), B, 0, d * Two(z));
  }

  lemma TwoOfHalf()
    ensures 2 * Two(63) == Two(64)
  {
  }

  // The dividend, shifted like the divisor, in two words.
  function ShiftedHigh(high: Word, low: Word, z: nat, ghost d: Word): (r: Word)
    requires high < d && z < 64 && d * Two(z) < B
    ensures r < d * Two(z) && r * B + ShiftUp(low, z) == (high * B + low) * Two(z)
  {
    ShiftedDividend(high, low, z, d);
    if z == 0 then high else Or(ShiftUp(high, z), ShiftDown(low, 64 - z), z)
  }

  lemma ShiftedDividend(high: Word, low: Word, z: nat, d: Word)
    requires high < d && z < 64 && d * Two(z) < B
    ensures ShiftUp(high, z) == high * Two(z) && Remainder(ShiftUp(high, z), Two(z)) == 0
    ensures ShiftDown(low, 64 - z) < Two(z) && ShiftUp(high, z) + Two(z) <= d * Two(z)
    ensures (ShiftUp(high, z) + ShiftDown(low, 64 - z)) * B + ShiftUp(low, z) == (high * B + low) * Two(z)
    ensures z == 0 ==> ShiftUp(high, z) + ShiftDown(low, 64 - z) == high
  {
    hide Two, Quotient, Remainder;
    var u := Two(z);
    ShiftSplits(low, z, 64 - z);
    ShiftSplits(high, z, 64 - z);
    Monotone(high + 1, d, u);
    Distribute(high, 1, u);
    QuotientIs(high * u, B, 0, high * u);
    Distribute(high * B, low, u);
    Associate(high, u, B);
    SwapFactors(high, u, B);
    TwoOfZero();
  }

  // Quotient and remainder of high * B + low by d.
  function FastDividingFullWidth(high: Word, low: Word, d: Word): (r: (Word, Word))
    requires high < d
    ensures r.0 * d + r.1 == high * B + low && r.1 < d
  {
    var z := LeadingZeroBitCount(d);
    Normalized(d);
    var vn := ShiftUp(d, z);
    var un32 := ShiftedHigh(high, low, z, d);
    var un10 := ShiftUp(low, z);
    var un1, un0 := HighHalf(un10), LowHalf(un10);
    var (q1, un21) := HalfDivide(un32, un1, vn);
    var (q0, rn) := HalfDivide(un21, un0, vn);
    TwoHalfSteps(high, low, d, z, un32, q1, un21, q0, rn);
    (Upshifted(q1, q0), ShiftDown(rn, z))
  }

  // The two half-word steps together, and the normalization undone.
  lemma TwoHalfSteps(high: Word, low: Word, d: Word, z: nat, un32: Word, q1: Half, un21: Word, q0: Half, rn: Word)
    requires 0 < d && d * Two(z) < B && un32 * B + ShiftUp(low, z) == (high * B + low) * Two(z)
    requires un32 * HALF + HighHalf(ShiftUp(low, z)) == q1 * (d * Two(z)) + un21
    requires un21 * HALF + LowHalf(ShiftUp(low, z)) == q0 * (d * Two(z)) + rn && rn < d * Two(z)
    ensures ShiftDown(rn, z) < d && Upshifted(q1, q0) * d + ShiftDown(rn, z) == high * B + low
  {
    hide Two, Quotient, Remainder, HighHalf, LowHalf, Upshifted, ShiftUp;
    UpshiftedHalves(q1, q0);
    var u, n, q := Two(z), high * B + low, q1 * HALF + q0;
    var t := ShiftUp(low, z);
    Halves(t);
    RestScaled(n, d, u, un32, HighHalf(t), LowHalf(t), q1, un21, q0, rn);
    RestIsMultiple(n - q * d, rn, u, d);
  }

  lemma UpshiftedHalves(high: Half, low: Half)
    ensures Upshifted(high, low) == high * HALF + low
  {
  }

  lemma RestScaled(n: int, d: int, u: int, un32: int, t1: int, t0: int, q1: int, un21: int, q0: int, rn: int)
    requires un32 * B + t1 * HALF + t0 == n * u
    requires un32 * HALF + t1 == q1 * (d * u) + un21 && un21 * HALF + t0 == q0 * (d * u) + rn
    ensures (n - (q1 * HALF + q0) * d) * u == rn
  {
    var q := q1 * HALF + q0;
    CombineHalves(n * u, d * u, un32, t1, t0, q1, un21, q0, rn);
    Associate(q, d, u);
    Distribute(n, q * d, u);
  }

  lemma CombineHalves(nu: int, vn: int, un32: int, t1: int, t0: int, q1: int, un21: int, q0: int, rn: int)
    requires un32 * B + t1 * HALF + t0 == nu
    requires un32 * HALF + t1 == q1 * vn + un21 && un21 * HALF + t0 == q0 * vn + rn
    ensures nu == (q1 * HALF + q0) * vn + rn
  {
    Distribute(q1 * HALF, q0, vn);
    assert q1 * HALF * vn == q1 * vn * HALF;
  }

  lemma RestIsMultiple(m: int, rn: nat, u: nat, d: nat)
    requires u > 0 && m * u == rn < d * u
    ensures 0 <= m < d && Quotient(rn, u) == m
  {
    hide Quotient, Remainder;
    if m < 0 {
      Monotone(1, 0 - m, u);
      Distribute(0, m, u);
    } else if m >= d {
      Monotone(d, m, u);
    }
    QuotientIs(rn, u, m, 0);
  }

  // ----- three words by two -----

  // The estimate from the top word of the divisor, in the worst case cut off at the largest word.
  lemma WordEstimate(u1: nat, u0: nat, v1: nat, v0: nat, q: nat, r: nat, p: nat)
    requires u0 < B && B / 2 <= v1 < B && v0 < B
    requires u1 == q * v1 + r && q < B && (r < v1 || q == B - 1) && p == q * v0
    ensures var quotient := Min(Quotient(u1 * B + u0, v1 * B + v0), B - 1);
      if p <= r * B + u0 then quotient == q
      else if r + v1 >= B || p - v0 <= (r + v1) * B + u0 then q >= 1 && v0 <= p && quotient == q - 1
      else q >= 2 && v0 <= p && quotient == q - 2
  {
    hide Quotient;
    SomeProduct(q, v0, p);
    ProductBound(q, v0);
    if p <= r * B + u0 {
      EstimateFits(u1, u0, v1, v0, q, r);
    } else if r + v1 >= B || p - v0 <= (r + v1) * B + u0 {
      QuotientIsLess(u1, u0, v1, v0, q, r, 1, B);
    } else {
      QuotientIsLess(u1, u0, v1, v0, q, r, 2, B);
    }
  }

  lemma EstimateFits(u1: nat, u0: nat, v1: nat, v0: nat, q: nat, r: nat)
    requires u0 < B && v1 > 0 && u1 == q * v1 + r && q < B && (r < v1 || q == B - 1)
    requires q * v0 <= r * B + u0
    ensures Min(Quotient(u1 * B + u0, v1 * B + v0), B - 1) == q
  {
    hide Quotient;
    if r < v1 {
      QuotientIsLess(u1, u0, v1, v0, q, r, 0, B);
    } else {
      LeftAfter(u1, u0, v1, v0, q, r, 0, B);
      QuotientAtLeast(u1 * B + u0, v1 * B + v0, q);
    }
  }

  // (h, l) compared as a double word
  predicate NotAbove(h: Word, l: Word, r: Word, x: Word) {
    h < r || (h == r && l <= x)
  }

  // The quotient of x0 x1 x2 by y0 y1, or the largest word when it does not fit.
  function ApproximateQuotient(x0: Word, x1: Word, x2: Word, y0: Word, y1: Word): (q: Word)
    requires x0 * B + x1 <= y0 * B + y1 && y0 >= B / 2
    ensures q == Min(Quotient((x0 * B + x1) * B + x2, y0 * B + y1), B - 1)
  {
    if x0 == y0 then
      WordEstimate(x0 * B + x1, x2, y0, y1, B - 1, x0 + x1, (B - 1) * y1);
      ProductBound(B - 1, y1);
      var (s, o) := AddingReportingOverflow(x0, x1);
      if o then B - 1 else Refined(B - 1, s, x0, x1, x2, y0, y1)
    else
      var (q, r) := FastDividingFullWidth(x0, x1, y0);
      Refined(q, r, x0, x1, x2, y0, y1)
  }

  // The estimate corrected by what x2 and y1 tell.
  function Refined(q: Word, r: Word, x0: Word, x1: Word, x2: Word, y0: Word, y1: Word): (e: Word)
    requires x0 * B + x1 == q * y0 + r && y0 >= B / 2 && (r < y0 || q == B - 1)
    ensures e == Min(Quotient((x0 * B + x1) * B + x2, y0 * B + y1), B - 1)
  {
    WordEstimate(x0 * B + x1, x2, y0, y1, q, r, q * y1);
    var (ph, pl) := MultipliedFullWidth(q, y1);
    if NotAbove(ph, pl, r, x2) then q else
      var (r1, ro) := AddingReportingOverflow(r, y0);
      if ro then q - 1 else
        var (pl1, so) := SubtractingReportingOverflow(pl, y1);
        var ph1 := if so then ph - 1 else ph;
        if NotAbove(ph1, pl1, r1, x2) then q - 1 else q - 2
  }
}
