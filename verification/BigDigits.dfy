/** Numbers as sequences of 64-bit words, least significant word first. */
module BigDigits {
  import opened Naturals

  const B: nat := 0x1_0000_0000_0000_0000

  type Word = x: nat | x < B

  type Digits = seq<Word>

  function Pow(i: nat): (p: nat)
    ensures p > 0
  {
    if i == 0 then 1 else B * Pow(i - 1)
  }

  // A digit of the number; beyond the last one they are all zero.
  function Digit(ds: Digits, i: nat): Word {
    if i < |ds| then ds[i] else 0
  }

  // The number made of the lowest n digits.
  function Low(ds: Digits, n: nat): nat {
    if n == 0 then 0 else Low(ds, n - 1) + Digit(ds, n - 1) * Pow(n - 1)
  }

  function ValueOf(ds: Digits): nat {
    Low(ds, |ds|)
  }

  predicate Normal(ds: Digits) {
    ds != [] ==> ds[|ds| - 1] != 0
  }

  // What d is worth at place i.
  function Place(d: int, i: nat): int {
    d * Pow(i)
  }

  lemma PlaceOfZero(i: nat)
    ensures Place(0, i) == 0
  {
  }

  lemma {:induction false} PowAdds(i: nat, j: nat)
    ensures Pow(i + j) == Pow(i) * Pow(j)
  {
    if j > 0 {
      PowAdds(i, j - 1);
      assert Pow(i + j) == B * Pow(i + j - 1);
      Associate(B, Pow(i), Pow(j - 1));
      Associate(Pow(i), B, Pow(j - 1));
    }
  }

  // ----- values -----

  lemma LowOfNone(ds: Digits)
    ensures Low(ds, 0) == 0
  {
  }

  lemma LowNext(ds: Digits, i: nat)
    ensures Low(ds, i + 1) == Low(ds, i) + Digit(ds, i) * Pow(i)
  {
  }

  lemma {:induction false} LowBound(ds: Digits, n: nat)
    ensures Low(ds, n) < Pow(n)
  {
    if n > 0 {
      LowBound(ds, n - 1);
      Monotone(Digit(ds, n - 1), B - 1, Pow(n - 1));
    }
  }

  lemma {:induction false} LowBeyond(ds: Digits, n: nat)
    requires n >= |ds|
    ensures Low(ds, n) == ValueOf(ds)
  {
    if n > |ds| {
      LowBeyond(ds, n - 1);
    }
  }

  lemma {:induction false} LowAgrees(a: Digits, b: Digits, n: nat)
    requires forall i: nat | i < n :: Digit(a, i) == Digit(b, i)
    ensures Low(a, n) == Low(b, n)
  {
    if n > 0 {
      LowAgrees(a, b, n - 1);
    }
  }

  // Changing one digit changes the number by its difference, at its place.
  lemma {:induction false} LowChanges(a: Digits, b: Digits, k: nat, n: nat)
    requires k < n && forall i: nat | i < n && i != k :: Digit(a, i) == Digit(b, i)
    ensures Low(b, n) == Low(a, n) + (Digit(b, k) - Digit(a, k)) * Pow(k)
  {
    if k == n - 1 {
      LowAgrees(a, b, k);
      Distribute(Digit(b, k), Digit(a, k), Pow(k));
    } else {
      LowChanges(a, b, k, n - 1);
    }
  }

  lemma ValueAgrees(a: Digits, b: Digits)
    requires forall i: nat :: Digit(a, i) == Digit(b, i)
    ensures ValueOf(a) == ValueOf(b)
  {
    var n := |a| + |b|;
    LowAgrees(a, b, n);
    LowBeyond(a, n);
    LowBeyond(b, n);
  }

  lemma ValueChanges(a: Digits, b: Digits, k: nat)
    requires forall i: nat | i != k :: Digit(a, i) == Digit(b, i)
    ensures ValueOf(b) == ValueOf(a) + Place(Digit(b, k) - Digit(a, k), k)
  {
    var n := |a| + |b| + k + 1;
    LowChanges(a, b, k, n);
    LowBeyond(a, n);
    LowBeyond(b, n);
  }

  lemma Shuffle(l: int, d: int, p: int, y: int, s: int)
    ensures (l + d * p) * y * s == l * y * s + d * y * (s * p)
  {
    Distribute(l, d * p, y);
    Distribute(l * y, d * p * y, s);
    Associate(d * y, p, s);
    assert d * p * y == d * y * p;
  }

  // Multiplying by y and shifting, one digit more.
  lemma LowTimes(ds: Digits, n: nat, y: nat, shift: nat)
    ensures Place(Low(ds, n + 1) * y, shift) == Place(Low(ds, n) * y, shift) + Place(Digit(ds, n) * y, shift + n)
  {
    PowAdds(shift, n);
    Shuffle(Low(ds, n), Digit(ds, n), Pow(n), y, Pow(shift));
  }

  lemma LowShifted(ds: Digits, n: nat, shift: nat)
    ensures Place(Low(ds, n + 1), shift) == Place(Low(ds, n), shift) + Place(Digit(ds, n), shift + n)
  {
    hide Low, Place;
    LowTimes(ds, n, 1, shift);
  }

  // Cutting a number in two.
  lemma {:induction false} CutLow(a: Digits, high: Digits, k: nat, n: nat)
    requires forall i: nat :: Digit(high, i) == Digit(a, k + i)
    ensures Low(a, k + n) == Low(a, k) + Place(Low(high, n), k)
  {
    if n == 0 {
      PlaceOfZero(k);
    } else {
      CutLow(a, high, k, n - 1);
      LowShifted(high, n - 1, k);
    }
  }

  lemma CutValue(a: Digits, low: Digits, high: Digits, k: nat)
    requires forall i: nat :: Digit(low, i) == if i < k then Digit(a, i) else 0
    requires forall i: nat :: Digit(high, i) == Digit(a, k + i)
    ensures ValueOf(a) == ValueOf(low) + Place(ValueOf(high), k)
    ensures ValueOf(low) == Low(a, k) < Pow(k)
  {
    hide Low, Place, Pow, ValueOf, Digit;
    var n := |a| + |low| + |high|;
    CutLow(a, high, k, n);
    LowBeyond(a, k + n);
    LowBeyond(high, n);
    LowAgrees(low, a, k);
    LowStops(low, k, k + n);
    LowBeyond(low, k + n);
    LowBound(a, k);
  }

  lemma {:induction false} LowStops(ds: Digits, n: nat, m: nat)
    requires n <= m && forall i: nat | n <= i < m :: Digit(ds, i) == 0
    ensures Low(ds, m) == Low(ds, n)
  {
    if n < m {
      LowStops(ds, n, m - 1);
    }
  }

  // ----- normal forms -----

  // A small number has few digits.
  lemma CountBound(ds: Digits, n: nat)
    requires Normal(ds) && ValueOf(ds) < Pow(n)
    ensures |ds| <= n
  {
    if |ds| > n {
      NormalBound(ds);
      PowGrows(n, |ds| - 1);
    }
  }

  lemma NormalBound(ds: Digits)
    requires Normal(ds) && ds != []
    ensures Pow(|ds| - 1) <= ValueOf(ds) < Pow(|ds|)
  {
    LowBound(ds, |ds|);
    Monotone(1, ds[|ds| - 1], Pow(|ds| - 1));
  }

  lemma {:induction false} PowGrows(i: nat, j: nat)
    requires i <= j
    ensures Pow(i) <= Pow(j)
  {
    if i < j {
      PowGrows(i, j - 1);
    }
  }

  // More digits make a greater number.
  lemma LongerIsGreater(a: Digits, b: Digits)
    requires Normal(a) && Normal(b) && |a| < |b|
    ensures ValueOf(a) < ValueOf(b)
  {
    LowBound(a, |a|);
    PowGrows(|a|, |b| - 1);
    NormalBound(b);
  }

  // Between two numbers, the topmost digit that differs decides.
  lemma {:induction false} TopDecides(a: Digits, b: Digits, k: nat, n: nat)
    requires k < n && Digit(a, k) < Digit(b, k)
    requires forall i: nat | k < i < n :: Digit(a, i) == Digit(b, i)
    ensures Low(a, n) < Low(b, n)
  {
    if k == n - 1 {
      LowBound(a, k);
      Monotone(Digit(a, k) + 1, Digit(b, k), Pow(k));
      Distribute(Digit(a, k), 1, Pow(k));
    } else {
      TopDecides(a, b, k, n - 1);
    }
  }

  // A number has only one normal form.
  lemma NormalIsUnique(a: Digits, b: Digits)
    requires Normal(a) && Normal(b) && ValueOf(a) == ValueOf(b)
    ensures a == b
  {
    if |a| < |b| {
      LongerIsGreater(a, b);
    } else if |b| < |a| {
      LongerIsGreater(b, a);
    } else {
      SameLength(a, b, |a|);
    }
  }

  lemma {:induction false} SameLength(a: Digits, b: Digits, n: nat)
    requires |a| == |b| && n <= |a| && a[n..] == b[n..] && ValueOf(a) == ValueOf(b)
    ensures a == b
  {
    if n > 0 {
      forall i: nat | n - 1 < i < |a| ensures Digit(a, i) == Digit(b, i) {
        assert a[i] == a[n..][i - n];
        assert b[i] == b[n..][i - n];
      }
      if Digit(a, n - 1) < Digit(b, n - 1) {
        TopDecides(a, b, n - 1, |a|);
      } else if Digit(b, n - 1) < Digit(a, n - 1) {
        TopDecides(b, a, n - 1, |a|);
      }
      assert a[n - 1..] == [a[n - 1]] + a[n..];
      assert b[n - 1..] == [b[n - 1]] + b[n..];
      SameLength(a, b, n - 1);
    }
  }
}
