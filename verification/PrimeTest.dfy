/** The Miller-Rabin test: it may take a composite number for a prime, but never rejects a prime. */
module PrimeTest {
  import opened Naturals
  import opened BigDigits
  import opened BigUInts
  import opened BigArithmetic
  import opened BigMultiplication
  import opened BigShifts
  import opened BigDivision
  import opened NumberTheory
  import opened BigExponentiation

  // ----- the even part of a number -----

  function TrailingZeroBits(v: nat): nat {
    if v == 0 || v % 2 == 1 then 0 else 1 + TrailingZeroBits(v / 2)
  }

  lemma {:induction false} TrailingZerosAre(v: nat, odd: nat, r: nat)
    requires v == odd * Two(r) && odd % 2 == 1
    ensures TrailingZeroBits(v) == r && v > 0
  {
    if r == 0 {
      assert v == odd;
    } else {
      Associate(odd, 2, Two(r - 1));
      assert v == 2 * (odd * Two(r - 1));
      TrailingZerosAre(odd * Two(r - 1), odd, r - 1);
    }
  }

  lemma {:induction false} OddPart(v: nat) returns (odd: nat)
    requires v > 0
    ensures odd % 2 == 1 && v == odd * Two(TrailingZeroBits(v)) && odd == Quotient(v, Two(TrailingZeroBits(v)))
  {
    if v % 2 == 1 {
      odd := v;
    } else {
      hide Two;
      odd := OddPart(v / 2);
      DoubledPart(v / 2, odd, TrailingZeroBits(v / 2));
    }
    QuotientIs(v, Two(TrailingZeroBits(v)), odd, 0);
  }

  lemma DoubledPart(v: nat, odd: nat, r: nat)
    requires v == odd * Two(r)
    ensures 2 * v == odd * Two(r + 1)
  {
    TwoAdds(r, 1);
    TwoOfOne();
    Associate(odd, Two(r), 2);
  }

  // The lowest word that is not zero decides.
  lemma LowestWord(ds: Digits, i: nat)
    requires Digit(ds, i) != 0 && Low(ds, i) == 0
    ensures TrailingZeroBits(ValueOf(ds)) == 64 * i + TrailingZeroBits(Digit(ds, i)) && ValueOf(ds) > 0
  {
    hide Low, Two, Pow, Quotient;
    var w := Digit(ds, i);
    var t := TrailingZeroBits(w);
    var odd := OddPart(w);
    ShortZeros(w, odd, t);
    var high := HighWords(ds, i + 1);
    LowNext(ds, i);
    TwoAdds(t, 64 - t);
    TwoAdds(t, 64 * i);
    TwoOfWords(i);
    WordWidth();
    var even := Two(64 - t);
    EvenPower(64 - t);
    var all := odd + high * even;
    Distribute(odd, high * even, Two(t));
    SwapFactors(high, even, Two(t));
    Associate(high, Two(t), even);
    assert all * Two(t) == w + high * B;
    Distribute(w, high * B, Pow(i));
    Associate(high, B, Pow(i));
    PowStep(i);
    Associate(all, Two(t), Pow(i));
    OddSum(odd, high, even);
    TrailingZerosAre(ValueOf(ds), all, 64 * i + t);
  }

  lemma PowStep(i: nat)
    ensures Pow(i + 1) == B * Pow(i)
  {
  }

  lemma HighWords(ds: Digits, i: nat) returns (high: nat)
    ensures ValueOf(ds) == Low(ds, i) + high * Pow(i)
  {
    hide Low;
    var hs := if i <= |ds| then ds[i..] else [];
    var ls := if i <= |ds| then ds[..i] else ds;
    CutValue(ds, ls, hs, i);
    high := ValueOf(hs);
  }

  lemma ShortZeros(w: Word, odd: nat, t: nat)
    requires w == odd * Two(t) && odd % 2 == 1
    ensures t < 64
  {
    hide Two;
    WordWidth();
    if t >= 64 {
      TwoMonotone(64, t);
      Monotone(1, odd, Two(t));
    }
  }

  lemma EvenPower(n: nat)
    requires n > 0
    ensures Two(n) % 2 == 0
  {
    assert Two(n) == 2 * Two(n - 1);
    TwiceIsEven(Two(n - 1));
  }

  lemma TwiceIsEven(m: nat)
    ensures 2 * m % 2 == 0
  {
  }

  lemma OddSum(odd: nat, high: nat, even: nat)
    requires odd % 2 == 1 && even % 2 == 0
    ensures (odd + high * even) % 2 == 1
  {
    assert even == 2 * (even / 2);
    assert high * even == 2 * (high * (even / 2)) by {
      Associate(high, 2, even / 2);
    }
  }

  method TrailingZeroBitCount(a: BigUInt) returns (n: nat)
    requires a.Valid()
    ensures n == TrailingZeroBits(a.Value())
  {
    hide Low, Pow, BigUInt.Valid, BigUInt.Words, Normal;
    ghost var ds := a.Words();
    var count := a.Count();
    LowOfNone(ds);
    a.WordsAreNormal();
    if count == 0 {
      return 0;
    }
    TopIsNotZero(ds);
    var i := 0;
    var w := a.Get(0);
    while w == 0
      invariant i < count && w == Digit(ds, i) && Low(ds, i) == 0
      decreases count - i
    {
      LowNext(ds, i);
      i := i + 1;
      w := a.Get(i);
    }
    LowestWord(ds, i);
    return i * 64 + TrailingZeroBits(w);
  }

  lemma TopIsNotZero(ds: Digits)
    requires Normal(ds) && ds != []
    ensures Digit(ds, |ds| - 1) != 0
  {
  }

  // ----- the strong probable prime test -----

  // The i-th square of the base's power to the odd part of n - 1.
  ghost function Square(n: nat, base: nat, i: nat): nat
    requires n > 0
  {
    Remainder(Power(base, OddFactor(n) * Two(i)), n)
  }

  ghost function OddFactor(n: nat): nat
    requires n > 0
  {
    Quotient(n - 1, Two(TrailingZeroBits(n - 1)))
  }

  ghost function Squarings(n: nat): nat
    requires n > 0
  {
    TrailingZeroBits(n - 1)
  }

  ghost predicate StrongProbablePrime(n: nat, base: nat)
    requires n > 0
  {
    Square(n, base, 0) == 1 || exists i: nat :: i < Max(Squarings(n), 1) && Square(n, base, i) == n - 1
  }

  lemma NextSquare(n: nat, base: nat, i: nat)
    requires n > 0
    ensures Square(n, base, i + 1) == Remainder(Square(n, base, i) * Square(n, base, i), n)
  {
    hide Remainder, Quotient, Power, Two, TrailingZeroBits;
    var d, x := OddFactor(n), Power(base, OddFactor(n) * Two(i));
    assert Two(i + 1) == 2 * Two(i) by { TwoNext(i); }
    assert d * (2 * Two(i)) == d * Two(i) + d * Two(i);
    PowerAdds(base, d * Two(i), d * Two(i));
    RemainderTimesBoth(x, x, n);
  }

  lemma TwoNext(i: nat)
    ensures Two(i + 1) == 2 * Two(i)
  {
  }

  lemma FirstSquare(n: nat, base: nat)
    requires n > 0
    ensures Square(n, base, 0) == Remainder(Power(base, OddFactor(n)), n)
  {
    assert Two(0) == 1;
  }

  lemma SquareIsSmall(n: nat, base: nat, i: nat)
    requires n > 0
    ensures Square(n, base, i) < n
  {
    RemainderBound(Power(base, OddFactor(n) * Two(i)), n);
  }

  // Once 1, always 1.
  lemma {:induction false} OnesForever(n: nat, base: nat, i: nat, j: nat)
    requires n > 1 && Square(n, base, i) == 1 && i <= j
    ensures Square(n, base, j) == 1
  {
    hide Square;
    if i < j {
      OnesForever(n, base, i, j - 1);
      NextSquare(n, base, j - 1);
      RemainderOfSmall(1, n);
    }
  }

  // A 1 that is not the first shows that no square is n - 1.
  lemma OneRefutes(n: nat, base: nat, i: nat)
    requires n > 2 && Square(n, base, i) == 1 && Square(n, base, 0) != 1
    requires forall j: nat | j < i :: Square(n, base, j) != n - 1
    ensures !StrongProbablePrime(n, base)
  {
    hide Square;
    forall j: nat | j >= i ensures Square(n, base, j) == 1 {
      OnesForever(n, base, i, j);
    }
  }

  // ----- primes pass -----

  lemma {:induction false} PrimePassesFrom(n: nat, base: nat, i: nat)
    requires IsPrime(n) && i <= Squarings(n) && Square(n, base, i) == 1
    ensures StrongProbablePrime(n, base)
  {
    hide Square, IsPrime;
    PrimeIsLarge(n);
    if i > 0 {
      NextSquare(n, base, i - 1);
      SquareIsSmall(n, base, i - 1);
      RootsOfOne(n, Square(n, base, i - 1));
      if Square(n, base, i - 1) == 1 {
        PrimePassesFrom(n, base, i - 1);
      }
    }
  }

  // Every prime passes the test for every base that is not a multiple of it.
  lemma PrimePasses(n: nat, base: nat)
    requires IsPrime(n) && !Divides(n, base)
    ensures StrongProbablePrime(n, base)
  {
    hide Divides, IsPrime, Power, Two, Remainder, StrongProbablePrime;
    PrimeIsLarge(n);
    var r := Squarings(n);
    var odd := OddPart(n - 1);
    Fermat(n, base);
    PrimePassesFrom(n, base, r);
  }

  // ----- the tests themselves -----

  method Equal(a: BigUInt, b: BigUInt) returns (same: bool)
    requires a.Valid() && b.Valid()
    ensures same <==> a.Value() == b.Value()
  {
    var c := Compare(a, b);
    same := c == 0;
  }

  // The exponent's odd part, and the base's power to it.
  method StartTest(n: BigUInt, base: BigUInt, dec: BigUInt, limit: int) returns (test: BigUInt, r: nat)
    requires n.Valid() && base.Valid() && dec.Valid() && n.Value() > 0 && dec.Value() == n.Value() - 1
    ensures fresh(test) && test.Valid() && r == Squarings(n.Value())
    ensures test.Value() == Square(n.Value(), base.Value(), 0)
  {
    hide BigUInt.Valid, BigUInt.Words, ValueOf, Remainder, Quotient, Power, Two, TrailingZeroBits;
    r := TrailingZeroBitCount(dec);
    var d := dec.Copy();
    ShiftRight(d, r);
    test := PowerModulo(base, d, n, limit);
    FirstSquare(n.Value(), base.Value());
  }

  method IsStrongProbablePrime(n: BigUInt, base: BigUInt, limit: int) returns (passes: bool)
    requires n.Valid() && base.Valid() && base.Value() > 1 && n.Value() > 0
    ensures passes <==> StrongProbablePrime(n.Value(), base.Value())
  {
    hide BigUInt.Valid, BigUInt.Words, ValueOf, Remainder, Quotient, Square, Place;
    var one := FromWord(1);
    var dec := n.Copy();
    PlaceAtZero(1);
    Subtract(dec, one, 0);
    var test, r := StartTest(n, base, dec, limit);
    var isOne := Equal(test, one);
    var isDec := Equal(test, dec);
    if isOne || isDec {
      return true;
    }
    if r > 0 {
      passes := SquareAndTest(n, base, one, dec, test, r, limit);
    } else {
      passes := false;
    }
  }

  method SquareAndTest(n: BigUInt, base: BigUInt, one: BigUInt, dec: BigUInt, test: BigUInt, r: nat, limit: int)
    returns (passes: bool)
    requires n.Valid() && base.Valid() && one.Valid() && dec.Valid() && test.Valid()
    requires test != n && test != base && test != one && test != dec
    requires one.Value() == 1 && n.Value() > 0 && dec.Value() == n.Value() - 1
    requires r > 0 && r == Squarings(n.Value()) && test.Value() == Square(n.Value(), base.Value(), 0)
    requires test.Value() != 1 && test.Value() != n.Value() - 1
    modifies test
    ensures passes <==> StrongProbablePrime(n.Value(), base.Value())
  {
    hide BigUInt.Valid, BigUInt.Words, ValueOf, Remainder, Quotient, Square, Normalized;
    ghost var m, b := n.Value(), base.Value();
    var normalized, shift := Normalize(n);
    var i := 1;
    while i < r
      invariant 1 <= i <= r && n.Valid() && one.Valid() && dec.Valid() && test.Valid() && normalized.Valid()
      invariant fresh(normalized) && Normalized(normalized, shift, m) && one.Value() == 1 && dec.Value() == m - 1
      invariant test.Value() == Square(m, b, i - 1) && Square(m, b, 0) != 1
      invariant forall j: nat | j < i :: Square(m, b, j) != m - 1
    {
      NextSquare(m, b, i - 1);
      MultiplyModulo(test, test, normalized, shift, m, limit);
      var isOne := Equal(test, one);
      if isOne {
        ManySquarings(m);
        OneRefutes(m, b, i);
        return false;
      }
      var isDec := Equal(test, dec);
      if isDec {
        return true;
      }
      i := i + 1;
    }
    return false;
  }

  lemma ManySquarings(n: nat)
    requires n > 0
    ensures Squarings(n) > 1 ==> n > 2
  {
    if n == 2 {
      assert TrailingZeroBits(1) == 0;
    } else if n == 1 {
      assert TrailingZeroBits(0) == 0;
    }
  }

  function Primes(): (ps: seq<Word>)
    ensures |ps| == 13 && forall i | 0 <= i < 13 :: 1 < ps[i] <= 41
  {
    [2, 3, 5, 7, 11, 13, 17, 19, 23, 29, 31, 37, 41]
  }

  // The smallest composite numbers that pass the test for all the primes up to here.
  function PseudoPrimes(): (ps: seq<nat>)
    ensures |ps| == 13 && forall i | 0 <= i < 13 :: ps[i] < B * B
  {
    [2047, 1373653, 25326001, 3215031751, 2152302898747, 3474749660383, 341550071728321, 341550071728321,
     3825123056546413051, 3825123056546413051, 3825123056546413051,
     318665857834031151167461, 3317044064679887385961981]
  }

  method FromConstant(v: nat) returns (r: BigUInt)
    requires v < B * B
    ensures fresh(r) && r.Valid() && r.Value() == v
  {
    r := new BigUInt.FromPair(v % B, v / B);
    TwoWords(r.Words(), v % B, v / B);
  }

  lemma TwoWords(ds: Digits, low: Word, high: Word)
    requires Digit(ds, 0) == low && Digit(ds, 1) == high && forall i: nat | i > 1 :: Digit(ds, i) == 0
    ensures ValueOf(ds) == low + high * B
  {
    ValueAgrees(ds, [low, high]);
    TopTwo([low, high], 0);
    LowOfNone([low, high]);
    assert Pow(0) == 1;
  }

  // A number and its lowest word.
  lemma LowestDigit(ds: Digits)
    ensures ValueOf(ds) % 2 == Digit(ds, 0) % 2
    ensures |ds| <= 1 ==> ValueOf(ds) == Digit(ds, 0)
  {
    hide ValueOf;
    LowOfNone(ds);
    if |ds| <= 1 {
      LowBeyond(ds, 1);
      LowNext(ds, 0);
      assert Pow(0) == 1;
    } else {
      var high := HighWords(ds, 1);
      LowNext(ds, 0);
      assert Pow(0) == 1 && Pow(1) == B * Pow(0);
    }
  }

  // A prime of the table divides it, and is not the number itself.
  ghost predicate HasOtherFactor(v: nat) {
    exists i | 0 <= i < |Primes()| :: Divides(Primes()[i], v) && v != Primes()[i]
  }

  lemma OtherFactor(v: nat, i: nat)
    requires i < |Primes()| && Divides(Primes()[i], v) && v != Primes()[i]
    ensures HasOtherFactor(v)
  {
    hide Divides;
  }

  // No prime of the table divides another one.
  lemma TableDivisor(i: nat, j: nat)
    requires i < |Primes()| && j < |Primes()| && Primes()[j] % Primes()[i] == 0
    ensures i == j
  {
  }

  lemma OtherFactorMeans(v: nat)
    requires HasOtherFactor(v)
    ensures v !in Primes() && exists i | 0 <= i < |Primes()| :: Divides(Primes()[i], v)
  {
    var i :| 0 <= i < |Primes()| && Divides(Primes()[i], v) && v != Primes()[i];
    forall j | 0 <= j < |Primes()| ensures Primes()[j] != v {
      if Primes()[j] == v {
        TableDivisor(i, j);
      }
    }
  }

  // Divisibility by the primes of the table.
  method HasSmallFactor(n: BigUInt) returns (found: bool, isPrime: bool)
    requires n.Valid() && n.Value() > 1 && n.Value() % 2 == 1
    ensures found && !isPrime ==> HasOtherFactor(n.Value())
    ensures found && isPrime ==> n.Value() in Primes()
    ensures !found ==> forall i | 0 <= i < |Primes()| :: !Divides(Primes()[i], n.Value()) && n.Value() != Primes()[i]
  {
    hide BigUInt.Valid, BigUInt.Words, ValueOf, IsPrime, HasOtherFactor;
    ghost var v := n.Value();
    for i := 1 to |Primes()|
      invariant n.Valid() && n.Value() == v
      invariant forall j | 0 <= j < i :: !Divides(Primes()[j], v) && v != Primes()[j]
    {
      var p := Primes()[i];
      var count := n.Count();
      var w := n.Get(0);
      LowestDigit(n.Words());
      LargerThanWord(n, count, w);
      if count == 1 && w == p {
        return true, true;
      }
      var q := n.Copy();
      var remainder := DivideByWord(q, p);
      if remainder == 0 {
        OtherFactor(v, i);
        return true, false;
      }
    }
    return false, false;
  }

  lemma LargerThanWord(n: BigUInt, count: nat, w: Word)
    requires n.Valid() && count == |n.Words()| && w == n.At(0)
    ensures count > 1 ==> n.Value() >= B
    ensures count == 0 ==> n.Value() == 0
  {
    n.WordsAreNormal();
    LowOfNone([]);
    if count > 1 {
      NormalBound(n.Words());
      PowGrows(1, count - 1);
      assert Pow(1) == B * Pow(0);
    }
  }

  // How many primes of the table are tried as bases: up to the first one that leaves no exception
  // as small as the number.
  function BasesFrom(v: nat, i: nat): (k: nat)
    requires i < |PseudoPrimes()| && v < PseudoPrimes()[12]
    ensures i < k <= |PseudoPrimes()|
    decreases |PseudoPrimes()| - i
  {
    if i == 12 || v < PseudoPrimes()[i] then i + 1 else BasesFrom(v, i + 1)
  }

  ghost predicate PassesAll(v: nat, bases: seq<nat>, k: nat)
    requires v > 1 && k <= |bases|
  {
    forall i | 0 <= i < k :: StrongProbablePrime(v, bases[i])
  }

  lemma PassesMore(v: nat, bases: seq<nat>, k: nat)
    requires v > 1 && k < |bases|
    ensures PassesAll(v, bases, k + 1) <==> PassesAll(v, bases, k) && StrongProbablePrime(v, bases[k])
  {
    hide StrongProbablePrime;
  }

  // One test for each base that the number is large enough for.
  method TestFixedBases(n: BigUInt, limit: int) returns (passes: bool)
    requires n.Valid() && 41 < n.Value() < PseudoPrimes()[12]
    ensures passes <==> PassesAll(n.Value(), Primes(), BasesFrom(n.Value(), 0))
  {
    hide BigUInt.Valid, BigUInt.Words, ValueOf, IsPrime, Divides, StrongProbablePrime, PassesAll, Primes, PseudoPrimes;
    ghost var v := n.Value();
    ghost var all := BasesFrom(v, 0);
    NothingToPass(v, Primes());
    for i := 0 to |PseudoPrimes()|
      invariant n.Valid() && n.Value() == v
      invariant i < |PseudoPrimes()| ==> all == BasesFrom(v, i)
      invariant i < |PseudoPrimes()| && PassesAll(v, Primes(), i)
    {
      var base := FromWord(Primes()[i]);
      var probable := IsStrongProbablePrime(n, base, limit);
      PassesMore(v, Primes(), i);
      if !probable {
        FailsMore(v, Primes(), i + 1, all);
        return false;
      }
      var bound := FromConstant(PseudoPrimes()[i]);
      var c := Compare(n, bound);
      if c < 0 {
        return true;
      }
    }
    assert false;  // the number is below the last bound
  }

  lemma NothingToPass(v: nat, bases: seq<nat>)
    requires v > 1
    ensures PassesAll(v, bases, 0)
  {
  }

  lemma FailsMore(v: nat, bases: seq<nat>, k: nat, m: nat)
    requires v > 1 && k <= m <= |bases| && !PassesAll(v, bases, k)
    ensures !PassesAll(v, bases, m)
  {
    hide StrongProbablePrime;
  }

  lemma SmallBase(n: nat, base: nat)
    requires 0 < base < n
    ensures IsPrime(n) ==> StrongProbablePrime(n, base)
  {
    hide StrongProbablePrime, IsPrime, Divides;
    if Divides(n, base) {
      DividesBounds(n, base);
    }
    if IsPrime(n) {
      PrimePasses(n, base);
    }
  }

  // `randoms` are the bases that will be drawn, one for each round.
  ghost predicate GoodBases(n: nat, rounds: nat, randoms: seq<BigUInt>)
    reads randoms
  {
    |randoms| >= rounds && forall i | 0 <= i < rounds :: randoms[i].Valid() && 2 <= randoms[i].Value() < n
  }

  ghost function Values(randoms: seq<BigUInt>, rounds: nat): (r: seq<nat>)
    requires rounds <= |randoms|
    reads randoms
  {
    seq(rounds, i requires 0 <= i < rounds reads randoms => randoms[i].Value())
  }

  method TestRandomBases(n: BigUInt, rounds: nat, randoms: seq<BigUInt>, limit: int) returns (passes: bool)
    requires n.Valid() && n.Value() > 41 && GoodBases(n.Value(), rounds, randoms)
    ensures passes <==> PassesAll(n.Value(), Values(randoms, rounds), rounds)
  {
    hide BigUInt.Valid, BigUInt.Words, ValueOf, IsPrime, StrongProbablePrime, PassesAll;
    ghost var bases := Values(randoms, rounds);
    NothingToPass(n.Value(), bases);
    for i := 0 to rounds
      invariant PassesAll(n.Value(), bases, i)
    {
      var probable := IsStrongProbablePrime(n, randoms[i], limit);
      PassesMore(n.Value(), bases, i);
      if !probable {
        FailsMore(n.Value(), bases, i + 1, rounds);
        return false;
      }
    }
    return true;
  }

  // What the test accepts: the primes of the table; and of the other numbers without a factor in the
  // table, those that pass for the fixed bases, or for the drawn ones when they are large.
  ghost predicate Accepted(v: nat, bases: seq<nat>) {
    && v > 1
    && (v in Primes()
        || ((forall i | 0 <= i < |Primes()| :: !Divides(Primes()[i], v))
            && if v < PseudoPrimes()[12] then PassesAll(v, Primes(), BasesFrom(v, 0)) else PassesAll(v, bases, |bases|)))
  }

  // The test never rejects a prime, whatever bases are drawn.
  lemma PrimeIsAccepted(p: nat, bases: seq<nat>)
    requires IsPrime(p) && forall i | 0 <= i < |bases| :: 2 <= bases[i] < p
    ensures Accepted(p, bases)
  {
    hide StrongProbablePrime, IsPrime, Divides;
    PrimesAboveOne(p);
    if p !in Primes() {
      forall i | 0 <= i < |Primes()| ensures !Divides(Primes()[i], p) {
        if Divides(Primes()[i], p) {
          OnlyFactors(p, Primes()[i]);
        }
      }
      NotSmall(p);
      forall i | 0 <= i < |Primes()| ensures StrongProbablePrime(p, Primes()[i]) {
        SmallBase(p, Primes()[i]);
      }
      forall i | 0 <= i < |bases| ensures StrongProbablePrime(p, bases[i]) {
        SmallBase(p, bases[i]);
      }
    }
  }

  lemma OnlyFactors(p: nat, d: nat)
    requires IsPrime(p) && d > 1 && Divides(d, p)
    ensures d == p
  {
    DividesBounds(d, p);
  }

  method IsProbablyPrime(n: BigUInt, rounds: nat, randoms: seq<BigUInt>, limit: int) returns (probable: bool)
    requires n.Valid() && rounds <= |randoms|
    requires n.Value() >= PseudoPrimes()[12] ==> GoodBases(n.Value(), rounds, randoms)
    ensures probable <==> Accepted(n.Value(), Values(randoms, rounds))
  {
    hide BigUInt.Valid, BigUInt.Words, ValueOf, IsPrime, GoodBases, Divides, PassesAll, HasOtherFactor;
    var count := n.Count();
    var w := n.Get(0);
    LowestDigit(n.Words());
    LargerThanWord(n, count, w);
    if count <= 1 && w < 2 {
      return false;
    }
    if count == 1 && w < 4 {
      return true;
    }
    if w % 2 == 0 {
      DividesIs(2, n.Value(), n.Value() / 2);
      assert Primes()[0] == 2;
      return false;
    }
    var found, isPrime := HasSmallFactor(n);
    if found {
      if !isPrime {
        OtherFactorMeans(n.Value());
      }
      return isPrime;
    }
    NotSmall(n.Value());
    var bound := FromConstant(PseudoPrimes()[12]);
    var c := Compare(n, bound);
    if c < 0 {
      probable := TestFixedBases(n, limit);
    } else {
      probable := TestRandomBases(n, rounds, randoms, limit);
    }
  }

  lemma PrimesAboveOne(n: nat)
    ensures IsPrime(n) ==> n > 1
  {
  }

  // Without a factor in the table and not in it, a number is above the table.
  lemma NotSmall(n: nat)
    requires n > 1 && forall i | 0 <= i < |Primes()| :: !Divides(Primes()[i], n)
    ensures n > 41
  {
    forall i | 0 <= i < |Primes()| ensures n % Primes()[i] != 0 {
      assert !Divides(Primes()[i], n);
    }
    assert n % Primes()[0] != 0 && n % Primes()[1] != 0 && n % Primes()[2] != 0 && n % Primes()[3] != 0;
    SieveBy(n);
    assert n % Primes()[4] != 0 && n % Primes()[5] != 0 && n % Primes()[6] != 0 && n % Primes()[7] != 0;
    assert n % Primes()[8] != 0 && n % Primes()[9] != 0 && n % Primes()[10] != 0 && n % Primes()[11] != 0 && n % Primes()[12] != 0;
  }

  lemma SieveBy(n: nat)
    requires n > 1 && n % 2 != 0 && n % 3 != 0 && n % 5 != 0 && n % 7 != 0
    ensures n > 41 || n == 11 || n == 13 || n == 17 || n == 19 || n == 23 || n == 29 || n == 31 || n == 37 || n == 41
  {
  }
}
