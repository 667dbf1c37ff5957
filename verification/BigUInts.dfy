/** The big integer object and its three forms of storage: two inline words, a slice of somebody's
    word array, or a word array of its own. */
module BigUInts {
  import opened Naturals
  import opened BigDigits

  datatype Kind =
    | Inline(w0: Word, w1: Word)
    | Slice(from: nat, to: nat)
    | Array

  class BigUInt {
    var kind: Kind
    var storage: Digits

    // The fields make sense, though there may be leading zeros.
    ghost predicate WellFormed()
      reads this
    {
      && (kind.Inline? ==> storage == [])
      && (kind.Slice? ==> kind.from <= kind.to <= |storage|)
    }

    // No leading zeros, and no slice where two inline words or the whole array would do.
    ghost predicate Valid()
      reads this
    {
      && WellFormed()
      && (kind.Slice? ==> kind.to - kind.from > 2 && kind.to - kind.from < |storage| && storage[kind.to - 1] != 0)
      && (kind.Array? ==> Normal(storage))
    }

    ghost function Words(): (ds: Digits)
      reads this
    {
      match kind
      case Inline(w0, w1) => if w1 != 0 then [w0, w1] else if w0 != 0 then [w0] else []
      case Slice(from, to) => if from <= to <= |storage| then storage[from..to] else []
      case Array => storage
    }

    ghost function Value(): nat
      reads this
    {
      ValueOf(Words())
    }

    ghost function At(i: nat): Word
      reads this
    {
      Digit(Words(), i)
    }

    lemma WordsAreNormal()
      requires Valid()
      ensures Normal(Words())
    {
    }

    // 0
    constructor ()
      ensures Valid() && Words() == []
    {
      kind, storage := Inline(0, 0), [];
    }

    constructor FromPair(low: Word, high: Word)
      ensures Valid() && Digit(Words(), 0) == low && Digit(Words(), 1) == high && (forall i: nat | i > 1 :: Digit(Words(), i) == 0)
    {
      kind, storage := Inline(low, high), [];
    }

    constructor FromWords(words: Digits)
      ensures Valid() && (forall i: nat :: Digit(Words(), i) == Digit(words, i))
    {
      kind, storage := Array, words;
      new;
      Normalize();
    }

    constructor FromSlice(words: Digits, from: nat, to: nat)
      requires from <= to <= |words|
      ensures Valid() && (forall i: nat :: Digit(Words(), i) == Digit(words[from..to], i))
    {
      kind, storage := Slice(from, to), words;
      new;
      Normalize();
    }

    method IsZero() returns (zero: bool)
      requires Valid()
      ensures zero <==> Value() == 0
    {
      WordsAreNormal();
      ZeroHasNoDigits(Words());
      zero := kind == Inline(0, 0) || (kind.Array? && storage == []);
    }

    method EnsureArray()
      requires WellFormed()
      modifies this
      ensures WellFormed() && kind.Array? && storage == old(Words())
    {
      match kind
      case Inline(w0, w1) =>
        storage := if w1 != 0 then [w0, w1] else if w0 != 0 then [w0] else [];
        kind := Array;
      case Slice(from, to) =>
        storage := storage[from..to];
        kind := Array;
      case Array =>
    }

    // The capacity itself is the array's business.
    method ReserveCapacity()
      requires WellFormed()
      modifies this
      ensures WellFormed() && kind.Array? && storage == old(Words())
    {
      match kind
      case Inline(w0, w1) =>
        kind := Array;
        if w1 != 0 {
          storage := storage + [w0];
          storage := storage + [w1];
        } else if w0 != 0 {
          storage := storage + [w0];
        }
      case Slice(from, to) =>
        kind := Array;
        storage := storage[from..to];
      case Array =>
    }

    // Gets rid of leading zeros, and of slices where possible.
    method Normalize()
      requires WellFormed()
      modifies this
      ensures Valid() && forall i: nat :: Digit(Words(), i) == old(Digit(Words(), i))
    {
      match kind
      case Inline(_, _) =>
      case Slice(from, to0) =>
        var to := to0;
        while from < to && storage[to - 1] == 0
          invariant from <= to <= to0 && storage == old(storage)
          invariant forall i: nat :: Digit(storage[from..to], i) == Digit(old(Words()), i)
        {
          DropZero(storage, from, to);
          to := to - 1;
        }
        ghost var words := storage[from..to];
        FewWords(storage, from, to);
        if to - from == 0 {
          kind, storage := Inline(0, 0), [];
        } else if to - from == 1 {
          kind, storage := Inline(storage[from], 0), [];
        } else if to - from == 2 {
          kind, storage := Inline(storage[from], storage[from + 1]), [];
        } else if to - from == |storage| {
          kind := Array;
        } else {
          kind := Slice(from, to);
        }
        assert Words() == words;
      case Array =>
        while storage != [] && storage[|storage| - 1] == 0
          invariant kind.Array? && |storage| <= |old(storage)|
          invariant forall i: nat :: Digit(storage, i) == Digit(old(storage), i)
          decreases |storage|
        {
          DropZero(storage, 0, |storage|);
          storage := storage[..|storage| - 1];
        }
    }

    // self = value, keeping an array an array
    method Load(value: BigUInt)
      requires Valid() && value.Valid() && value != this
      modifies this
      ensures Valid() && Words() == value.Words()
    {
      if kind.Array? {
        storage := [];
        var n := value.Count();
        var i := 0;
        while i < n
          invariant i <= n && kind.Array? && storage == value.Words()[..i]
        {
          var w := value.Get(i);
          storage := storage + [w];
          i := i + 1;
        }
        assert storage == value.Words();
        value.WordsAreNormal();
      } else {
        Assign(value);
      }
    }

    method Assign(value: BigUInt)
      requires value.Valid()
      modifies this
      ensures kind == old(value.kind) && storage == old(value.storage)
      ensures Valid() && Words() == old(value.Words())
    {
      kind, storage := value.kind, value.storage;
    }

    method Clear()
      requires Valid()
      modifies this
      ensures Valid() && Words() == []
    {
      if kind.Array? {
        storage := [];
      } else {
        kind, storage := Inline(0, 0), [];
      }
    }

    method Copy() returns (r: BigUInt)
      requires Valid()
      ensures fresh(r) && r.Valid() && r.Words() == Words()
    {
      r := new BigUInt();
      r.Assign(this);
    }

    method Count() returns (n: nat)
      requires Valid()
      ensures n == |Words()|
    {
      match kind
      case Inline(w0, w1) => return if w1 != 0 then 2 else if w0 != 0 then 1 else 0;
      case Slice(from, to) => return to - from;
      case Array => return |storage|;
    }

    method Get(index: nat) returns (w: Word)
      requires Valid()
      ensures w == At(index)
    {
      match kind
      case Inline(w0, w1) => return if index == 0 then w0 else if index == 1 then w1 else 0;
      case Slice(from, to) => return if index < to - from then storage[from + index] else 0;
      case Array => return if index < |storage| then storage[index] else 0;
    }

    // The number changes by the difference of the digits, at their place.
    method Set(index: nat, word: Word)
      requires Valid()
      modifies this
      ensures Valid()
      ensures forall i: nat :: Digit(Words(), i) == if i == index then word else old(Digit(Words(), i))
      ensures Value() == old(Value()) + Place(word - old(At(index)), index)
    {
      hide Place, Pow;
      ghost var before := Words();
      match kind {
        case Inline(w0, w1) =>
          if index == 0 {
            kind := Inline(word, w1);
          } else if index == 1 {
            kind := Inline(w0, word);
          } else {
            Extend(index, word);
          }
        case Slice(from, to) =>
          if index < to - from {
            Replace(index, word);
          } else {
            Extend(index, word);
          }
        case Array =>
          if index < |storage| {
            Replace(index, word);
          } else {
            Extend(index, word);
          }
      }
      assert At(index) == word;
      ValueChanges(before, Words(), index);
    }

    method Replace(index: nat, word: Word)
      requires Valid() && !kind.Inline? && index < |Words()|
      modifies this
      ensures Valid() && forall i: nat :: Digit(Words(), i) == if i == index then word else old(Digit(Words(), i))
    {
      EnsureArray();
      storage := storage[index := word];
      if word == 0 && index == |storage| - 1 {
        Normalize();
      }
    }

    method Extend(index: nat, word: Word)
      requires Valid() && (if kind.Inline? then index > 1 else index >= |Words()|)
      modifies this
      ensures Valid() && forall i: nat :: Digit(Words(), i) == if i == index then word else old(Digit(Words(), i))
    {
      if word == 0 {
        return;
      }
      ReserveCapacity();
      storage := storage + Repeat(0, index - |storage|);
      storage := storage + [word];
    }

    // The digits lo .. hi; out of range is empty.
    method Extract(lo: nat, hi: nat) returns (r: BigUInt)
      requires Valid() && lo <= hi
      ensures fresh(r) && r.Valid() && forall i: nat :: Digit(r.Words(), i) == if i < hi - lo then Digit(Words(), lo + i) else 0
    {
      if kind.Inline? {
        var l, h := Min(lo, 2), Min(hi, 2);
        if l == 0 && h == 2 {
          r := new BigUInt.FromPair(kind.w0, kind.w1);
        } else if l == 0 && h == 1 {
          r := new BigUInt.FromPair(kind.w0, 0);
        } else if l == 1 && h == 2 {
          r := new BigUInt.FromPair(kind.w1, 0);
        } else {
          r := new BigUInt();
        }
      } else if kind.Slice? {
        var s := Min(kind.to, kind.from + lo);
        var end := if hi > kind.to - kind.from then kind.to else kind.from + hi;
        var e := if s < end then end else s;
        PartOfSlice(storage, kind.from, kind.to, lo, hi, s, e);
        r := new BigUInt.FromSlice(storage, s, e);
      } else {
        var s, e := Min(lo, |storage|), Min(hi, |storage|);
        PartOfSlice(storage, 0, |storage|, lo, hi, s, e);
        assert storage[0..|storage|] == storage;
        r := new BigUInt.FromSlice(storage, s, e);
      }
    }

    // Drops the lowest words.  A slice must not be dropped whole: its storage would stay behind.
    method ShiftRightWords(amount: nat)
      requires Valid() && (kind.Slice? ==> amount < |Words()|)
      modifies this
      ensures Valid() && forall i: nat :: Digit(Words(), i) == old(Digit(Words(), i + amount))
    {
      if amount == 0 {
        return;
      }
      match kind
      case Inline(_, w1) =>
        kind := if amount == 1 then Inline(w1, 0) else Inline(0, 0);
      case Slice(from, to) =>
        kind := Slice(from + amount, to);
        Normalize();
      case Array =>
        storage := if amount >= |storage| then [] else storage[amount..];
    }

    method ShiftLeftWords(amount: nat)
      requires Valid()
      modifies this
      ensures Valid() && forall i: nat :: Digit(Words(), i) == if i < amount then 0 else old(Digit(Words(), i - amount))
    {
      hide Digit;
      if amount == 0 {
        return;
      }
      var zero := IsZero();
      if zero {
        WordsAreNormal();
        ZeroHasNoDigits(Words());
        NoDigits();
        return;
      }
      LowZeros(Words(), amount);
      match kind {
        case Inline(w0, w1) =>
          if w1 == 0 && amount == 1 {
            kind := Inline(0, w0);
          } else {
            storage := storage + Repeat(0, amount);
            storage := storage + [w0];
            if w1 != 0 {
              storage := storage + [w1];
            }
            kind := Array;
          }
        case Slice(from, to) =>
          storage := Repeat(0, amount) + storage[from..to];
          kind := Array;
        case Array =>
          storage := Repeat(0, amount) + storage;
      }
      assert Words() == Repeat(0, amount) + old(Words());
    }
  }

  lemma NoDigits()
    ensures forall i: nat :: Digit([], i) == 0
  {
  }

  lemma LowZeros(ds: Digits, amount: nat)
    ensures forall i: nat :: Digit(Repeat(0, amount) + ds, i) == if i < amount then 0 else Digit(ds, i - amount)
  {
  }

  function Repeat(w: Word, n: nat): (r: Digits)
    ensures |r| == n && forall i | 0 <= i < n :: r[i] == w
  {
    seq(n, _ => w)
  }

  lemma DropZero(words: Digits, from: nat, to: nat)
    requires from < to <= |words| && words[to - 1] == 0
    ensures forall i: nat :: Digit(words[from..to - 1], i) == Digit(words[from..to], i)
  {
  }

  lemma FewWords(words: Digits, from: nat, to: nat)
    requires from <= to <= |words|
    ensures to - from == 1 ==> words[from..to] == [words[from]]
    ensures to - from == 2 ==> words[from..to] == [words[from], words[from + 1]]
    ensures to - from == |words| ==> words[from..to] == words
  {
  }

  // The part lo .. hi of the slice from .. to, cut off where the slice ends.
  lemma PartOfSlice(words: Digits, from: nat, to: nat, lo: nat, hi: nat, s: nat, e: nat)
    requires from <= s <= e <= to <= |words| && lo <= hi
    requires s == Min(to, from + lo) && (e == s || e == Min(to, from + hi)) && e >= Min(to, from + hi)
    ensures forall i: nat :: Digit(words[s..e], i) == if i < hi - lo then Digit(words[from..to], lo + i) else 0
  {
  }

  lemma ZeroHasNoDigits(ds: Digits)
    requires Normal(ds)
    ensures ValueOf(ds) == 0 <==> ds == []
  {
    if ds != [] {
      NormalBound(ds);
    }
  }
}
