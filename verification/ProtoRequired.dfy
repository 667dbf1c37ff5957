/** The bit map of the required fields that have been seen, 32 to a word. */
module ProtoRequired {
  import opened Naturals
  import opened ProtoMessages

  const ALL_BITS: nat := 0xFFFF_FFFF

  predicate BitSet(w: nat, k: nat) {
    Quotient(w, Two(k)) % 2 == 1
  }

  // w | 1 << k
  function WithBit(w: nat, k: nat): nat {
    if BitSet(w, k) then w else w + Two(k)
  }

  // The lowest n bits of the word for the numbers from base on.
  ghost function WordOf(marks: set<nat>, base: nat, n: nat): nat {
    if n == 0 then 0 else WordOf(marks, base, n - 1) + if base + n - 1 in marks then Two(n - 1) else 0
  }

  lemma {:induction false} WordBound(marks: set<nat>, base: nat, n: nat)
    ensures WordOf(marks, base, n) < Two(n)
  {
    if n > 0 {
      WordBound(marks, base, n - 1);
    }
  }

  lemma HalfQuotient(w: nat, d: nat, e: nat)
    requires d > 0
    ensures Quotient(w + 2 * e * d, d) == Quotient(w, d) + 2 * e
  {
    hide Quotient, Remainder;
    DivMod(w, d);
    Distribute(Quotient(w, d), 2 * e, d);
    QuotientIs(w + 2 * e * d, d, Quotient(w, d) + 2 * e, Remainder(w, d));
  }

  lemma TopBit(w: nat, d: nat, bit: nat)
    requires w < d && bit <= 1
    ensures Quotient(w + bit * d, d) == bit
  {
    QuotientIs(w + bit * d, d, bit, w);
  }

  // A higher bit does not change a lower one.
  lemma LowerBit(w: nat, n: nat, k: nat)
    requires k < n
    ensures BitSet(w + Two(n), k) == BitSet(w, k)
  {
    hide Quotient, Two;
    TwoAdds(n - 1 - k, k);
    TwoAdds(1, n - 1);
    assert Two(1) == 2 by { TwoOfOne(); }
    Associate(2, Two(n - 1 - k), Two(k));
    HalfQuotient(w, Two(k), Two(n - 1 - k));
  }

  lemma {:induction false} BitIsMark(marks: set<nat>, base: nat, n: nat, k: nat)
    requires k < n
    ensures BitSet(WordOf(marks, base, n), k) <==> base + k in marks
    decreases n
  {
    hide Quotient, Two;
    var w, bit := WordOf(marks, base, n - 1), if base + n - 1 in marks then 1 else 0;
    if k == n - 1 {
      WordBound(marks, base, k);
      TopBit(w, Two(k), bit);
    } else {
      BitIsMark(marks, base, n - 1, k);
      LowerBit(w, n - 1, k);
    }
  }

  lemma {:induction false} MarkAdds(marks: set<nat>, base: nat, n: nat, k: nat)
    requires base + k !in marks
    ensures WordOf(marks + {base + k}, base, n) == WordOf(marks, base, n) + if k < n then Two(k) else 0
  {
    if n > 0 {
      MarkAdds(marks, base, n - 1, k);
    }
  }

  // Setting the bit of a field marks it.
  lemma BitMarks(marks: set<nat>, base: nat, k: nat)
    requires k < 32
    ensures WithBit(WordOf(marks, base, 32), k) == WordOf(marks + {base + k}, base, 32)
  {
    hide BitSet;
    BitIsMark(marks, base, 32, k);
    if base + k in marks {
      assert marks + {base + k} == marks;
    } else {
      MarkAdds(marks, base, 32, k);
    }
  }

  lemma {:induction false} OtherWord(marks: set<nat>, base: nat, n: nat, m: nat)
    requires m < base || m >= base + n
    ensures WordOf(marks + {m}, base, n) == WordOf(marks, base, n)
  {
    if n > 0 {
      OtherWord(marks, base, n - 1, m);
    }
  }

  lemma {:induction false} NoMarks(base: nat, n: nat)
    ensures WordOf({}, base, n) == 0
  {
    if n > 0 {
      NoMarks(base, n - 1);
    }
  }

  // A word is all ones exactly when everything in it is marked.
  lemma {:induction false} FullWord(marks: set<nat>, base: nat, n: nat)
    ensures WordOf(marks, base, n) == Two(n) - 1 <==> forall k | base <= k < base + n :: k in marks
  {
    if n > 0 {
      FullWord(marks, base, n - 1);
      WordBound(marks, base, n - 1);
      assert base + n - 1 in marks || WordOf(marks, base, n) < Two(n) - 1;
    }
  }

  lemma {:induction false} ShorterWord(marks: set<nat>, base: nat, n: nat, m: nat)
    requires m <= n && forall x | x in marks :: x < base + m
    ensures WordOf(marks, base, n) == WordOf(marks, base, m)
  {
    if m < n {
      ShorterWord(marks, base, n - 1, m);
    }
  }

  lemma AllBits()
    ensures Two(32) - 1 == ALL_BITS
  {
    assert Two(8) == 256;
    TwoAdds(8, 8);
    TwoAdds(16, 16);
  }

  // ----- the fields behind the marks -----

  // The field that is the required field of that number.
  function Nth(fields: seq<Field>, n: nat, k: nat): (i: nat)
    requires n <= |fields| && k < RequiredBefore(fields, n)
    ensures i < n && fields[i].kind.Required? && RequiredBefore(fields, i) == k
  {
    if RequiredBefore(fields, n - 1) == k then n - 1 else Nth(fields, n - 1, k)
  }

  lemma {:induction false} RequiredGrows(fields: seq<Field>, i: nat, j: nat)
    requires i < j <= |fields|
    ensures RequiredBefore(fields, i) + (if fields[i].kind.Required? then 1 else 0) <= RequiredBefore(fields, j)
  {
    if i < j - 1 {
      RequiredGrows(fields, i, j - 1);
    }
  }

  // The marks are the numbers of the required fields that have been seen, of the first 64.
  ghost predicate Marks(fields: seq<Field>, seen: set<nat>, marks: set<nat>) {
    && (forall i: nat | i < |fields| && fields[i].kind.Required? && RequiredBefore(fields, i) < MAX_REQUIRED_FIELDS ::
          i in seen <==> RequiredBefore(fields, i) in marks)
    && forall k | k in marks :: k < MAX_REQUIRED_FIELDS && k < RequiredBefore(fields, |fields|)
  }

  lemma MarksGrow(fields: seq<Field>, seen: set<nat>, marks: set<nat>, i: nat)
    requires Marks(fields, seen, marks) && i < |fields|
    ensures var k := RequiredBefore(fields, i);
      Marks(fields, seen + {i}, if fields[i].kind.Required? && k < MAX_REQUIRED_FIELDS then marks + {k} else marks)
  {
    hide RequiredBefore;
    RequiredGrows(fields, i, |fields|);
    forall j: nat | j < |fields| && fields[j].kind.Required? && fields[i].kind.Required? && j != i
      ensures RequiredBefore(fields, j) != RequiredBefore(fields, i)
    {
      if j < i {
        RequiredGrows(fields, j, i);
      } else {
        RequiredGrows(fields, i, j);
      }
    }
  }

  // All required fields, up to 64 of them, have been seen exactly when their numbers are marked.
  lemma MarksTell(fields: seq<Field>, seen: set<nat>, marks: set<nat>)
    requires Marks(fields, seen, marks)
    ensures var count := Min(RequiredBefore(fields, |fields|), MAX_REQUIRED_FIELDS);
      RequiredSeen(fields, seen) <==> forall k | 0 <= k < count :: k in marks
  {
    hide RequiredBefore;
    var total := RequiredBefore(fields, |fields|);
    if RequiredSeen(fields, seen) {
      forall k | 0 <= k < total && k < MAX_REQUIRED_FIELDS ensures k in marks {
        var i := Nth(fields, |fields|, k);
        assert i in seen;
      }
    }
    forall i: nat | i < |fields| && fields[i].kind.Required? ensures RequiredBefore(fields, i) < total {
      RequiredGrows(fields, i, |fields|);
    }
  }

  ghost predicate Words(fieldsSeen: seq<nat>, marks: set<nat>) {
    |fieldsSeen| == 2 && fieldsSeen[0] == WordOf(marks, 0, 32) && fieldsSeen[1] == WordOf(marks, 32, 32)
  }

  lemma WordsMark(fieldsSeen: seq<nat>, marks: set<nat>, k: nat)
    requires Words(fieldsSeen, marks) && k < MAX_REQUIRED_FIELDS
    ensures Words(fieldsSeen[k / 32 := WithBit(fieldsSeen[k / 32], k % 32)], marks + {k})
  {
    hide WordOf, WithBit;
    var base := k / 32 * 32;
    BitMarks(marks, base, k % 32);
    OtherWord(marks, 32 - base, 32, k);
  }

  // The check at the end of a message: whole words first, then the bits that remain.
  method AllMarked(fieldsSeen: seq<nat>, count: nat, ghost marks: set<nat>) returns (all: bool)
    requires Words(fieldsSeen, marks) && count <= MAX_REQUIRED_FIELDS && forall k | k in marks :: k < count
    ensures all <==> forall k | 0 <= k < count :: k in marks
  {
    hide WordOf, Two;
    AllBits();
    FullWord(marks, 0, 32);
    FullWord(marks, 32, 32);
    var i := 0;
    while i < count / 32
      invariant 0 <= i <= count / 32 && forall k | 0 <= k < 32 * i :: k in marks
    {
      if fieldsSeen[i] != ALL_BITS {
        return false;
      }
      i := i + 1;
    }
    if count % 32 != 0 {
      var rest := count % 32;
      ShorterWord(marks, 32 * i, 32, rest);
      FullWord(marks, 32 * i, rest);
      if fieldsSeen[count / 32] != Two(rest) - 1 {
        return false;
      }
    }
    all := true;
  }
}
