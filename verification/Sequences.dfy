/** Parts of sequences. */
module Sequences {
  type Byte = x: nat | x < 256
  type Bytes = seq<Byte>

  function Zeros(n: nat): (r: Bytes)
    ensures |r| == n
  {
    seq(n, _ => 0)
  }

  // `part` is what the sequence holds from `at` on.
  ghost predicate Holds<T>(s: seq<T>, at: nat, part: seq<T>) {
    at + |part| <= |s| && forall i | 0 <= i < |part| :: part[i] == s[at + i]
  }

  // A part of a part.
  lemma HoldsInside<T>(s: seq<T>, at: nat, part: seq<T>, skip: nat, inner: seq<T>)
    requires Holds(s, at, part) && Holds(part, skip, inner)
    ensures Holds(s, at + skip, inner)
  {
    forall i | 0 <= i < |inner| ensures inner[i] == s[at + skip + i] {
      assert inner[i] == part[skip + i];
    }
  }

  lemma HoldsPart<T>(s: seq<T>, at: nat, part: seq<T>, lo: nat, hi: nat)
    requires Holds(s, at, part) && lo <= hi <= |part|
    ensures Holds(s, at + lo, part[lo..hi])
  {
  }

  lemma HoldsLonger<T>(s: seq<T>, more: seq<T>, at: nat, part: seq<T>)
    requires Holds(s, at, part)
    ensures Holds(s + more, at, part)
  {
  }

  lemma EndHolds<T>(s: seq<T>, last: seq<T>)
    ensures Holds(s + last, |s|, last)
  {
  }

  lemma HoldsBoth<T>(s: seq<T>, at: nat, first: seq<T>, second: seq<T>)
    ensures Holds(s, at, first + second) <==> Holds(s, at, first) && Holds(s, at + |first|, second)
  {
    var both := first + second;
    if Holds(s, at, both) {
      forall i | 0 <= i < |first| ensures first[i] == s[at + i] {
        assert both[i] == first[i];
      }
      forall i | 0 <= i < |second| ensures second[i] == s[at + |first| + i] {
        assert both[|first| + i] == second[i];
      }
    }
  }

  lemma HeldIsSlice<T>(s: seq<T>, at: nat, part: seq<T>)
    requires Holds(s, at, part)
    ensures s[at..at + |part|] == part
  {
  }
}
