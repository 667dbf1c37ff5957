/** The scalar field types: how their values go into varints and fixed bytes, and back. */
module ProtoScalars {
  import opened Sequences
  import opened Options
  import opened ProtoVarints

  // Half the range of an integer of so many bytes.
  function HalfRange(width: nat): nat {
    if width == 1 then 0x80 else if width == 2 then 0x8000 else if width == 4 then 0x8000_0000 else 0x8000_0000_0000_0000
  }

  predicate IsWidth(width: nat) {
    width == 1 || width == 2 || width == 4 || width == 8
  }

  predicate Signed(width: nat, i: int) {
    -(HalfRange(width) as int) <= i < HalfRange(width)
  }

  predicate Unsigned(width: nat, i: int) {
    0 <= i < 2 * HalfRange(width)
  }

  // (uint64_t) i
  function Wrapped(i: int): nat
    requires Signed(8, i)
  {
    if i < 0 then i + LIMIT64 else i
  }

  // The low bytes of a word, read as a signed integer.
  function Cast(v: nat, width: nat): int {
    var low := v % (2 * HalfRange(width));
    if low < HalfRange(width) then low else low - 2 * HalfRange(width)
  }

  function ZigZag(i: int): nat
    requires Signed(8, i)
    ensures ZigZag(i) < LIMIT64
  {
    if i < 0 then -2 * i - 1 else 2 * i
  }

  function UnZigZag(v: nat): int {
    if v % 2 == 1 then -(v / 2) - 1 else v / 2
  }

  // pb_dec_varint: integers of at most 32 bits are taken from the low 32 bits.
  function SignedValue(v: nat, width: nat): Option<int> {
    var i := Cast(v, if width == 8 then 8 else 4);
    if IsWidth(width) && Signed(width, i) then Some(i) else None
  }

  // A signed number comes back from its remainder, whatever the range.
  lemma CastBack(i: int, half: nat, v: nat)
    requires half > 0 && -(half as int) <= i < half
    requires v == if i < 0 then i + 2 * half else i
    ensures v < 2 * half && (if v < half then v else v - 2 * half) == i
  {
  }

  // The low 32 bits of a number that was extended to 64.
  lemma LowBits(i: int)
    requires Signed(4, i)
    ensures Signed(8, i) && Wrapped(i) % LIMIT32 == if i < 0 then i + LIMIT32 else i
  {
  }

  lemma Cast8RoundTrip(i: int)
    requires Signed(8, i)
    ensures Cast(Wrapped(i), 8) == i
  {
    CastBack(i, HalfRange(8), Wrapped(i));
  }

  lemma Cast4RoundTrip(i: int)
    requires Signed(4, i)
    ensures Signed(8, i) && Cast(Wrapped(i), 4) == i
  {
    hide Wrapped;
    LowBits(i);
    CastBack(i, HalfRange(4), Wrapped(i) % LIMIT32);
  }

  lemma SignedNests(i: int, width: nat)
    requires IsWidth(width) && Signed(width, i)
    ensures Signed(8, i) && (width != 8 ==> Signed(4, i))
  {
  }

  lemma SignedRoundTrip(i: int, width: nat)
    requires IsWidth(width) && Signed(width, i)
    ensures Signed(8, i) && SignedValue(Wrapped(i), width) == Some(i)
  {
    hide Wrapped, Cast, Signed, IsWidth;
    SignedNests(i, width);
    if width == 8 {
      Cast8RoundTrip(i);
    } else {
      Cast4RoundTrip(i);
    }
  }

  lemma ZigZagRoundTrip(i: int)
    requires Signed(8, i)
    ensures UnZigZag(ZigZag(i)) == i
  {
  }

  // Low byte first.
  function LittleEndian(v: nat, n: nat): (r: Bytes)
    ensures |r| == n
  {
    if n == 0 then [] else [v % 256] + LittleEndian(v / 256, n - 1)
  }

  function FromLittleEndian(b: Bytes): nat {
    if b == [] then 0 else b[0] + 256 * FromLittleEndian(b[1..])
  }

  function Range(n: nat): nat {
    if n == 0 then 1 else 256 * Range(n - 1)
  }

  lemma {:induction false} LittleEndianRoundTrip(v: nat, n: nat)
    requires v < Range(n)
    ensures FromLittleEndian(LittleEndian(v, n)) == v
  {
    if n > 0 {
      LittleEndianRoundTrip(v / 256, n - 1);
      assert LittleEndian(v, n)[1..] == LittleEndian(v / 256, n - 1);
    }
  }

  lemma Ranges()
    ensures Range(4) == LIMIT32 && Range(8) == LIMIT64
  {
    assert Range(4) == 256 * (256 * (256 * (256 * Range(0))));
    assert Range(8) == 256 * (256 * (256 * (256 * Range(4))));
  }
}
