/** Signed big integers: a sign and a magnitude. */
module BigInts {
  import opened BigUInts
  import opened BigArithmetic
  import opened BigMultiplication

  datatype BigInt = BigInt(minus: bool, magnitude: BigUInt) {
    // There is only one zero.
    ghost predicate Valid()
      reads magnitude
    {
      magnitude.Valid() && (minus ==> magnitude.Value() > 0)
    }

    ghost function Value(): int
      reads magnitude
    {
      if minus then 0 - magnitude.Value() else magnitude.Value()
    }
  }

  method Make(minus: bool, magnitude: BigUInt) returns (r: BigInt)
    requires magnitude.Valid()
    ensures r.magnitude == magnitude && r.Valid()
    ensures r.Value() == if minus then 0 - magnitude.Value() else magnitude.Value()
  {
    var zero := magnitude.IsZero();
    r := BigInt(minus && !zero, magnitude);
  }

  method Sum(a: BigUInt, b: BigUInt) returns (r: BigUInt)
    requires a.Valid() && b.Valid()
    ensures fresh(r) && r.Valid() && r.Value() == a.Value() + b.Value()
  {
    PlaceAtZero(b.Value());
    r := a.Copy();
    Add(r, b, 0);
  }

  method Difference(a: BigUInt, b: BigUInt) returns (r: BigUInt)
    requires a.Valid() && b.Valid() && a.Value() >= b.Value()
    ensures fresh(r) && r.Valid() && r.Value() == a.Value() - b.Value()
  {
    PlaceAtZero(b.Value());
    r := a.Copy();
    Subtract(r, b, 0);
  }

  method Plus(a: BigInt, b: BigInt) returns (r: BigInt)
    requires a.Valid() && b.Valid()
    ensures fresh(r.magnitude) && r.Valid() && r.Value() == a.Value() + b.Value()
  {
    hide BigUInt.Valid, BigUInt.Words;
    var m: BigUInt;
    if a.minus == b.minus {
      m := Sum(a.magnitude, b.magnitude);
      r := Make(a.minus, m);
    } else {
      var c := Compare(a.magnitude, b.magnitude);
      if c > 0 || (c == 0 && !a.minus) {
        m := Difference(a.magnitude, b.magnitude);
        r := Make(a.minus, m);
      } else {
        m := Difference(b.magnitude, a.magnitude);
        r := Make(b.minus, m);
      }
    }
  }

  method Negate(a: BigInt) returns (r: BigInt)
    requires a.Valid()
    ensures r.magnitude == a.magnitude && r.Valid() && r.Value() == -a.Value()
  {
    r := Make(!a.minus, a.magnitude);
  }

  method Minus(a: BigInt, b: BigInt) returns (r: BigInt)
    requires a.Valid() && b.Valid()
    ensures fresh(r.magnitude) && r.Valid() && r.Value() == a.Value() - b.Value()
  {
    hide BigUInt.Valid, BigUInt.Words;
    var n := Negate(b);
    r := Plus(a, n);
  }

  method Times(a: BigInt, b: BigInt, limit: int) returns (r: BigInt)
    requires a.Valid() && b.Valid()
    ensures fresh(r.magnitude) && r.Valid() && r.Value() == a.Value() * b.Value()
  {
    hide BigUInt.Valid, BigUInt.Words;
    var m := Multiply(a.magnitude, b.magnitude, limit);
    r := Make(a.minus != b.minus, m);
    SignedProduct(a.magnitude.Value(), b.magnitude.Value());
  }

  lemma SignedProduct(x: int, y: int)
    ensures -x * y == -(x * y) && x * -y == -(x * y) && -x * -y == x * y
  {
  }
}
