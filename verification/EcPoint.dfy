/** SEC 1 point encodings: newECPublic, decompressY and the ecPointConvert binding. */
module EcPoint {
  import opened Bytes
  import opened NumberTheory
  import opened Wrappers

  /**
    * A short Weierstrass curve over the field of p elements. onCurve is the library's IsOnCurve,
    * specified on reduced coordinates only, and sqrt is big.Int.ModSqrt.
    */
  datatype Curve = Curve(p: nat, nist: bool, b: nat, size: nat,
                         onCurve: (nat, nat) -> bool, sqrt: nat -> Option<nat>) {

    /** x^3 - 3x + b for the NIST curves and x^3 + b for secp256k1. */
    function Cubic(x: nat): int {
      x * x * x - (if nist then 3 * x else 0) + b
    }

    ghost predicate IsPoint(x: nat, y: nat)
      requires p > 0
    {
      x < p && y < p && Squares(y, Cubic(x))
    }

    /** y is a square root of v. */
    predicate Squares(y: nat, v: int)
      requires p > 0
    {
      y * y % p == v % p
    }

    ghost predicate Valid() {
      && Prime(p) && p > 2 && p < Pow256(size)
      && (forall x: nat, y: nat | x < p && y < p :: onCurve(x, y) <==> IsPoint(x, y))
      && (forall v: nat | v < p && sqrt(v).Some? :: sqrt(v).value < p && Squares(sqrt(v).value, v))
      && (forall v: nat, r: nat | v < p && sqrt(v).None? :: !Squares(r, v))
    }
  }

  datatype Format = Uncompressed | Compressed | Hybrid

  /** The three encodings of (x, y) (section 2.3.3 of SEC 1). */
  function Encode(size: nat, f: Format, x: nat, y: nat): (point: Bytes)
    ensures |point| == if f.Compressed? then 1 + size else 1 + 2 * size
  {
    match f
    case Uncompressed => [4] + FromNat(x, size) + FromNat(y, size)
    case Compressed => [2 + y % 2] + FromNat(x, size)
    case Hybrid => [6 + y % 2] + FromNat(x, size) + FromNat(y, size)
  }

  /** y is a root of the curve equation at x with the wanted parity; p itself stands for the odd zero. */
  predicate Root(c: Curve, x: nat, odd: bool, y: nat)
    requires c.p > 0
  {
    y <= c.p && c.Squares(y, c.Cubic(x)) && (y % 2 == 1) == odd
  }

  /** point denotes the coordinates (x, y). */
  predicate Denotes(c: Curve, point: Bytes, x: nat, y: nat)
    requires c.p > 0
  {
    || (|point| == 1 + c.size && point[0] in {2, 3}
        && x == ToNat(point[1..]) && Root(c, x, point[0] == 3, y))
    || (|point| == 1 + 2 * c.size && point[0] in {4, 6, 7}
        && x == ToNat(point[1..1 + c.size]) && y == ToNat(point[1 + c.size..]))
  }

  // ---- there are only two square roots, and they differ in parity ----

  lemma OddPrime(p: nat)
    requires Prime(p) && p > 2
    ensures p % 2 == 1
  {
    assert p % 2 != 0;
  }

  lemma SquareDifference(r: nat, y: nat)
    ensures (r - y) * (r + y) == r * r - y * y
  {
    Distribute(r, y, r - y);
    Distribute(r, y, r);
    Distribute(r, y, y);
  }

  lemma TwoRoots(p: nat, r: nat, y: nat)
    requires Prime(p) && p > 2 && r <= p && y <= p
    requires r * r % p == y * y % p
    ensures r == y || r == p - y
  {
    hide Prime;
    SquareDifference(r, y);
    CongAdd(r * r, y * y, -(y * y), p);
    assert ((r - y) * (r + y)) % p == 0;
    ProductZero(r - y, r + y, p);
    if (r - y) % p == 0 {
      SmallMultiple(r - y, p);
    } else {
      SmallMultiple(r + y, p);
    }
  }

  /** A multiple of p between -p and 2p. */
  lemma SmallMultiple(m: int, p: nat)
    requires p > 2 && 0 <= m + p && m <= 2 * p && m % p == 0
    ensures m + p == 0 || m == 0 || m == p || m == 2 * p
  {
    var k := m / p;
    assert m == k * p;
    if k <= -2 {
      NegativeMultiple(k + 1, p);
      Distribute(k, 1, p);
    } else if k >= 3 {
      TimesNonNegative(k - 3, p);
      Distribute(k, 3, p);
    }
  }

  lemma NegatedRoot(p: nat, y: nat)
    requires p > 0 && y <= p
    ensures (p - y) * (p - y) % p == y * y % p
  {
    Distribute(p, y, p - y);
    Distribute(p, y, y);
    assert (p - y) * (p - y) == y * y + (p - y - y) * p by {
      Distribute(p - y, y, p);
      Distribute(p, y, p);
    }
    ModShift(y * y, p - y - y, p);
  }

  lemma RootIsUnique(c: Curve, x: nat, odd: bool, y: nat, y': nat)
    requires c.Valid() && Root(c, x, odd, y) && Root(c, x, odd, y')
    ensures y == y'
  {
    hide Curve.Valid, Prime, Curve.Cubic, Curve.Squares;
    PrimeField(c);
    SquaresTwice(c, c.Cubic(x), y, y');
  }

  lemma SquaresTwice(c: Curve, v: int, y: nat, y': nat)
    requires Prime(c.p) && c.p > 2 && y <= c.p && y' <= c.p
    requires c.Squares(y, v) && c.Squares(y', v)
    ensures y == y' || y == c.p - y'
  {
    hide Prime;
    TwoRoots(c.p, y, y');
  }

  lemma DenotesIsUnique(c: Curve, point: Bytes, x: nat, y: nat, x': nat, y': nat)
    requires c.Valid() && Denotes(c, point, x, y) && Denotes(c, point, x', y')
    ensures x == x' && y == y'
  {
    hide Curve.Valid, Root, ToNat;
    if |point| == 1 + c.size && point[0] in {2, 3} {
      RootIsUnique(c, x, point[0] == 3, y, y');
    }
  }

  // ---- parsing ----

  /** decompressY. */
  method DecompressY(c: Curve, x: nat, odd: bool) returns (res: Option<nat>)
    requires c.Valid()
    ensures res.Some? ==> Root(c, x, odd, res.value)
    ensures res.None? ==> forall y: nat :: !Root(c, x, odd, y)
  {
    hide *;
    PrimeField(c);
    var p := c.p;
    var y2 := x * x * x % p;
    if c.nist {
      y2 := y2 - 3 * x;
    }
    y2 := (y2 + c.b) % p;
    CubicReduced(c, x);
    var root := c.sqrt(y2);
    if root.None? {
      NoRoot(c, x, odd, y2);
      return None;
    }
    var y := root.value;
    HasRoot(c, x, odd, y2);
    if (y % 2 == 1) != odd {
      y := p - y;
    }
    res := Some(y);
  }

  /** ModSqrt finds a root of every square. */
  lemma SqrtFinds(c: Curve, v: nat)
    requires c.Valid() && v < c.p
    ensures c.sqrt(v).Some? ==> c.sqrt(v).value < c.p && c.Squares(c.sqrt(v).value, v)
    ensures c.sqrt(v).None? ==> forall y: nat :: !c.Squares(y, v)
  {
    hide Prime, Curve.Squares, Curve.Cubic;
  }

  lemma SquaresReduced(c: Curve, y: nat, v: nat, w: int)
    requires c.p > 0 && v < c.p && v == w % c.p
    ensures c.Squares(y, v) <==> c.Squares(y, w)
  {
    SmallResidue(v, c.p);
  }

  lemma HasRoot(c: Curve, x: nat, odd: bool, v: nat)
    requires c.Valid() && v < c.p && v == c.Cubic(x) % c.p && c.sqrt(v).Some?
    ensures var y := c.sqrt(v).value;
      y <= c.p && Root(c, x, odd, if (y % 2 == 1) != odd then c.p - y else y)
  {
    PrimeField(c);
    SqrtFinds(c, v);
    hide *;
    var y := c.sqrt(v).value;
    SquaresReduced(c, y, v, c.Cubic(x));
    NegatedSquares(c, y, c.Cubic(x));
    OtherParity(c.p, y);
    IsRoot(c, x, odd, if (y % 2 == 1) != odd then c.p - y else y);
  }

  lemma IsRoot(c: Curve, x: nat, odd: bool, y: nat)
    requires y <= c.p && c.p > 0 && c.Squares(y, c.Cubic(x)) && (y % 2 == 1) == odd
    ensures Root(c, x, odd, y)
  {
    hide Curve.Squares, Curve.Cubic;
  }

  lemma OtherParity(p: nat, y: nat)
    requires y <= p && p % 2 == 1
    ensures ((p - y) % 2 == 1) != (y % 2 == 1)
  {
  }

  lemma NegatedSquares(c: Curve, y: nat, v: int)
    requires c.p > 0 && y <= c.p && c.Squares(y, v)
    ensures c.Squares(c.p - y, v)
  {
    NegatedRoot(c.p, y);
  }

  lemma NoRoot(c: Curve, x: nat, odd: bool, v: nat)
    requires c.Valid() && v < c.p && v == c.Cubic(x) % c.p && c.sqrt(v).None?
    ensures forall y: nat :: !Root(c, x, odd, y)
  {
    hide Curve.Valid, Prime, Curve.Cubic, Curve.Squares;
    SqrtFinds(c, v);
    forall y: nat ensures !Root(c, x, odd, y) {
      SquaresReduced(c, y, v, c.Cubic(x));
    }
  }

  lemma CubicReduced(c: Curve, x: nat)
    requires c.p > 0
    ensures (x * x * x % c.p - (if c.nist then 3 * x else 0) + c.b) % c.p == c.Cubic(x) % c.p
  {
    ModAdd(x * x * x, -(if c.nist then 3 * x else 0) + c.b, c.p);
  }

  /** A point accepted by newECPublic. */
  ghost predicate Accepted(c: Curve, point: Bytes, x: nat, y: nat)
    requires c.p > 0
  {
    Denotes(c, point, x, y) && c.onCurve(x, y)
  }

  /** newECPublic: accepts exactly the encodings of points, and returns the uncompressed form. */
  method NewECPublic(c: Curve, point: Bytes) returns (pub: Result<Bytes, string>)
    requires c.Valid()
    ensures pub.Ok? <==> exists x: nat, y: nat :: Accepted(c, point, x, y)
    ensures forall x: nat, y: nat :: Accepted(c, point, x, y) ==> pub == Ok(Encode(c.size, Uncompressed, x, y))
  {
    hide Curve.Valid, Encode, ToNat, Root, Prime;
    PrimeField(c);
    if |point| == 0 {
      return Err("invalid point");
    }
    var n := c.size;
    var x: nat, y: nat;
    if (point[0] == 2 || point[0] == 3) && |point| == 1 + n {
      x := ToNat(point[1..]);
      var root := DecompressY(c, x, point[0] == 3);
      if root.None? {
        return Err("invalid point");
      }
      y := root.value;
    } else if (point[0] == 4 || point[0] == 6 || point[0] == 7) && |point| == 1 + 2 * n {
      x := ToNat(point[1..1 + n]);
      y := ToNat(point[1 + n..]);
    } else {
      return Err("invalid point");
    }
    assert Denotes(c, point, x, y);
    forall x': nat, y': nat | Denotes(c, point, x', y')
      ensures x' == x && y' == y
    {
      DenotesIsUnique(c, point, x, y, x', y');
    }
    if !c.onCurve(x, y) {
      return Err("point not on curve");
    }
    assert Accepted(c, point, x, y);
    var out := Assemble(n, x, y);
    pub := Ok(out);
  }

  /** The output slice: the marker, and both coordinates padded on the left. */
  method Assemble(n: nat, x: nat, y: nat) returns (pt: Bytes)
    ensures pt == Encode(n, Uncompressed, x, y)
  {
    hide FromNat;
    var out := new Byte[1 + 2 * n];
    out[0] := 4;
    CopyAt(out, 1, FromNat(x, n));
    assert out[..1 + n] == [4] + FromNat(x, n);
    ghost var before := out[..1 + n];
    CopyAt(out, 1 + n, FromNat(y, n));
    assert out[..1 + n] == before;
    assert out[..] == out[..1 + n] + out[1 + n..];
    pt := out[..];
  }

  lemma PrimeField(c: Curve)
    requires c.Valid()
    ensures Prime(c.p) && c.p > 2 && c.p % 2 == 1 && c.p < Pow256(c.size)
  {
    OddPrime(c.p);
  }

  lemma AcceptedIsUnique(c: Curve, point: Bytes, x: nat, y: nat)
    requires c.Valid() && Accepted(c, point, x, y)
    ensures forall x': nat, y': nat :: Accepted(c, point, x', y') ==> x' == x && y' == y
  {
    hide Curve.Valid, Denotes;
    PrimeField(c);
    forall x': nat, y': nat | Accepted(c, point, x', y')
      ensures x' == x && y' == y
    {
      DenotesIsUnique(c, point, x, y, x', y');
    }
  }

  /** ecPointConvert: any accepted encoding is turned into the wanted one of the same point. */
  method PointConvert(c: Curve, point: Bytes, f: Format) returns (res: Result<Bytes, string>)
    requires c.Valid()
    ensures res.Ok? <==> exists x: nat, y: nat :: Accepted(c, point, x, y)
    ensures forall x: nat, y: nat :: Accepted(c, point, x, y) ==> res == Ok(Encode(c.size, f, x, y))
  {
    hide *;
    PrimeField(c);
    var pub := NewECPublic(c, point);
    if pub.Err? {
      return pub;
    }
    var pt := pub.value;
    var n := c.size;
    ghost var x: nat, y: nat :| Accepted(c, point, x, y);
    SizeIsPositive(c);
    AcceptedIsUnique(c, point, x, y);
    OtherEncodings(n, x, y);
    var odd := pt[2 * n] % 2 == 1;
    match f {
    case Compressed =>
      pt := pt[..1 + n];
      pt := pt[0 := if odd then 3 else 2];
    case Hybrid =>
      pt := pt[0 := if odd then 7 else 6];
    case Uncompressed =>
    }
    res := Ok(pt);
  }

  /** How the other two encodings come out of the uncompressed one. */
  lemma OtherEncodings(n: nat, x: nat, y: nat)
    requires n > 0
    ensures var pt := Encode(n, Uncompressed, x, y);
      && |pt| == 1 + 2 * n
      && Encode(n, Compressed, x, y) == pt[..1 + n][0 := if pt[2 * n] % 2 == 1 then 3 else 2]
      && Encode(n, Hybrid, x, y) == pt[0 := if pt[2 * n] % 2 == 1 then 7 else 6]
  {
    LastByte(y, n);
    hide FromNat;
    var pt := Encode(n, Uncompressed, x, y);
    assert pt[2 * n] == FromNat(y, n)[n - 1];
    assert pt[..1 + n] == [4] + FromNat(x, n);
  }

  lemma LastByte(y: nat, n: nat)
    requires n > 0
    ensures FromNat(y, n)[n - 1] % 2 == y % 2
  {
    assert FromNat(y, n) == FromNat(y / 256, n - 1) + [y % 256];
    ByteParity(y);
  }

  lemma ByteParity(y: nat)
    ensures y % 256 % 2 == y % 2
  {
  }

  lemma SizeIsPositive(c: Curve)
    requires c.Valid()
    ensures c.size > 0
  {
    assert Pow256(0) == 1;
  }

  // ---- round trips ----

  /** Every encoding of a point denotes that point. */
  lemma EncodingDenotes(c: Curve, f: Format, x: nat, y: nat)
    requires c.Valid() && c.IsPoint(x, y)
    ensures Accepted(c, Encode(c.size, f, x, y), x, y)
  {
    hide ToNat, FromNat, Prime, Pow256;
    var point := Encode(c.size, f, x, y);
    ToNatFromNat(x, c.size);
    ToNatFromNat(y, c.size);
    assert point[1..1 + c.size] == FromNat(x, c.size);
    if f.Compressed? {
      assert point[1..] == FromNat(x, c.size);
    } else {
      assert point[1 + c.size..] == FromNat(y, c.size);
    }
  }

  /** Re-encoding an accepted point returns the bytes it came from, unless a hybrid form had the wrong parity byte. */
  lemma ReencodingRestores(c: Curve, point: Bytes, x: nat, y: nat)
    requires c.Valid() && Denotes(c, point, x, y)
    ensures point[0] in {2, 3} ==> Encode(c.size, Compressed, x, y) == point
    ensures point[0] == 4 ==> Encode(c.size, Uncompressed, x, y) == point
    ensures point[0] in {6, 7} ==> (Encode(c.size, Hybrid, x, y) == point <==> point[0] % 2 == y % 2)
  {
    hide ToNat, FromNat, Prime, Pow256, Curve.Valid;
    if point[0] in {2, 3} {
      FromNatToNat(point[1..]);
      assert point == [point[0]] + point[1..];
    } else {
      FromNatToNat(point[1..1 + c.size]);
      FromNatToNat(point[1 + c.size..]);
      assert point == [point[0]] + point[1..1 + c.size] + point[1 + c.size..];
      assert Encode(c.size, Hybrid, x, y) == [6 + y % 2] + point[1..1 + c.size] + point[1 + c.size..];
    }
  }

  /** Converting a point and reading the result back gives the point's uncompressed form. */
  method ConvertThenParse(c: Curve, f: Format, x: nat, y: nat) returns (pub: Result<Bytes, string>)
    requires c.Valid() && c.IsPoint(x, y)
    ensures pub == Ok(Encode(c.size, Uncompressed, x, y))
  {
    EncodingDenotes(c, Uncompressed, x, y);
    EncodingDenotes(c, f, x, y);
    var converted := PointConvert(c, Encode(c.size, Uncompressed, x, y), f);
    pub := NewECPublic(c, converted.value);
  }

  /** The curve: y^2 = x^3 + b, or y^2 = x^3 - 3x + b for the NIST curves, modulo the prime. */
  lemma CurveEquation(c: Curve, x: nat, y: nat)
    requires c.p > 0
    ensures c.IsPoint(x, y) <==>
      x < c.p && y < c.p && y * y % c.p == (if c.nist then x * x * x - 3 * x + c.b else x * x * x + c.b) % c.p
  {
  }

  /** Section 2.3.3 of SEC 1: the first byte names the form, and 3 or 7 an odd second coordinate. */
  lemma EncodingBytes(size: nat, x: nat, y: nat)
    ensures Encode(size, Uncompressed, x, y) == [4] + FromNat(x, size) + FromNat(y, size)
    ensures Encode(size, Compressed, x, y) == [if y % 2 == 0 then 2 else 3] + FromNat(x, size)
    ensures Encode(size, Hybrid, x, y) == [if y % 2 == 0 then 6 else 7] + FromNat(x, size) + FromNat(y, size)
  {
  }
}
