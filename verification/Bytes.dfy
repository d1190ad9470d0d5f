/** Byte strings, their big-endian numbers and their bytewise exclusive or. */
module Bytes {

  type Byte = b: int | 0 <= b < 256
  type Bytes = seq<Byte>

  function Zeros(n: nat): (r: Bytes)
    ensures |r| == n
  {
    seq(n, _ => 0)
  }

  function Pow2(k: nat): (r: nat)
    ensures r >= 1
  {
    if k == 0 then 1 else 2 * Pow2(k - 1)
  }

  lemma {:induction false} Pow2Add(a: nat, b: nat)
    ensures Pow2(a + b) == Pow2(a) * Pow2(b)
    decreases b
  {
    if b > 0 {
      Pow2Add(a, b - 1);
      assert Pow2(a + b) == 2 * Pow2(a + b - 1);
    }
  }

  lemma Pow2Mono(a: nat, b: nat)
    requires a <= b
    ensures Pow2(a) <= Pow2(b)
    decreases b - a
  {
    if a < b {
      Pow2Mono(a + 1, b);
    }
  }

  // ---- exclusive or ----

  /** The exclusive or of the low k bits of two numbers. */
  function XorBits(x: nat, y: nat, k: nat): (r: nat)
    ensures r < Pow2(k)
  {
    if k == 0 then 0
    else (x % 2 + y % 2) % 2 + 2 * XorBits(x / 2, y / 2, k - 1)
  }

  lemma {:induction false} XorBitsCancels(x: nat, y: nat, k: nat)
    requires x < Pow2(k)
    ensures XorBits(XorBits(x, y, k), y, k) == x
    decreases k
  {
    if k > 0 {
      XorBitsCancels(x / 2, y / 2, k - 1);
      XorBitsParts(x, y, k);
      XorBitsParts(XorBits(x, y, k), y, k);
      LowBitCancels(x, y);
      hide XorBits;
      assert x == x % 2 + 2 * (x / 2);
    }
  }

  /** The lowest bit of an exclusive or, and the others. */
  lemma XorBitsParts(x: nat, y: nat, k: nat)
    requires k > 0
    ensures var z, low, high := XorBits(x, y, k), (x % 2 + y % 2) % 2, XorBits(x / 2, y / 2, k - 1);
      z == low + 2 * high && z % 2 == low && z / 2 == high
  {
    Halves((x % 2 + y % 2) % 2, XorBits(x / 2, y / 2, k - 1));
  }

  lemma Halves(low: nat, high: nat)
    requires low < 2
    ensures (low + 2 * high) % 2 == low && (low + 2 * high) / 2 == high
  {
  }

  lemma LowBitCancels(x: nat, y: nat)
    ensures ((x % 2 + y % 2) % 2 + y % 2) % 2 == x % 2
  {
  }

  /** One byte of subtle.XORBytes. */
  function XorByte(x: Byte, y: Byte): (r: Byte) {
    EightBits();
    XorBits(x, y, 8)
  }

  lemma EightBits()
    ensures Pow2(8) == 256 && Pow2(7) == 128
  {
    assert Pow2(4) == 16;
  }

  lemma XorByteCancels(x: Byte, y: Byte)
    ensures XorByte(XorByte(x, y), y) == x
  {
    hide XorBits;
    EightBits();
    XorBitsCancels(x, y, 8);
  }

  function Xor(a: Bytes, b: Bytes): (r: Bytes)
    requires |a| == |b|
    ensures |r| == |a|
    ensures forall i :: 0 <= i < |a| ==> r[i] == XorByte(a[i], b[i])
  {
    seq(|a|, i requires 0 <= i < |a| => XorByte(a[i], b[i]))
  }

  lemma XorCancels(a: Bytes, b: Bytes)
    requires |a| == |b|
    ensures Xor(Xor(a, b), b) == a
  {
    hide XorByte;
    forall i | 0 <= i < |a|
      ensures XorByte(XorByte(a[i], b[i]), b[i]) == a[i]
    {
      XorByteCancels(a[i], b[i]);
    }
  }

  // ---- big-endian numbers ----

  function Pow256(k: nat): (r: nat)
    ensures r >= 1
  {
    if k == 0 then 1 else 256 * Pow256(k - 1)
  }

  lemma {:induction false} Pow256IsPow2(k: nat)
    ensures Pow256(k) == Pow2(8 * k)
  {
    if k > 0 {
      Pow256IsPow2(k - 1);
      Pow2Add(8 * (k - 1), 8);
      assert Pow2(8) == 256;
    }
  }

  /** The number whose big-endian digits are b (big.Int.SetBytes). */
  function ToNat(b: Bytes): (n: nat)
  {
    if b == [] then 0 else 256 * ToNat(b[..|b| - 1]) + b[|b| - 1]
  }

  /** The last len big-endian digits of n (big.Int.FillBytes, binary.BigEndian.PutUint*). */
  function FromNat(n: nat, len: nat): (b: Bytes)
    ensures |b| == len
  {
    if len == 0 then [] else FromNat(n / 256, len - 1) + [n % 256]
  }

  lemma {:induction false} ToNatBound(b: Bytes)
    ensures ToNat(b) < Pow256(|b|)
  {
    if b != [] {
      ToNatBound(b[..|b| - 1]);
    }
  }

  lemma {:induction false} FromNatToNat(b: Bytes)
    ensures FromNat(ToNat(b), |b|) == b
  {
    if b != [] {
      FromNatToNat(b[..|b| - 1]);
      var last := b[|b| - 1];
      assert ToNat(b) % 256 == last && ToNat(b) / 256 == ToNat(b[..|b| - 1]);
    }
  }

  lemma {:induction false} ToNatFromNat(n: nat, len: nat)
    requires n < Pow256(len)
    ensures ToNat(FromNat(n, len)) == n
  {
    if len > 0 {
      var q, k := n / 256, n % 256;
      assert q < Pow256(len - 1);
      ToNatFromNat(q, len - 1);
      var high := FromNat(q, len - 1);
      var b := FromNat(n, len);
      assert b == high + [k];
      assert b[..|b| - 1] == high && b[|b| - 1] == k;
    }
  }

  lemma {:induction false} ToNatConcat(a: Bytes, b: Bytes)
    ensures ToNat(a + b) == ToNat(a) * Pow256(|b|) + ToNat(b)
    decreases |b|
  {
    if b == [] {
      assert a + b == a;
    } else {
      var b', last, n := b[..|b| - 1], b[|b| - 1], ToNat(a);
      ToNatConcat(a, b');
      assert (a + b)[..|a + b| - 1] == a + b';
      assert (a + b)[|a + b| - 1] == b[|b| - 1];
      AppendDigit(n, Pow256(|b'|), ToNat(b'), last);
      assert Pow256(|b|) == 256 * Pow256(|b'|);
    }
  }

  lemma AppendDigit(x: int, y: int, z: int, w: int)
    ensures 256 * (x * y + z) + w == x * (256 * y) + (256 * z + w)
  {
  }

  /** r with data written at start (Go's copy into a slice). */
  function Splice(r: Bytes, start: nat, data: Bytes): (s: Bytes)
    requires start + |data| <= |r|
    ensures |s| == |r|
    ensures s[start..start + |data|] == data
    ensures s[..start] == r[..start] && s[start + |data|..] == r[start + |data|..]
  {
    r[..start] + data + r[start + |data|..]
  }

  lemma SpliceBack(r: Bytes, start: nat, data: Bytes)
    requires start + |data| <= |r|
    ensures Splice(Splice(r, start, data), start, r[start..start + |data|]) == r
  {
    var s := Splice(r, start, data);
    assert s[..start] == r[..start] && s[start + |data|..] == r[start + |data|..];
    assert r == r[..start] + r[start..start + |data|] + r[start + |data|..];
  }

  method CopyAt(out: array<Byte>, start: nat, data: Bytes)
    requires start + |data| <= out.Length
    modifies out
    ensures out[..] == Splice(old(out[..]), start, data)
  {
    for k := 0 to |data|
      invariant out[..start] == old(out[..start])
      invariant out[start..start + k] == data[..k]
      invariant out[start + |data|..] == old(out[start + |data|..])
    {
      out[start + k] := data[k];
      assert out[start..start + k + 1] == out[start..start + k] + [data[k]];
    }
    assert out[..] == out[..start] + out[start..start + |data|] + out[start + |data|..];
  }
}
