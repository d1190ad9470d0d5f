/**
 The stream modes position by position: which register each byte or bit is encrypted with (NIST SP 800-38A section 6.3),
 and which counter block (section 6.5 of SP 800-38A, with the counter of SP 800-38D).
 */
module StreamStandard {
  import opened Bytes
  import opened BlockCiphers
  import opened StreamModes

  // ---- exclusive or ----

  /** Bit k of an exclusive or is one exactly if the bits k differ. */
  lemma {:induction false} XorBitsDiffer(x: nat, y: nat, n: nat, k: nat)
    requires k < n
    ensures XorBits(x, y, n) / Pow2(k) % 2 == 1 <==> x / Pow2(k) % 2 != y / Pow2(k) % 2
    decreases n
  {
    XorBitsParts(x, y, n);
    if k > 0 {
      XorBitsDiffer(x / 2, y / 2, n - 1, k - 1);
      NumberTheory.DivDiv(x, 2, Pow2(k - 1));
      NumberTheory.DivDiv(y, 2, Pow2(k - 1));
      NumberTheory.DivDiv(XorBits(x, y, n), 2, Pow2(k - 1));
    } else {
      assert Pow2(0) == 1;
    }
  }

  lemma XorIsBitwise(x: Byte, y: Byte, k: nat)
    requires k < 8
    ensures var p := Pow2(k); (XorByte(x, y) as int) / p % 2 == 1 <==> (x as int) / p % 2 != (y as int) / p % 2
  {
    XorBitsDiffer(x, y, 8, k);
  }

  // ---- CFB8 ----

  /** Byte i is masked with the first byte of the encryption of the register, which is a window of the stream. */
  ghost predicate MaskedAt(c: BlockCipher, stream: Bytes, data: Bytes, out: Bytes, i: nat) {
    && i < |data| == |out| && i + c.size <= |stream|
    && var e := c.encrypt(stream[i..i + c.size]);
       e != [] && out[i] == XorByte(data[i], e[0])
  }

  /** The register holds the last bytes of the first register followed by the ciphertext. */
  lemma {:induction false} Cfb8IsStandard(c: BlockCipher, decrypt: bool, reg: Bytes, data: Bytes)
    requires c.Valid() && |reg| == c.size
    ensures var (out, last) := Cfb8(c, decrypt, reg, data);
      var stream := reg + (if decrypt then data else out);
      (forall i: nat | i < |data| :: MaskedAt(c, stream, data, out, i)) && last == stream[|data|..]
    decreases |data|
  {
    hide XorByte, MaskedAt, BlockCipher.Valid;
    if data != [] {
      var n := |data| - 1;
      Cfb8IsStandard(c, decrypt, reg, data[..n]);
      var (before, mid) := Cfb8(c, decrypt, reg, data[..n]);
      var (out, last) := Cfb8(c, decrypt, reg, data);
      var kept := reg + (if decrypt then data[..n] else before);
      var fed := if decrypt then data[n] else out[n];
      assert reg + (if decrypt then data else out) == kept + [fed];
      FirstByte(c, mid);
      assert last == mid[1..] + [fed] == (kept + [fed])[|data|..];
      OneMoreByte(c, kept, data[..n], before, mid, fed, data[n], out[n]);
      assert data == data[..n] + [data[n]] && out == before + [out[n]];
    }
  }

  lemma FirstByte(c: BlockCipher, reg: Bytes)
    requires c.Valid() && |reg| == c.size
    ensures c.encrypt(reg) != [] && c.encrypt(reg)[0] == KeystreamByte(c, reg)
  {
  }

  lemma OneMoreByte(c: BlockCipher, stream: Bytes, data: Bytes, out: Bytes, reg: Bytes, fed: Byte, x: Byte, y: Byte)
    requires |out| == |data| && |stream| == |data| + c.size && reg == stream[|data|..]
    requires forall i: nat | i < |data| :: MaskedAt(c, stream, data, out, i)
    requires c.encrypt(reg) != [] && y == XorByte(x, c.encrypt(reg)[0])
    ensures forall i: nat | i < |data| + 1 :: MaskedAt(c, stream + [fed], data + [x], out + [y], i)
  {
    hide XorByte;
    forall i: nat | i < |data| + 1
      ensures MaskedAt(c, stream + [fed], data + [x], out + [y], i)
    {
      if i < |data| {
        assert MaskedAt(c, stream, data, out, i);
        assert (stream + [fed])[i..i + c.size] == stream[i..i + c.size];
      } else {
        assert (stream + [fed])[i..i + c.size] == reg;
      }
    }
  }

  // ---- CFB1 ----

  /** Without what is above the k low bits the other bits of a number stay. */
  lemma {:induction false} LowBitsOf(x: nat, t: nat, y: nat, k: nat)
    requires x == t * Pow2(k) + y
    ensures BitsOf(y, k) == BitsOf(x, k + 1)[1..]
    decreases k
  {
    if k > 0 {
      Doubled(t, Pow2(k - 1), Pow2(k));
      Halved(x, t * Pow2(k - 1), y);
      LowBitsOf(x / 2, t, y / 2, k - 1);
    }
  }

  lemma Doubled(a: nat, q: nat, d: nat)
    requires d == 2 * q
    ensures a * d == 2 * (a * q)
  {
  }

  lemma Halved(x: nat, p: nat, r: nat)
    requires x == 2 * p + r
    ensures x / 2 == p + r / 2 && x % 2 == r % 2
  {
  }

  lemma ShiftedByte(x: Byte, b: Bit)
    ensures BitsOf(x * 2 % 256 + b, 8) == BitsOf(x, 8)[1..] + [b]
  {
    hide *;
    var y: nat := x as int * 2 % 256 + b;
    var low: nat := x as int % 128;
    Doubles(x, b, y, low);
    EightBits();
    LowBitsOf(x, x as int / 128, low, 7);
    LastBit(y, 8);
  }

  lemma Doubles(x: nat, b: nat, y: nat, low: nat)
    requires x < 256 && b < 2 && y == x * 2 % 256 + b && low == x % 128
    ensures y / 2 == low && y % 2 == b && x == x / 128 * 128 + low
  {
    var top := if x < 128 then 0 else 1;
    assert x / 128 == top && x % 128 == x - 128 * top;
    assert x * 2 == 256 * top + 2 * low && 2 * low < 256;
    assert y == 2 * low + b;
  }

  lemma LastBit(x: nat, k: nat)
    requires k > 0
    ensures BitsOf(x, k) == BitsOf(x / 2, k - 1) + [x % 2]
  {
  }

  lemma TopBit(x: Byte)
    ensures BitsOf(x, 8)[0] == x / 128
  {
    EightBits();
    ShiftAndMask(x, 8, 0);
  }

  /** Shifting the register drops its first bit and appends the new one. */
  lemma {:induction false} ShiftIsStream(reg: Bytes, b: Bit)
    requires reg != []
    ensures Stream(Shift(reg, b)) == Stream(reg)[1..] + [b]
    decreases |reg|
  {
    hide BitsOf;
    var n := |reg| - 1;
    var x := reg[n];
    var shifted := Shift(reg, b);
    ShiftedByte(x, b);
    StreamAppend(reg[..n], x);
    assert reg[..n] + [x] == reg;
    StreamAppend(shifted[..n], shifted[n]);
    assert shifted[..n] + [shifted[n]] == shifted;
    if n == 0 {
      assert Stream([]) == [];
    } else {
      TopBit(x);
      ShiftIsStream(reg[..n], x / 128);
      assert shifted[..n] == Shift(reg[..n], x / 128);
      var bits := BitsOf(x, 8);
      assert [bits[0]] + bits[1..] == bits;
      ShiftedStream(Stream(reg[..n]), bits, b);
    }
  }

  lemma ShiftedStream(s: seq<Bit>, bits: seq<Bit>, b: Bit)
    requires s != [] && bits != []
    ensures (s[1..] + [bits[0]]) + (bits[1..] + [b]) == (s + bits)[1..] + [b]
  {
  }

  /** Bit i is masked with the first bit of the encryption of the register, whose bits are a window of the stream. */
  ghost predicate BitMaskedAt(c: BlockCipher, stream: seq<Bit>, bits: seq<Bit>, out: seq<Bit>, reg: Bytes, i: nat) {
    && i < |bits| == |out| && i + 8 * c.size <= |stream| && Stream(reg) == stream[i..i + 8 * c.size]
    && var e := c.encrypt(reg);
       e != [] && (out[i] == 1 <==> bits[i] != Stream(e)[0])
  }

  /** The register holds the last bits of the first register followed by the ciphertext; regs are the registers in turn. */
  lemma {:induction false} Cfb1IsStandard(c: BlockCipher, decrypt: bool, reg: Bytes, bits: seq<Bit>) returns (regs: seq<Bytes>)
    requires c.Valid() && |reg| == c.size
    ensures |regs| == |bits| + 1 && regs[|bits|] == Cfb1(c, decrypt, reg, bits).1
    ensures var out := Cfb1(c, decrypt, reg, bits).0;
      var stream := Stream(reg) + (if decrypt then bits else out);
      && (forall i: nat | i < |bits| :: BitMaskedAt(c, stream, bits, out, regs[i], i))
      && Stream(regs[|bits|]) == stream[|bits|..]
    decreases |bits|
  {
    hide Stream, Shift;
    if bits == [] {
      regs := [reg];
      assert Stream(reg) + [] == Stream(reg);
    } else {
      var n := |bits| - 1;
      var before := Cfb1IsStandard(c, decrypt, reg, bits[..n]);
      regs := before + [Cfb1(c, decrypt, reg, bits).1];
      OneMoreBit(c, decrypt, reg, bits, before);
    }
  }

  lemma OneMoreBit(c: BlockCipher, decrypt: bool, reg: Bytes, bits: seq<Bit>, before: seq<Bytes>)
    requires c.Valid() && |reg| == c.size && bits != [] && |before| == |bits|
    requires var n := |bits| - 1;
      var (out, mid) := Cfb1(c, decrypt, reg, bits[..n]);
      var stream := Stream(reg) + (if decrypt then bits[..n] else out);
      && before[n] == mid && Stream(mid) == stream[n..]
      && forall i: nat | i < n :: BitMaskedAt(c, stream, bits[..n], out, before[i], i)
    ensures var (out, last) := Cfb1(c, decrypt, reg, bits);
      var stream := Stream(reg) + (if decrypt then bits else out);
      var regs := before + [last];
      && (forall i: nat | i < |bits| :: BitMaskedAt(c, stream, bits, out, regs[i], i))
      && Stream(last) == stream[|bits|..]
  {
    hide Stream, Shift, BitMaskedAt, BlockCipher.Valid, Cfb1, Cfb1Step, KeystreamByte;
    var n := |bits| - 1;
    assert bits[..n] + [bits[n]] == bits;
    Cfb1Append(c, decrypt, reg, bits[..n], bits[n]);
    var (out0, mid) := Cfb1(c, decrypt, reg, bits[..n]);
    var (out, last) := Cfb1(c, decrypt, reg, bits);
    var kept := Stream(reg) + (if decrypt then bits[..n] else out0);
    var fed := if decrypt then bits[n] else out[n];
    assert Stream(reg) + (if decrypt then bits else out) == kept + [fed];
    FirstBit(c, mid);
    StepIs(c, decrypt, mid, bits[n]);
    ShiftIsStream(mid, fed);
    assert (kept + [fed])[|bits|..] == Stream(mid)[1..] + [fed];
    BitAppended(c, kept, bits[..n], out0, before, last, fed, bits[n], out[n]);
    assert bits == bits[..n] + [bits[n]] && out == out0 + [out[n]];
  }

  lemma StepIs(c: BlockCipher, decrypt: bool, reg: Bytes, x: Bit)
    requires c.Valid() && |reg| == c.size
    ensures reg != [] && var (y, next) := Cfb1Step(c, decrypt, reg, x);
      (y == 1 <==> x != KeystreamByte(c, reg) / 128) && next == Shift(reg, if decrypt then x else y)
  {
    hide Shift;
  }

  lemma BitAppended(c: BlockCipher, stream: seq<Bit>, bits: seq<Bit>, out: seq<Bit>, regs: seq<Bytes>, last: Bytes,
      fed: Bit, x: Bit, y: Bit)
    requires |out| == |bits| && |regs| == |bits| + 1 && |stream| == |bits| + 8 * c.size
    requires forall i: nat | i < |bits| :: BitMaskedAt(c, stream, bits, out, regs[i], i)
    requires Stream(regs[|bits|]) == stream[|bits|..]
    requires var e := c.encrypt(regs[|bits|]); e != [] && (y == 1 <==> x != Stream(e)[0])
    ensures forall i: nat | i < |bits| + 1 :: BitMaskedAt(c, stream + [fed], bits + [x], out + [y], (regs + [last])[i], i)
  {
    hide Stream;
    forall i: nat | i < |bits| + 1
      ensures BitMaskedAt(c, stream + [fed], bits + [x], out + [y], (regs + [last])[i], i)
    {
      if i < |bits| {
        assert BitMaskedAt(c, stream, bits, out, regs[i], i);
        assert (stream + [fed])[i..i + 8 * c.size] == stream[i..i + 8 * c.size];
      } else {
        assert (stream + [fed])[i..i + 8 * c.size] == stream[i..];
      }
    }
  }

  lemma FirstBit(c: BlockCipher, reg: Bytes)
    requires c.Valid() && |reg| == c.size
    ensures var e := c.encrypt(reg);
      e != [] && |Stream(e)| > 0 && Stream(e)[0] == KeystreamByte(c, reg) / 128
  {
    var e := c.encrypt(reg);
    StreamFirst(e);
    TopBit(e[0]);
  }

  lemma {:induction false} StreamFirst(data: Bytes)
    requires data != []
    ensures |Stream(data)| == 8 * |data| && Stream(data)[..8] == BitsOf(data[0], 8)
    decreases |data|
  {
    hide BitsOf;
    if |data| == 1 {
      StreamAppend([], data[0]);
      assert [] + [data[0]] == data && Stream([]) == [];
    } else {
      StreamFirst(data[..|data| - 1]);
    }
  }

  // ---- counter mode ----

  /** Byte i of the key stream is a byte of the encryption of the counter block, of which only the last 32 bits count. */
  lemma KeyedIsStandard(c: BlockCipher, ctr0: Bytes, pos: nat, data: Bytes, i: nat) returns (block: Bytes)
    requires c.Valid() && c.size == 16 && |ctr0| == 16 && i < |data|
    ensures |block| == 16 && block[..12] == ctr0[..12]
    ensures ToNat(block[12..]) == (ToNat(ctr0[12..]) + (pos + i) / 16) % 0x1_0000_0000
    ensures |c.encrypt(block)| == 16
    ensures Keyed(c, ctr0, pos, data)[i] == XorByte(data[i], c.encrypt(block)[(pos + i) % 16])
  {
    hide XorByte, ToNat, FromNat;
    block := Counter(ctr0, (pos + i) / 16);
    var low := (ToNat(ctr0[12..]) + (pos + i) / 16) % 0x1_0000_0000;
    FourBytes();
    ToNatFromNat(low, 4);
    assert block[12..] == FromNat(low, 4);
  }
}
