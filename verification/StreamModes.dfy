/**
 The byte-at-a-time modes: CFB8 and CFB1 with their shift register (NIST SP 800-38A section 6.3)
 and the 32-bit counter mode of GCM (NIST SP 800-38D section 6.5).
 */
module StreamModes {
  import opened Bytes
  import opened BlockCiphers
  import NumberTheory

  /** The first byte of the encrypted register. */
  function KeystreamByte(c: BlockCipher, reg: Bytes): Byte
    requires c.Valid() && |reg| == c.size
  {
    c.encrypt(reg)[0]
  }

  // ---- CFB8 ----

  /** One byte: the output and the next register, which always takes in the ciphertext byte. */
  function Cfb8Step(c: BlockCipher, decrypt: bool, reg: Bytes, p: Byte): (r: (Byte, Bytes))
    requires c.Valid() && |reg| == c.size
    ensures |r.1| == c.size
  {
    var o := XorByte(p, KeystreamByte(c, reg));
    (o, reg[1..] + [if decrypt then p else o])
  }

  function Cfb8(c: BlockCipher, decrypt: bool, reg: Bytes, data: Bytes): (r: (Bytes, Bytes))
    requires c.Valid() && |reg| == c.size
    ensures |r.0| == |data| && |r.1| == c.size
    decreases |data|
  {
    if data == [] then ([], reg)
    else
      var (out, mid) := Cfb8(c, decrypt, reg, data[..|data| - 1]);
      var (o, last) := Cfb8Step(c, decrypt, mid, data[|data| - 1]);
      (out + [o], last)
  }

  lemma Cfb8Empty(c: BlockCipher, decrypt: bool, reg: Bytes)
    requires c.Valid() && |reg| == c.size
    ensures Cfb8(c, decrypt, reg, []) == ([], reg)
  {
  }

  lemma Cfb8Append(c: BlockCipher, decrypt: bool, reg: Bytes, data: Bytes, p: Byte)
    requires c.Valid() && |reg| == c.size
    ensures var (out, mid) := Cfb8(c, decrypt, reg, data);
            var (o, last) := Cfb8Step(c, decrypt, mid, p);
            Cfb8(c, decrypt, reg, data + [p]) == (out + [o], last)
  {
    hide Cfb8Step;
    assert (data + [p])[..|data|] == data;
  }

  /** Two updates do what one update on the joined input does. */
  lemma {:induction false} Cfb8Concat(c: BlockCipher, decrypt: bool, reg: Bytes, a: Bytes, b: Bytes)
    requires c.Valid() && |reg| == c.size
    ensures var (x, mid) := Cfb8(c, decrypt, reg, a);
            var (y, last) := Cfb8(c, decrypt, mid, b);
            Cfb8(c, decrypt, reg, a + b) == (x + y, last)
    decreases |b|
  {
    hide *;
    Cfb8Empty(c, decrypt, Cfb8(c, decrypt, reg, a).1);
    if b == [] {
      assert a + b == a;
      var x := Cfb8(c, decrypt, reg, a).0;
      assert x + [] == x;
    } else {
      var init, p := b[..|b| - 1], b[|b| - 1];
      Cfb8Concat(c, decrypt, reg, a, init);
      var (x, mid) := Cfb8(c, decrypt, reg, a);
      var (y, late) := Cfb8(c, decrypt, mid, init);
      Cfb8Append(c, decrypt, reg, a + init, p);
      Cfb8Append(c, decrypt, mid, init, p);
      assert a + b == (a + init) + [p] && b == init + [p];
      var o := Cfb8Step(c, decrypt, late, p).0;
      assert (x + y) + [o] == x + (y + [o]);
    }
  }

  lemma Cfb8StepInverts(c: BlockCipher, reg: Bytes, p: Byte)
    requires c.Valid() && |reg| == c.size
    ensures var (o, next) := Cfb8Step(c, false, reg, p);
            Cfb8Step(c, true, reg, o) == (p, next)
  {
    hide XorByte;
    XorByteCancels(p, KeystreamByte(c, reg));
  }

  /** Decrypting from the same register returns the plaintext and leaves the same register. */
  lemma {:induction false} Cfb8Inverts(c: BlockCipher, reg: Bytes, plain: Bytes)
    requires c.Valid() && |reg| == c.size
    ensures var (ct, last) := Cfb8(c, false, reg, plain);
            Cfb8(c, true, reg, ct) == (plain, last)
    decreases |plain|
  {
    hide *;
    if plain == [] {
      Cfb8Empty(c, false, reg);
      Cfb8Empty(c, true, reg);
    } else {
      var init, p := plain[..|plain| - 1], plain[|plain| - 1];
      assert plain == init + [p];
      Cfb8Inverts(c, reg, init);
      Cfb8Append(c, false, reg, init, p);
      var (ct, mid) := Cfb8(c, false, reg, init);
      Cfb8StepInverts(c, mid, p);
      Cfb8Append(c, true, reg, ct, Cfb8Step(c, false, mid, p).0);
    }
  }

  /** cfb8: the loop over one update, with the register in place. */
  method Cfb8Update(c: BlockCipher, decrypt: bool, reg: array<Byte>, data: Bytes) returns (out: Bytes)
    requires c.Valid() && reg.Length == c.size
    modifies reg
    ensures (out, reg[..]) == Cfb8(c, decrypt, old(reg[..]), data)
  {
    hide *;
    out := [];
    Cfb8Empty(c, decrypt, reg[..]);
    assert data[..0] == [];
    for i := 0 to |data|
      invariant (out, reg[..]) == Cfb8(c, decrypt, old(reg[..]), data[..i])
    {
      Cfb8Append(c, decrypt, old(reg[..]), data[..i], data[i]);
      Cfb8StepIs(c, decrypt, reg[..], data[i]);
      assert data[..i + 1] == data[..i] + [data[i]];
      var ks := KeystreamByte(c, reg[..]);
      var o := XorByte(data[i], ks);
      ShiftBytes(reg, if decrypt then data[i] else o);
      out := out + [o];
    }
    assert data[..|data|] == data;
  }

  lemma Cfb8StepIs(c: BlockCipher, decrypt: bool, reg: Bytes, p: Byte)
    requires c.Valid() && |reg| == c.size
    ensures |reg| > 0
    ensures var o := XorByte(p, KeystreamByte(c, reg));
            Cfb8Step(c, decrypt, reg, p) == (o, reg[1..] + [if decrypt then p else o])
  {
  }

  method ShiftBytes(reg: array<Byte>, ct: Byte)
    requires reg.Length > 0
    modifies reg
    ensures reg[..] == old(reg[..])[1..] + [ct]
  {
    ghost var before := reg[..];
    for k := 0 to reg.Length - 1
      invariant forall i :: 0 <= i < k ==> reg[i] == before[i + 1]
      invariant forall i :: k <= i < reg.Length ==> reg[i] == before[i]
    {
      reg[k] := reg[k + 1];
    }
    reg[reg.Length - 1] := ct;
  }

  // ---- CFB1 ----

  type Bit = b: int | b == 0 || b == 1

  function XorBit(x: Bit, y: Bit): Bit {
    (x + y) % 2
  }

  /** The register shifted left by one bit, with a bit appended at its end. */
  function Shift(reg: Bytes, bit: Bit): (r: Bytes)
    requires reg != []
    ensures |r| == |reg|
  {
    var last := |reg| - 1;
    seq(last, k requires 0 <= k < last => reg[k] * 2 % 256 + reg[k + 1] / 128) + [reg[last] * 2 % 256 + bit]
  }

  /** As a number, the register doubles, drops its top bit and takes the new bit. */
  lemma {:induction false} ShiftIsDoubling(reg: Bytes, bit: Bit)
    requires reg != []
    ensures ToNat(Shift(reg, bit)) == 2 * ToNat(reg) + bit - reg[0] / 128 * Pow256(|reg|)
    decreases |reg|
  {
    hide Pow256, ToNat;
    var last := |reg| - 1;
    Pow256Step(last);
    var shifted := Shift(reg, bit);
    ToNatLast(shifted);
    ToNatLast(reg);
    var value: nat := reg[last];
    assert 256 * (value / 128) + value * 2 % 256 == 2 * value;
    if last == 0 {
      assert shifted[..0] == [] && reg[..0] == [];
      Pow256Step(0);
    } else {
      var init := reg[..last];
      ShiftIsDoubling(init, value / 128);
      assert shifted[..last] == Shift(init, value / 128);
      assert init[0] == reg[0];
      TopBit(reg[0] / 128, Pow256(last));
    }
  }

  lemma ToNatLast(b: Bytes)
    ensures ToNat([]) == 0
    ensures b != [] ==> ToNat(b) == 256 * ToNat(b[..|b| - 1]) + b[|b| - 1]
  {
  }

  lemma Pow256Step(k: nat)
    ensures Pow256(k + 1) == 256 * Pow256(k) && Pow256(0) == 1
  {
  }

  lemma TopBit(top: nat, p: nat)
    ensures 256 * (top * p) == top * (256 * p)
  {
  }

  /** One bit: the output and the next register, which always takes in the ciphertext bit. */
  function Cfb1Step(c: BlockCipher, decrypt: bool, reg: Bytes, pb: Bit): (r: (Bit, Bytes))
    requires c.Valid() && |reg| == c.size
    ensures |r.1| == c.size
  {
    var o := XorBit(pb, KeystreamByte(c, reg) / 128);
    (o, Shift(reg, if decrypt then pb else o))
  }

  function Cfb1(c: BlockCipher, decrypt: bool, reg: Bytes, bits: seq<Bit>): (r: (seq<Bit>, Bytes))
    requires c.Valid() && |reg| == c.size
    ensures |r.0| == |bits| && |r.1| == c.size
    decreases |bits|
  {
    if bits == [] then ([], reg)
    else
      var (out, mid) := Cfb1(c, decrypt, reg, bits[..|bits| - 1]);
      var (o, last) := Cfb1Step(c, decrypt, mid, bits[|bits| - 1]);
      (out + [o], last)
  }

  lemma Cfb1Empty(c: BlockCipher, decrypt: bool, reg: Bytes)
    requires c.Valid() && |reg| == c.size
    ensures Cfb1(c, decrypt, reg, []) == ([], reg)
  {
  }

  lemma Cfb1Append(c: BlockCipher, decrypt: bool, reg: Bytes, bits: seq<Bit>, pb: Bit)
    requires c.Valid() && |reg| == c.size
    ensures var (out, mid) := Cfb1(c, decrypt, reg, bits);
            var (o, last) := Cfb1Step(c, decrypt, mid, pb);
            Cfb1(c, decrypt, reg, bits + [pb]) == (out + [o], last)
  {
    hide Cfb1Step;
    assert (bits + [pb])[..|bits|] == bits;
  }

  lemma {:induction false} Cfb1Concat(c: BlockCipher, decrypt: bool, reg: Bytes, a: seq<Bit>, b: seq<Bit>)
    requires c.Valid() && |reg| == c.size
    ensures var (x, mid) := Cfb1(c, decrypt, reg, a);
            var (y, last) := Cfb1(c, decrypt, mid, b);
            Cfb1(c, decrypt, reg, a + b) == (x + y, last)
    decreases |b|
  {
    hide *;
    Cfb1Empty(c, decrypt, Cfb1(c, decrypt, reg, a).1);
    if b == [] {
      assert a + b == a;
      var x := Cfb1(c, decrypt, reg, a).0;
      assert x + [] == x;
    } else {
      var init, p := b[..|b| - 1], b[|b| - 1];
      Cfb1Concat(c, decrypt, reg, a, init);
      var (x, mid) := Cfb1(c, decrypt, reg, a);
      var (y, late) := Cfb1(c, decrypt, mid, init);
      Cfb1Append(c, decrypt, reg, a + init, p);
      Cfb1Append(c, decrypt, mid, init, p);
      assert a + b == (a + init) + [p] && b == init + [p];
      var o := Cfb1Step(c, decrypt, late, p).0;
      assert (x + y) + [o] == x + (y + [o]);
    }
  }

  lemma Cfb1StepInverts(c: BlockCipher, reg: Bytes, p: Bit)
    requires c.Valid() && |reg| == c.size
    ensures var (o, next) := Cfb1Step(c, false, reg, p);
            Cfb1Step(c, true, reg, o) == (p, next)
  {
    hide Shift;
  }

  lemma {:induction false} Cfb1BitsInvert(c: BlockCipher, reg: Bytes, plain: seq<Bit>)
    requires c.Valid() && |reg| == c.size
    ensures var (ct, last) := Cfb1(c, false, reg, plain);
            Cfb1(c, true, reg, ct) == (plain, last)
    decreases |plain|
  {
    hide *;
    if plain == [] {
      Cfb1Empty(c, false, reg);
      Cfb1Empty(c, true, reg);
    } else {
      var init, p := plain[..|plain| - 1], plain[|plain| - 1];
      assert plain == init + [p];
      Cfb1BitsInvert(c, reg, init);
      Cfb1Append(c, false, reg, init, p);
      var (ct, mid) := Cfb1(c, false, reg, init);
      Cfb1StepInverts(c, mid, p);
      Cfb1Append(c, true, reg, ct, Cfb1Step(c, false, mid, p).0);
    }
  }

  /** The k low bits of a byte, most significant first. */
  function BitsOf(p: nat, k: nat): (r: seq<Bit>)
    ensures |r| == k
  {
    if k == 0 then [] else BitsOf(p / 2, k - 1) + [p % 2]
  }

  function FromBits(bits: seq<Bit>): (n: nat)
    ensures n < Pow2(|bits|)
  {
    if bits == [] then 0 else 2 * FromBits(bits[..|bits| - 1]) + bits[|bits| - 1]
  }

  lemma {:induction false} BitsOfFromBits(bits: seq<Bit>)
    ensures BitsOf(FromBits(bits), |bits|) == bits
  {
    if bits != [] {
      BitsOfFromBits(bits[..|bits| - 1]);
    }
  }

  lemma {:induction false} FromBitsOfBits(p: nat, k: nat)
    requires p < Pow2(k)
    ensures FromBits(BitsOf(p, k)) == p
    decreases k
  {
    if k > 0 {
      FromBitsOfBits(p / 2, k - 1);
      var bits := BitsOf(p, k);
      assert bits[..k - 1] == BitsOf(p / 2, k - 1);
    }
  }

  function Stream(data: Bytes): (bits: seq<Bit>)
    ensures |bits| == 8 * |data|
  {
    if data == [] then [] else Stream(data[..|data| - 1]) + BitsOf(data[|data| - 1], 8)
  }

  lemma StreamAppend(a: Bytes, x: Byte)
    ensures Stream(a + [x]) == Stream(a) + BitsOf(x, 8)
  {
    assert (a + [x])[..|a|] == a;
  }

  lemma {:induction false} StreamInjective(a: Bytes, b: Bytes)
    requires Stream(a) == Stream(b)
    ensures a == b
    decreases |a|
  {
    if a != [] {
      hide *;
      var init, init', x, y := a[..|a| - 1], b[..|b| - 1], a[|a| - 1], b[|b| - 1];
      assert a == init + [x] && b == init' + [y];
      SameLastByte(init, x, init', y);
      StreamInjective(init, init');
    }
  }

  lemma SameLastByte(a: Bytes, x: Byte, b: Bytes, y: Byte)
    requires Stream(a + [x]) == Stream(b + [y])
    ensures Stream(a) == Stream(b) && x == y
  {
    hide *;
    StreamAppend(a, x);
    StreamAppend(b, y);
    SameTails(Stream(a), BitsOf(x, 8), Stream(b), BitsOf(y, 8));
    EightBits();
    FromBitsOfBits(x, 8);
    FromBitsOfBits(y, 8);
  }

  lemma SameTails(a: seq<Bit>, x: seq<Bit>, b: seq<Bit>, y: seq<Bit>)
    requires a + x == b + y && |x| == |y|
    ensures a == b && x == y
  {
    assert (a + x)[..|a|] == a && (b + y)[..|b|] == b;
    assert (a + x)[|a|..] == x && (b + y)[|b|..] == y;
  }

  lemma {:induction false} StreamConcat(a: Bytes, b: Bytes)
    ensures Stream(a + b) == Stream(a) + Stream(b)
    decreases |b|
  {
    if b == [] {
      assert a + b == a;
      assert Stream(a) + [] == Stream(a);
    } else {
      var init, x := b[..|b| - 1], b[|b| - 1];
      StreamConcat(a, init);
      assert b == init + [x];
      OneMoreByte(a, init, x);
    }
  }

  lemma OneMoreByte(a: Bytes, b: Bytes, x: Byte)
    requires Stream(a + b) == Stream(a) + Stream(b)
    ensures Stream(a + (b + [x])) == Stream(a) + Stream(b + [x])
  {
    hide *;
    StreamAppend(b, x);
    StreamAppend(a + b, x);
    assert a + (b + [x]) == a + b + [x];
    Associative(Stream(a), Stream(b), BitsOf(x, 8));
  }

  lemma Associative(a: seq<Bit>, b: seq<Bit>, c: seq<Bit>)
    ensures a + b + c == a + (b + c)
  {
  }

  /** out is what CFB1 makes of data: their bit streams are related by Cfb1. */
  ghost predicate Cfb1Bytes(c: BlockCipher, decrypt: bool, reg: Bytes, data: Bytes, out: Bytes, last: Bytes)
    requires c.Valid() && |reg| == c.size
  {
    Cfb1(c, decrypt, reg, Stream(data)) == (Stream(out), last)
  }

  /** cfb1: the loops over one update, most significant bit of each byte first. */
  method Cfb1Update(c: BlockCipher, decrypt: bool, reg: array<Byte>, data: Bytes) returns (out: Bytes)
    requires c.Valid() && reg.Length == c.size
    modifies reg
    ensures Cfb1Bytes(c, decrypt, old(reg[..]), data, out, reg[..])
  {
    hide Cfb1Bytes, Cfb1;
    out := [];
    NoBytes(c, decrypt, reg[..]);
    assert data[..0] == [];
    for i := 0 to |data|
      invariant Cfb1Bytes(c, decrypt, old(reg[..]), data[..i], out, reg[..])
    {
      ghost var before := reg[..];
      var ob := Cfb1Byte(c, decrypt, reg, data[i]);
      assert data[..i + 1] == data[..i] + [data[i]];
      JoinByte(c, decrypt, old(reg[..]), data[..i], out, before, data[i], ob, reg[..]);
      out := out + [ob];
    }
    assert data[..|data|] == data;
  }

  lemma NoBytes(c: BlockCipher, decrypt: bool, reg: Bytes)
    requires c.Valid() && |reg| == c.size
    ensures Cfb1Bytes(c, decrypt, reg, [], [], reg) && Cfb1(c, decrypt, reg, []) == ([], reg)
  {
  }

  method Cfb1Byte(c: BlockCipher, decrypt: bool, reg: array<Byte>, p: Byte) returns (ob: Byte)
    requires c.Valid() && reg.Length == c.size
    modifies reg
    ensures Cfb1(c, decrypt, old(reg[..]), BitsOf(p, 8)) == (BitsOf(ob, 8), reg[..])
  {
    hide *;
    var acc: nat := 0;
    ghost var done: seq<Bit> := [];
    ghost var bits := BitsOf(p, 8);
    NoBytes(c, decrypt, reg[..]);
    NoBits();
    assert bits[..0] == [];
    var k := 0;
    while k < 8
      invariant 0 <= k <= 8 && |done| == k && acc == FromBits(done)
      invariant Cfb1(c, decrypt, old(reg[..]), bits[..k]) == (done, reg[..])
    {
      var pb := BitAt(p, k);
      Cfb1Append(c, decrypt, old(reg[..]), bits[..k], pb);
      var o := Cfb1Bit(c, decrypt, reg, pb);
      assert bits[..k + 1] == bits[..k] + [pb];
      MoreBits(done, o);
      done := done + [o];
      var bit: nat := o;
      acc := 2 * acc + bit;
      k := k + 1;
    }
    EightBits();
    BitsOfFromBits(done);
    assert bits[..8] == bits;
    ob := acc;
  }

  /** One bit: the register is shifted by the ciphertext bit. */
  method Cfb1Bit(c: BlockCipher, decrypt: bool, reg: array<Byte>, pb: Bit) returns (o: Bit)
    requires c.Valid() && reg.Length == c.size
    modifies reg
    ensures (o, reg[..]) == Cfb1Step(c, decrypt, old(reg[..]), pb)
  {
    hide Shift;
    o := XorBit(pb, KeystreamByte(c, reg[..]) / 128);
    ShiftInPlace(reg, if decrypt then pb else o);
  }

  lemma NoBits()
    ensures FromBits([]) == 0
  {
  }

  lemma MoreBits(bits: seq<Bit>, o: Bit)
    ensures FromBits(bits + [o]) == 2 * FromBits(bits) + o
  {
    assert (bits + [o])[..|bits|] == bits;
  }

  /** Bit 7 - k of a byte, shifted down and masked. */
  function BitAt(p: Byte, k: nat): (b: Bit)
    requires k < 8
    ensures b == BitsOf(p, 8)[k]
  {
    ShiftAndMask(p, 8, k);
    p / Pow2(7 - k) % 2
  }

  lemma {:induction false} ShiftAndMask(p: nat, n: nat, k: nat)
    requires k < n
    ensures BitsOf(p, n)[k] == p / Pow2(n - 1 - k) % 2
    decreases n
  {
    if k < n - 1 {
      ShiftAndMask(p / 2, n - 1, k);
      NumberTheory.DivDiv(p, 2, Pow2(n - 2 - k));
    }
  }

  method ShiftInPlace(reg: array<Byte>, ct: Bit)
    requires reg.Length > 0
    modifies reg
    ensures reg[..] == Shift(old(reg[..]), ct)
  {
    ghost var goal := Shift(reg[..], ct);
    for k := 0 to reg.Length - 1
      invariant forall i :: 0 <= i < k ==> reg[i] == goal[i]
      invariant forall i :: k <= i < reg.Length ==> reg[i] == old(reg[i])
    {
      var high: int, next: int := reg[k], reg[k + 1];
      reg[k] := high * 2 % 256 + next / 128;
    }
    var last := reg.Length - 1;
    var high: int, bit: int := reg[last], ct;
    reg[last] := high * 2 % 256 + bit;
  }

  lemma JoinByte(c: BlockCipher, decrypt: bool, reg: Bytes, data: Bytes, out: Bytes, mid: Bytes, p: Byte, ob: Byte, last: Bytes)
    requires c.Valid() && |reg| == c.size && Cfb1Bytes(c, decrypt, reg, data, out, mid) && |mid| == c.size
    requires Cfb1(c, decrypt, mid, BitsOf(p, 8)) == (BitsOf(ob, 8), last)
    ensures Cfb1Bytes(c, decrypt, reg, data + [p], out + [ob], last)
  {
    hide Cfb1, BitsOf;
    assert (data + [p])[..|data|] == data && (out + [ob])[..|out|] == out;
    Cfb1Concat(c, decrypt, reg, Stream(data), BitsOf(p, 8));
  }

  /** Two updates do what one update on the joined input does. */
  lemma Cfb1Chunks(c: BlockCipher, decrypt: bool, reg: Bytes, a: Bytes, x: Bytes, mid: Bytes, b: Bytes, y: Bytes, last: Bytes)
    requires c.Valid() && |reg| == |mid| == c.size
    requires Cfb1Bytes(c, decrypt, reg, a, x, mid) && Cfb1Bytes(c, decrypt, mid, b, y, last)
    ensures Cfb1Bytes(c, decrypt, reg, a + b, x + y, last)
  {
    hide Cfb1;
    StreamConcat(a, b);
    StreamConcat(x, y);
    Cfb1Concat(c, decrypt, reg, Stream(a), Stream(b));
  }

  /** Decrypting from the same register returns the plaintext and leaves the same register. */
  lemma Cfb1Inverts(c: BlockCipher, reg: Bytes, plain: Bytes, ct: Bytes, last: Bytes, out: Bytes, last': Bytes)
    requires c.Valid() && |reg| == c.size
    requires Cfb1Bytes(c, false, reg, plain, ct, last) && Cfb1Bytes(c, true, reg, ct, out, last')
    ensures out == plain && last' == last
  {
    hide Cfb1;
    Cfb1BitsInvert(c, reg, Stream(plain));
    StreamInjective(out, plain);
  }

  // ---- GCM's counter mode ----

  /** Block k of the counter sequence: only the low 32 bits move, modulo 2^32. */
  function Counter(ctr0: Bytes, k: nat): (r: Bytes)
    requires |ctr0| == 16
    ensures |r| == 16
  {
    ctr0[..12] + FromNat((ToNat(ctr0[12..]) + k) % 0x1_0000_0000, 4)
  }

  /** Keystream byte i. */
  function KeyByte(c: BlockCipher, ctr0: Bytes, i: nat): Byte
    requires c.Valid() && c.size == 16 && |ctr0| == 16
  {
    c.encrypt(Counter(ctr0, i / 16))[i % 16]
  }

  lemma CounterZero(ctr0: Bytes)
    requires |ctr0| == 16
    ensures Counter(ctr0, 0) == ctr0
  {
    ToNatBound(ctr0[12..]);
    FourBytes();
    FromNatToNat(ctr0[12..]);
    assert ctr0 == ctr0[..12] + ctr0[12..];
  }

  lemma FourBytes()
    ensures Pow256(4) == 0x1_0000_0000
  {
    assert Pow256(2) == 65536;
  }

  /** inc() moves from one counter block to the next, wrapping in the low 32 bits. */
  function Inc(ctr: Bytes): (r: Bytes)
    requires |ctr| == 16
    ensures |r| == 16
  {
    ctr[..12] + FromNat((ToNat(ctr[12..]) + 1) % 0x1_0000_0000, 4)
  }

  lemma IncCounter(ctr0: Bytes, k: nat)
    requires |ctr0| == 16
    ensures Inc(Counter(ctr0, k)) == Counter(ctr0, k + 1)
  {
    hide FromNat, ToNat;
    var base := ToNat(ctr0[12..]);
    var n := (base + k) % 0x1_0000_0000;
    FourBytes();
    ToNatFromNat(n, 4);
    var ctr := Counter(ctr0, k);
    assert ctr[12..] == FromNat(n, 4) && ctr[..12] == ctr0[..12];
    assert (n + 1) % 0x1_0000_0000 == (base + k + 1) % 0x1_0000_0000;
  }

  /** Until the counter wraps, no two blocks use the same counter value. */
  lemma CountersDistinct(ctr0: Bytes, j: nat, k: nat)
    requires |ctr0| == 16 && j < k < j + 0x1_0000_0000
    ensures Counter(ctr0, j) != Counter(ctr0, k)
  {
    FourBytes();
    var base := ToNat(ctr0[12..]);
    var x, y := (base + j) % 0x1_0000_0000, (base + k) % 0x1_0000_0000;
    DistinctResidues(base + j, base + k);
    ToNatFromNat(x, 4);
    ToNatFromNat(y, 4);
    hide ToNat, FromNat;
    assert Counter(ctr0, j)[12..] == FromNat(x, 4) && Counter(ctr0, k)[12..] == FromNat(y, 4);
  }

  lemma DistinctResidues(a: nat, b: nat)
    requires a < b < a + 0x1_0000_0000
    ensures a % 0x1_0000_0000 != b % 0x1_0000_0000
  {
  }

  class Ctr32 {
    const c: BlockCipher
    var ctr: Bytes
    var ks: Bytes
    var used: nat

    // The first counter block and the number of keystream bytes used so far.
    ghost const ctr0: Bytes
    ghost var pos: nat

    ghost predicate Valid()
      reads this
    {
      && c.Valid() && c.size == 16 && |ctr0| == |ctr| == |ks| == 16
      && (used == 0 || used == 16 ==> pos % 16 == 0 && ctr == Counter(ctr0, pos / 16))
      && (used != 0 && used != 16 ==>
            used == pos % 16 && ctr == Counter(ctr0, pos / 16 + 1) && ks == c.encrypt(Counter(ctr0, pos / 16)))
      && used <= 16
    }

    constructor (c: BlockCipher, start: Bytes)
      requires c.Valid() && c.size == 16 && |start| == 16
      ensures Valid() && this.c == c && ctr0 == start && pos == 0
    {
      this.c, ctr0, ctr, ks, used, pos := c, start, start, Zeros(16), 0, 0;
      new;
      CounterZero(start);
    }

    /**
     Each byte of the stream meets the keystream byte of its position, so the output of any
     sequence of calls depends only on the joined input.
     */
    method XorKeyStream(src: Bytes) returns (dst: Bytes)
      requires Valid()
      modifies this
      ensures Valid() && pos == old(pos) + |src|
      ensures |dst| == |src| && forall i :: 0 <= i < |src| ==> dst[i] == XorByte(src[i], KeyByte(c, ctr0, old(pos) + i))
    {
      hide *;
      Sizes();
      StartBuffer();
      dst := [];
      for i := 0 to |src|
        invariant Valid() && used > 0 && pos == old(pos) + i && |dst| == i
        invariant forall k :: 0 <= k < i ==> dst[k] == XorByte(src[k], KeyByte(c, ctr0, old(pos) + k))
      {
        var key := NextKeyByte();
        dst := dst + [XorByte(src[i], key)];
      }
    }

    lemma Sizes()
      requires Valid()
      ensures c.Valid() && c.size == 16 && |ctr0| == 16
    {
    }

    /** Before the first byte the buffer counts as used up. */
    method StartBuffer()
      requires Valid()
      modifies this`used
      ensures Valid() && used > 0
    {
      hide Counter, BlockCipher.Valid;
      if used == 0 {
        used := 16;
      }
    }

    /** The next byte of the buffered key stream; an empty buffer is filled first. */
    method NextKeyByte() returns (key: Byte)
      requires Valid() && used > 0
      modifies this
      ensures Valid() && used > 0 && pos == old(pos) + 1
      ensures key == KeyByte(c, ctr0, old(pos))
    {
      hide Counter, Inc, XorByte, BlockCipher.Valid;
      if used == 16 {
        c.Inverse(ctr);
        ks := c.encrypt(ctr);
        IncCounter(ctr0, pos / 16);
        ctr := Inc(ctr);
        used := 0;
      }
      key := ks[used];
      used := used + 1;
      pos := pos + 1;
    }
  }

  /** What the stream at a position makes of data; applying it twice gives the data back. */
  ghost function Keyed(c: BlockCipher, ctr0: Bytes, pos: nat, data: Bytes): (out: Bytes)
    requires c.Valid() && c.size == 16 && |ctr0| == 16
    ensures |out| == |data|
  {
    seq(|data|, i requires 0 <= i < |data| => XorByte(data[i], KeyByte(c, ctr0, pos + i)))
  }

  lemma KeyedChunks(c: BlockCipher, ctr0: Bytes, pos: nat, a: Bytes, b: Bytes)
    requires c.Valid() && c.size == 16 && |ctr0| == 16
    ensures Keyed(c, ctr0, pos, a + b) == Keyed(c, ctr0, pos, a) + Keyed(c, ctr0, pos + |a|, b)
  {
    hide KeyByte, XorByte;
  }

  lemma KeyedInverts(c: BlockCipher, ctr0: Bytes, pos: nat, data: Bytes)
    requires c.Valid() && c.size == 16 && |ctr0| == 16
    ensures Keyed(c, ctr0, pos, Keyed(c, ctr0, pos, data)) == data
  {
    hide KeyByte, XorByte;
    forall i | 0 <= i < |data|
      ensures Keyed(c, ctr0, pos, Keyed(c, ctr0, pos, data))[i] == data[i]
    {
      XorByteCancels(data[i], KeyByte(c, ctr0, pos + i));
    }
  }
}
