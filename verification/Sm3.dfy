/** The SM3 hash object (GB/T 32905-2016) over an abstract compression function. */
module Sm3 {
  import opened Arith
  import opened Bytes

  type Word = w: nat | w < 0x1_0000_0000
  type Chain = v: seq<Word> | |v| == 8 witness [0, 0, 0, 0, 0, 0, 0, 0]

  /** The compression function of block(). */
  type Compression = (Chain, Bytes) -> Chain

  function IV(): Chain {
    [0x7380166f, 0x4914b2b9, 0x172442d7, 0xda8a0600, 0xa96f30bc, 0x163138aa, 0xe38dee4d, 0xb0fb0e4e]
  }

  // ---- the hash of a whole message ----

  /** The chaining value after whole 64-byte blocks. */
  ghost function Fold(cf: Compression, data: Bytes): Chain
    requires |data| % 64 == 0
    decreases |data|
  {
    if data == [] then IV()
    else cf(Fold(cf, data[..|data| - 64]), data[|data| - 64..])
  }

  /** A one bit, zeros up to 56 modulo 64, and the bit length as a big-endian uint64. */
  function Padded(m: Bytes): Bytes {
    m + [0x80] + Zeros((119 - |m| % 64) % 64) + FromNat(U64(8 * |m|), 8)
  }

  lemma PaddedLength(m: Bytes)
    ensures |Padded(m)| % 64 == 0 && |m| + 9 <= |Padded(m)| <= |m| + 72
  {
    PadCount(|m|, |m| / 64, |m| % 64);
  }

  lemma PadCount(n: nat, q: nat, r: nat)
    requires n == 64 * q + r && r < 64
    ensures (n + 9 + (119 - r) % 64) % 64 == 0
  {
    assert (119 - r) % 64 == if r <= 55 then 55 - r else 119 - r;
    assert n + 9 + (119 - r) % 64 == 64 * (if r <= 55 then q + 1 else q + 2);
  }

  /** Below 2^61 bytes different messages pad to different strings. */
  lemma PaddingIsInjective(m: Bytes, m': Bytes)
    requires |m| < 0x2000_0000_0000_0000 && |m'| < 0x2000_0000_0000_0000
    requires Padded(m) == Padded(m')
    ensures m == m'
  {
    hide *;
    PaddedEnds(m);
    PaddedEnds(m');
    EightBytes();
    ToNatFromNat(8 * |m|, 8);
    ToNatFromNat(8 * |m'|, 8);
  }

  lemma PaddedEnds(m: Bytes)
    requires |m| < 0x2000_0000_0000_0000
    ensures var p := Padded(m);
      |p| >= |m| + 8 && p[|p| - 8..] == FromNat(8 * |m|, 8) && p[..|m|] == m
  {
    hide Zeros, FromNat;
  }

  lemma EightBytes()
    ensures Pow256(8) == 0x1_0000_0000_0000_0000
  {
    assert Pow256(2) == 65536;
    assert Pow256(4) == 0x1_0000_0000;
    assert Pow256(6) == 0x1_0000_0000_0000;
  }

  function WordBytes(v: seq<Word>): Bytes {
    if v == [] then [] else WordBytes(v[..|v| - 1]) + FromNat(v[|v| - 1], 4)
  }

  ghost function Digest(cf: Compression, m: Bytes): Bytes {
    PaddedLength(m);
    WordBytes(Fold(cf, Padded(m)))
  }

  lemma FoldBlock(cf: Compression, data: Bytes, block: Bytes)
    requires |data| % 64 == 0 && |block| == 64
    ensures |data + block| % 64 == 0 && Fold(cf, data + block) == cf(Fold(cf, data), block)
  {
    var all := data + block;
    assert all[..|all| - 64] == data && all[|all| - 64..] == block;
  }

  // ---- counting modulo 2^64 and modulo 64 ----

  function U64(x: nat): (r: nat) {
    x % 0x1_0000_0000_0000_0000
  }

  lemma AddThenReduce(a: nat, b: nat)
    ensures U64(U64(a) + b) == U64(a + b)
  {
    ReduceTwice(a, b, 0x1_0000_0000_0000_0000);
  }

  lemma ReduceTwice(a: nat, b: nat, d: nat)
    requires d > 0
    ensures (a % d + b) % d == (a + b) % d
  {
    var q, x := a / d, a % d + b;
    DivMod(a, d);
    DivMod(x, d);
    assert (q + x / d) * d == q * d + x / d * d;
    DivModUnique(q + x / d, d, x % d);
  }

  lemma BitsOfReduced(a: nat)
    ensures U64(U64(a) * 8) == U64(8 * a)
  {
    TimesReduced(a, 8, 0x1_0000_0000_0000_0000);
  }

  lemma TimesReduced(a: nat, b: nat, d: nat)
    requires d > 0
    ensures a % d * b >= 0 && a % d * b % d == a * b % d
  {
    var q, r := a / d, a % d;
    DivMod(a, d);
    MulMono(0, r, b);
    DivMod(r * b, d);
    var k := r * b / d;
    Regroup(q, d, r, b);
    MulMono(0, q, b);
    assert a * b == q * b * d + k * d + r * b % d;
    assert (q * b + k) * d == q * b * d + k * d;
    DivModUnique(q * b + k, d, r * b % d);
  }

  lemma Regroup(q: nat, d: nat, r: nat, b: nat)
    ensures (q * d + r) * b == q * b * d + r * b
  {
    assert (q * d + r) * b == q * d * b + r * b;
    assert q * d * b == q * (d * b) && d * b == b * d && q * (b * d) == q * b * d;
  }

  /** One more byte moves the fill count by one, and from 63 back to 0. */
  lemma NextFill(a: nat)
    ensures (a + 1) % 64 == if a % 64 == 63 then 0 else a % 64 + 1
  {
  }

  lemma Residue(a: nat, n: nat)
    requires n < 64 && n <= a
    ensures (a - n) % 64 == 0 ==> a % 64 == n
  {
  }

  lemma NoZeros(m: Bytes)
    ensures m + Zeros(0) == m
  {
  }

  lemma OneMoreZero(m: Bytes, k: nat)
    ensures m + Zeros(k) + [0] == m + Zeros(k + 1)
  {
  }

  /** How many zero bytes the padding loop writes when the fill count is n. */
  function ZerosFor(n: nat): (z: nat)
    requires n < 64
    ensures z < 64
  {
    if n <= 56 then 56 - n else 120 - n
  }

  // ---- the object ----

  /** The message is whole blocks, folded into v, and the rest. */
  ghost predicate Split(cf: Compression, message: Bytes, v: Chain, rest: Bytes) {
    && |rest| <= |message|
    && (|message| - |rest|) % 64 == 0
    && rest == message[|message| - |rest|..]
    && v == Fold(cf, message[..|message| - |rest|])
  }

  lemma SplitMore(cf: Compression, message: Bytes, v: Chain, rest: Bytes, data: Bytes)
    requires Split(cf, message, v, rest)
    ensures Split(cf, message + data, v, rest + data)
  {
    hide Fold;
    var all := message + data;
    assert all[..|all| - |rest + data|] == message[..|message| - |rest|];
    assert all[|all| - |rest + data|..] == rest + data;
  }

  class Hasher {
    const cf: Compression
    var v: Chain
    var buf: array<Byte>
    var n: nat
    var length: nat

    // Everything written so far.
    ghost var message: Bytes

    ghost predicate Valid()
      reads this, buf
    {
      Buffered() && length == U64(|message|)
    }

    /** The chaining value and the buffer are those of the message. */
    ghost predicate Buffered()
      reads this`buf, this`n, this`message, this`v, buf
    {
      buf.Length == 64 && n < 64 && Split(cf, message, v, buf[..n])
    }

    constructor (cf: Compression)
      ensures Valid() && fresh(buf) && message == [] && this.cf == cf
    {
      this.cf := cf;
      v, buf, n, length := IV(), new Byte[64], 0, 0;
      message := [];
    }

    /** Clone: an independent object in the same state. */
    constructor Clone(h: Hasher)
      requires h.Valid()
      ensures Valid() && fresh(buf) && message == h.message && cf == h.cf
    {
      cf, v, n, length, message := h.cf, h.v, h.n, h.length, h.message;
      buf := new Byte[64](i requires 0 <= i < 64 && h.Valid() reads h, h.buf => h.buf[i]);
      new;
      assert buf[..n] == h.buf[..n];
    }

    /** Write: fills the buffer and compresses it each time it is full. */
    method Write(p: Bytes)
      requires Valid()
      modifies this, buf
      ensures Valid() && buf == old(buf)
      ensures message == old(message) + p
    {
      hide Buffered, U64;
      AddThenReduce(|message|, |p|);
      length := U64(length + |p|);
      var rest := p;
      ghost var target := message + p;
      while rest != []
        invariant length == U64(|target|) && buf == old(buf) && Buffered()
        invariant message + rest == target
        decreases |rest|
      {
        Room();
        var c := if |rest| < 64 - n then |rest| else 64 - n;
        assert rest == rest[..c] + rest[c..];
        assert message + rest == (message + rest[..c]) + rest[c..];
        Absorb(rest[..c]);
        rest := rest[c..];
      }
    }

    lemma Room()
      requires Buffered()
      ensures n < 64 && buf.Length == 64
    {
    }

    /** One turn of the loop: what fits goes into the buffer, and a full one is compressed. */
    method Absorb(data: Bytes)
      requires Buffered() && n + |data| <= 64
      modifies this`n, this`message, this`v, buf
      ensures Buffered() && message == old(message) + data
    {
      hide Split;
      Fill(data);
      if n == 64 {
        Compress();
      }
    }

    /** A full buffer goes through the compression function. */
    method Compress()
      requires buf.Length == 64 && n == 64 && Split(cf, message, v, buf[..n])
      modifies this`v, this`n
      ensures n == 0 && Split(cf, message, v, buf[..n])
    {
      ghost var done := message[..|message| - 64];
      assert buf[..64] == buf[..];
      FoldBlock(cf, done, buf[..]);
      assert message == done + buf[..];
      v := cf(v, buf[..]);
      n := 0;
      assert message[..|message| - 0] == message && message[|message|..] == [] == buf[..0];
    }

    /** Go's copy into the free part of the buffer. */
    method Fill(data: Bytes)
      requires buf.Length == 64 && n + |data| <= 64 && Split(cf, message, v, buf[..n])
      modifies this`n, this`message, buf
      ensures n == old(n) + |data| && message == old(message) + data
      ensures Split(cf, message, v, buf[..n])
    {
      ghost var before := buf[..n];
      CopyAt(buf, n, data);
      assert buf[..n] == before && buf[n..n + |data|] == data;
      SplitMore(cf, message, v, before, data);
      n := n + |data|;
      message := message + data;
      assert buf[..n] == before + data;
    }

    /** The loop writing zeros until 56 bytes are buffered. */
    method PadZeros()
      requires Valid()
      modifies this, buf
      ensures Valid() && buf == old(buf) && n == 56
      ensures message == old(message) + Zeros(ZerosFor(old(n)))
    {
      hide Valid, Zeros, U64;
      ghost var zeros := 0;
      Counts();
      NoZeros(message);
      while n != 56
        invariant Valid() && buf == old(buf) && n < 64
        invariant message == old(message) + Zeros(zeros)
        invariant zeros + ZerosFor(n) == ZerosFor(old(n))
        decreases ZerosFor(n)
      {
        Counts();
        NextFill(|message|);
        OneMoreZero(old(message), zeros);
        Write([0]);
        Counts();
        zeros := zeros + 1;
      }
    }

    lemma Counts()
      requires Valid()
      ensures length == U64(|message|) && n == |message| % 64
    {
      hide Fold;
      Residue(|message|, n);
    }

    lemma AtBlockEnd()
      requires Valid() && |message| % 64 == 0
      ensures v == Fold(cf, message)
    {
      assert message[..|message|] == message;
    }

    /** Sum: the digest of everything written, computed on a copy so that hashing can continue. */
    method Sum(b: Bytes) returns (out: Bytes)
      requires Valid()
      ensures out == b + Digest(cf, message)
    {
      hide *;
      var c := new Hasher.Clone(this);
      c.Counts();
      var bitLen := U64(c.length * 8);
      c.Write([0x80]);
      c.Counts();
      c.PadZeros();
      c.Write(FromNat(bitLen, 8));
      PaddedParts(message);
      c.AtBlockEnd();
      DigestIs(cf, message);
      var words := ToBytes(c.v);
      out := b + words;
    }
  }

  /** What the four writes of Sum append. */
  lemma PaddedParts(m: Bytes)
    ensures |m + [0x80]| % 64 < 64
    ensures m + [0x80] + Zeros(ZerosFor(|m + [0x80]| % 64)) + FromNat(U64(U64(|m|) * 8), 8) == Padded(m)
    ensures |Padded(m)| % 64 == 0
  {
    hide U64;
    BitsOfReduced(|m|);
    NextFill(|m|);
    PaddedLength(m);
  }

  lemma DigestIs(cf: Compression, m: Bytes)
    requires |Padded(m)| % 64 == 0
    ensures Digest(cf, m) == WordBytes(Fold(cf, Padded(m)))
  {
  }

  /** The output loop: each word as four big-endian bytes. */
  method ToBytes(v: seq<Word>) returns (out: Bytes)
    ensures out == WordBytes(v)
  {
    out := [];
    for i := 0 to |v|
      invariant out == WordBytes(v[..i])
    {
      assert v[..i + 1][..i] == v[..i];
      out := out + FromNat(v[i], 4);
    }
    assert v[..|v|] == v;
  }
}
