/** RSA-PSS with its own mask generation hash: rsaPSSSign, rsaPSSVerify and mgf1XOR over an abstract RSA pair. */
module Pss {
  import opened Arith
  import opened Bytes
  import opened NumberTheory
  import opened Wrappers

  /** The message hash and the hash of the mask generation function. */
  datatype Hashes = Hashes(hash: Bytes -> Bytes, hLen: nat, mgfHash: Bytes -> Bytes, mLen: nat) {
    ghost predicate Valid() {
      && mLen > 0
      && (forall m :: |hash(m)| == hLen)
      && (forall m :: |mgfHash(m)| == mLen)
    }
  }

  /** Raw RSA: below n the public operation undoes the private one. */
  datatype Rsa = Rsa(n: nat, priv: nat -> nat, pub: nat -> nat) {
    ghost predicate Valid() {
      n > 0 && forall m: nat | m < n :: priv(m) < n && pub(priv(m)) == m
    }

    function Size(): nat {
      (BitLen(n) + 7) / 8
    }

    function EmBits(): nat
      requires n > 0
    {
      BitLen(n) - 1
    }
  }

  // ---- the mask ----

  /** Byte i of the mask: block number i / mLen, as a four-byte counter, selects the hash (section B.2.1 of RFC 8017). */
  ghost function MaskByte(h: Hashes, seed: Bytes, i: nat): Byte
    requires h.Valid()
  {
    h.mgfHash(seed + FromNat(i / h.mLen, 4))[i % h.mLen]
  }

  ghost function Mask(h: Hashes, seed: Bytes, len: nat): (m: Bytes)
    requires h.Valid()
    ensures |m| == len && forall i :: 0 <= i < len ==> m[i] == MaskByte(h, seed, i)
  {
    seq(len, i requires 0 <= i => MaskByte(h, seed, i))
  }

  /** Section B.2.1 of RFC 8017: block k of the mask, cut at its length, is the hash of the seed and the counter k. */
  lemma MaskIsMgf1(h: Hashes, seed: Bytes, len: nat, k: nat)
    requires h.Valid()
    ensures forall j | 0 <= j < h.mLen && k * h.mLen + j < len ::
      Mask(h, seed, len)[k * h.mLen + j] == h.mgfHash(seed + FromNat(k, 4))[j]
  {
    hide FromNat;
    forall j | 0 <= j < h.mLen && k * h.mLen + j < len
      ensures Mask(h, seed, len)[k * h.mLen + j] == h.mgfHash(seed + FromNat(k, 4))[j]
    {
      DivModUnique(k, h.mLen, j);
    }
  }

  /** The four-byte counter after n increments moves to n + 1, wrapping with its width. */
  lemma {:induction false} CarryStops(n: nat, len: nat)
    requires len > 0
    ensures n % 256 != 255 ==> FromNat(n + 1, len) == FromNat(n / 256, len - 1) + [n % 256 + 1]
    ensures n % 256 == 255 ==> FromNat(n + 1, len) == FromNat(n / 256 + 1, len - 1) + [0]
  {
  }

  /** The carry loop over the counter bytes. */
  method Increment(counter: array<Byte>, ghost n: nat)
    requires counter[..] == FromNat(n, counter.Length)
    modifies counter
    ensures counter[..] == FromNat(n + 1, counter.Length)
  {
    hide FromNat;
    var i := counter.Length;
    ghost var q := n;
    FromNatEmpty(n + 1);
    assert counter[..i] == counter[..];
    while i > 0
      invariant 0 <= i <= counter.Length
      invariant counter[..i] == FromNat(q, i)
      invariant FromNat(n + 1, counter.Length) == FromNat(q + 1, i) + counter[i..]
      decreases i
    {
      CarryStops(q, i);
      FromNatLast(q, i);
      var last: int := counter[i - 1];
      assert last == q % 256 by {
        assert counter[i - 1] == counter[..i][i - 1];
      }
      assert counter[..i - 1] == counter[..i][..i - 1] == FromNat(q / 256, i - 1);
      ghost var tail := counter[i..];
      counter[i - 1] := (last + 1) % 256;
      assert counter[i - 1..] == [counter[i - 1]] + tail;
      if counter[i - 1] != 0 {
        assert counter[..] == counter[..i - 1] + counter[i - 1..];
        Regrouped(counter[..i - 1], last + 1, tail);
        return;
      }
      Regrouped(FromNat(q / 256 + 1, i - 1), 0, tail);
      q := q / 256;
      i := i - 1;
    }
    FromNatEmpty(q + 1);
  }

  lemma Regrouped(a: Bytes, x: Byte, tail: Bytes)
    ensures (a + [x]) + tail == a + ([x] + tail)
  {
  }

  lemma FromNatEmpty(n: nat)
    ensures FromNat(n, 0) == []
  {
  }

  lemma FromNatLast(n: nat, len: nat)
    requires len > 0
    ensures FromNat(n, len) == FromNat(n / 256, len - 1) + [n % 256]
  {
  }

  /** mgf1XOR: masks a buffer in place. */
  method Mgf1Xor(h: Hashes, out: array<Byte>, seed: Bytes)
    requires h.Valid()
    modifies out
    ensures out[..] == Xor(old(out[..]), Mask(h, seed, out.Length))
  {
    hide FromNat, XorByte, Hashes.Valid;
    HashLengths(h);
    var counter := new Byte[4](_ => 0);
    ZeroCounter(counter);
    ghost var before := out[..];
    var done := 0;
    ghost var blocks: nat := 0;
    while done < out.Length
      invariant 0 <= done <= out.Length && fresh(counter) && counter.Length == 4
      invariant counter[..] == FromNat(blocks, 4)
      invariant done == blocks * h.mLen || done == out.Length
      invariant forall j :: 0 <= j < done ==> out[j] == XorByte(before[j], MaskByte(h, seed, j))
      invariant forall j :: done <= j < out.Length ==> out[j] == before[j]
      decreases out.Length - done
    {
      var d := h.mgfHash(seed + counter[..]);
      HashLengthOf(h, seed + counter[..]);
      ghost var start := done;
      var i := 0;
      while i < |d| && done < out.Length
        invariant 0 <= i <= |d| && done == start + i <= out.Length
        invariant counter[..] == FromNat(blocks, 4)
        invariant forall j :: 0 <= j < done ==> out[j] == XorByte(before[j], MaskByte(h, seed, j))
        invariant forall j :: done <= j < out.Length ==> out[j] == before[j]
      {
        DivModUnique(blocks, h.mLen, i);
        out[done] := XorByte(out[done], d[i]);
        i := i + 1;
        done := done + 1;
      }
      NextMultiple(blocks, h.mLen);
      Increment(counter, blocks);
      blocks := blocks + 1;
    }
  }

  lemma HashLengths(h: Hashes)
    requires h.Valid()
    ensures h.mLen > 0
  {
  }

  lemma HashLengthOf(h: Hashes, m: Bytes)
    requires h.Valid()
    ensures |h.mgfHash(m)| == h.mLen && |h.hash(m)| == h.hLen
  {
  }

  lemma ZeroCounter(counter: array<Byte>)
    requires counter.Length == 4 && forall k :: 0 <= k < 4 ==> counter[k] == 0
    ensures counter[..] == FromNat(0, 4)
  {
    assert FromNat(0, 2) == [0, 0];
  }

  // ---- masking is its own inverse ----

  /** db masked by H, with all but the low keep bits of the first byte cleared. */
  ghost function Masked(h: Hashes, keep: nat, db: Bytes, H: Bytes): (r: Bytes)
    requires h.Valid() && db != [] && 1 <= keep <= 8
    ensures |r| == |db|
  {
    ClearTop(Xor(db, Mask(h, H, |db|)), keep)
  }

  /** x[0] &= 0xff >> (8 - keep). */
  function ClearTop(x: Bytes, keep: nat): (r: Bytes)
    requires x != []
    ensures |r| == |x|
  {
    x[0 := LowBits(x[0], keep)]
  }

  function LowBits(x: Byte, keep: nat): (r: Byte)
    ensures r < Pow2(keep)
  {
    var v: nat := x;
    ModAtMost(v, Pow2(keep));
    v % Pow2(keep)
  }

  lemma ModAtMost(v: nat, d: nat)
    requires d > 0
    ensures 0 <= v % d < d && v % d <= v
  {
    if v < d {
      SmallResidue(v, d);
    }
  }

  lemma {:induction false} XorBitsLow(x: nat, y: nat, m: nat, k: nat)
    requires k <= m
    ensures XorBits(x, y, m) % Pow2(k) == XorBits(x, y, k)
    decreases m
  {
    if k == 0 {
      assert Pow2(0) == 1;
    } else {
      XorBitsLow(x / 2, y / 2, m - 1, k - 1);
      DoubledMod((x % 2 + y % 2) % 2, XorBits(x / 2, y / 2, m - 1), Pow2(k - 1));
    }
  }

  lemma DoubledMod(bit: nat, t: nat, p: nat)
    requires bit < 2 && p > 0
    ensures (bit + 2 * t) % (2 * p) == bit + 2 * (t % p)
  {
    var q, r := t / p, t % p;
    assert t == q * p + r;
    assert q * (2 * p) == 2 * (q * p);
    QuotientIs(bit + 2 * t, 2 * p, q, bit + 2 * r);
  }

  lemma FirstByteBack(a: Byte, g: Byte, keep: nat)
    requires keep <= 8 && a < Pow2(keep)
    ensures LowBits(XorByte(LowBits(XorByte(a, g), keep), g), keep) == a
  {
    hide XorBits, Pow2;
    LowOfXor(a, g, keep);
    var low := LowBits(XorByte(a, g), keep);
    LowOfXor(low, g, keep);
    XorBitsCancels(a, g, keep);
  }

  lemma LowOfXor(a: Byte, g: Byte, keep: nat)
    requires keep <= 8
    ensures LowBits(XorByte(a, g), keep) == XorBits(a, g, keep)
  {
    hide XorBits, Pow2;
    EightBits();
    XorBitsLow(a, g, 8, keep);
  }

  lemma MaskedTwice(h: Hashes, keep: nat, db: Bytes, H: Bytes)
    requires h.Valid() && db != [] && 1 <= keep <= 8 && db[0] < Pow2(keep)
    ensures Masked(h, keep, Masked(h, keep, db, H), H) == db
  {
    hide Hashes.Valid, MaskByte, XorByte, LowBits, Pow2;
    var mask := Mask(h, H, |db|);
    FirstByteBack(db[0], mask[0], keep);
    forall i | 1 <= i < |db|
      ensures XorByte(XorByte(db[i], mask[i]), mask[i]) == db[i]
    {
      XorByteCancels(db[i], mask[i]);
    }
  }

  // ---- the encoding ----

  function EmLen(emBits: nat): nat {
    (emBits + 7) / 8
  }

  function Keep(emBits: nat): (k: nat)
    ensures emBits > 0 ==> 1 <= k <= 8
  {
    if emBits == 0 then 8 else 8 - (8 * EmLen(emBits) - emBits)
  }

  predicate Fits(h: Hashes, emBits: nat, saltLen: nat) {
    EmLen(emBits) >= h.hLen + saltLen + 2
  }

  function Block(pad: nat, salt: Bytes): (db: Bytes)
    ensures |db| == pad + 1 + |salt|
  {
    Zeros(pad) + [1] + salt
  }

  /** EMSA-PSS encoding with a given salt (section 9.1.1 of RFC 8017). */
  ghost function Encode(h: Hashes, emBits: nat, digest: Bytes, salt: Bytes): (em: Bytes)
    requires h.Valid() && Fits(h, emBits, |salt|)
    ensures |em| == EmLen(emBits)
  {
    var H := h.hash(Zeros(8) + digest + salt);
    var db := Block(EmLen(emBits) - h.hLen - |salt| - 2, salt);
    Masked(h, Keep(emBits), db, H) + H + [0xbc]
  }

  /** A string of emLen bytes stays below 2^emBits exactly when its first byte has no high bits. */
  lemma TopByte(em: Bytes, emBits: nat)
    requires emBits > 0 && |em| == EmLen(emBits)
    ensures |em| > 0 && (ToNat(em) < Pow2(emBits) <==> em[0] < Pow2(Keep(emBits)))
  {
    hide ToNat, Pow2, Pow256;
    var k, rest := Keep(emBits), em[1..];
    assert em == [em[0]] + rest;
    ToNatConcat([em[0]], rest);
    ToNatOne(em[0]);
    ToNatBound(rest);
    Pow256IsPow2(|rest|);
    Pow2Add(k, 8 * |rest|);
    assert emBits == k + 8 * |rest|;
    var first: nat := em[0];
    if first < Pow2(k) {
      MulMono(first + 1, Pow2(k), Pow256(|rest|));
      NumberTheory.Distribute(first, 1, Pow256(|rest|));
    } else {
      MulMono(Pow2(k), first, Pow256(|rest|));
    }
  }

  lemma ToNatOne(b: Byte)
    ensures ToNat([b]) == b
  {
    assert [b][..0] == [];
  }

  /** The encoded integer has at most emBits bits. */
  lemma EncodingIsSmall(h: Hashes, emBits: nat, digest: Bytes, salt: Bytes)
    requires h.Valid() && Fits(h, emBits, |salt|)
    ensures ToNat(Encode(h, emBits, digest, salt)) < Pow2(emBits)
  {
    hide ToNat, Pow2, Hashes.Valid, LowBits, Xor;
    TopByte(Encode(h, emBits, digest, salt), emBits);
  }

  /** A block with a nonzero byte 1 after zeros determines its padding and its salt. */
  lemma BlockIsUnique(pad: nat, salt: Bytes, pad': nat, salt': Bytes)
    requires Block(pad, salt) == Block(pad', salt')
    ensures pad == pad' && salt == salt'
  {
    var db, db' := Block(pad, salt), Block(pad', salt');
    assert db[pad] == 1 && db'[pad'] == 1;
    assert (forall j :: 0 <= j < pad ==> db[j] == 0) && (forall j :: 0 <= j < pad' ==> db'[j] == 0);
    assert db[pad + 1..] == salt && db'[pad + 1..] == salt';
  }

  lemma OneFits(emBits: nat)
    requires emBits > 0
    ensures 1 < Pow2(Keep(emBits))
  {
    Pow2Mono(1, Keep(emBits));
    assert Pow2(1) == 2;
  }

  /** What the verifier reads off em: the unmasked block is zeros, a one and the salt, and the hash matches. */
  lemma DecodesExactly(h: Hashes, emBits: nat, digest: Bytes, em: Bytes, salt: Bytes)
    requires h.Valid() && |em| == EmLen(emBits) && Fits(h, emBits, |salt|)
    requires ToNat(em) < Pow2(emBits)
    ensures var n := |em| - h.hLen - 1;
      em == Encode(h, emBits, digest, salt) <==>
        && em[|em| - 1] == 0xbc
        && Masked(h, Keep(emBits), em[..n], em[n..|em| - 1]) == Block(n - |salt| - 1, salt)
        && h.hash(Zeros(8) + digest + salt) == em[n..|em| - 1]
  {
    hide ToNat, Pow2, Hashes.Valid, Masked;
    var n, keep := |em| - h.hLen - 1, Keep(emBits);
    TopByte(em, emBits);
    OneFits(emBits);
    var H := h.hash(Zeros(8) + digest + salt);
    HashLengthOf(h, Zeros(8) + digest + salt);
    var db := Block(n - |salt| - 1, salt);
    MaskedTwice(h, keep, db, H);
    MaskedTwice(h, keep, em[..n], em[n..|em| - 1]);
    assert em == em[..n] + em[n..|em| - 1] + [em[|em| - 1]];
    var enc := Encode(h, emBits, digest, salt);
    assert enc[..n] == Masked(h, keep, db, H) && enc[n..|em| - 1] == H && enc[|em| - 1] == 0xbc;
  }

  // ---- signing and verifying ----

  /**
   Section 9.1.1 of RFC 8017: the digest and salt behind eight zero bytes are hashed to H; a block of zeros, a one and the
   salt is masked with MGF1 of H, and its bits above emBits are cleared; the encoding is this, H and the byte 0xbc.
   */
  lemma EncodingIsStandard(h: Hashes, emBits: nat, digest: Bytes, salt: Bytes) returns (H: Bytes, db: Bytes, masked: Bytes)
    requires h.Valid() && emBits > 0 && Fits(h, emBits, |salt|)
    ensures H == h.hash([0, 0, 0, 0, 0, 0, 0, 0] + digest + salt) && |H| == h.hLen
    ensures h.hLen + |salt| + 2 <= |db| + h.hLen + 1 == (emBits + 7) / 8
    ensures forall i | 0 <= i < |db| - |salt| - 1 :: db[i] == 0
    ensures db[|db| - |salt| - 1] == 1 && db[|db| - |salt|..] == salt
    ensures |masked| == |db| && forall i | 1 <= i < |db| :: masked[i] == XorByte(db[i], Mask(h, H, |db|)[i])
    ensures var spare := 8 * (|db| + h.hLen + 1) - emBits;
      0 <= spare < 8 && masked[0] == XorByte(db[0], Mask(h, H, |db|)[0]) % Pow2(8 - spare)
    ensures Encode(h, emBits, digest, salt) == masked + H + [0xbc]
  {
    hide XorByte, Mask, Hashes.Valid, LowBits;
    assert Zeros(8) == [0, 0, 0, 0, 0, 0, 0, 0];
    H := h.hash(Zeros(8) + digest + salt);
    HashLengthOf(h, Zeros(8) + digest + salt);
    db := Block(EmLen(emBits) - h.hLen - |salt| - 2, salt);
    masked := Masked(h, Keep(emBits), db, H);
    LowBitsIs(XorByte(db[0], Mask(h, H, |db|)[0]), Keep(emBits));
  }

  lemma LowBitsIs(x: Byte, keep: nat)
    ensures LowBits(x, keep) as int == x as int % Pow2(keep)
  {
  }

  const SALT_AUTO := 0
  const SALT_EQUALS_HASH := -1

  /** The number of salt bytes used when signing; it may be negative, which is an error. */
  function SignSaltLength(emLen: nat, hLen: nat, saltLen: int): int {
    if saltLen == SALT_AUTO then emLen - hLen - 2
    else if saltLen == SALT_EQUALS_HASH then hLen
    else saltLen
  }

  /** The modulus has one bit more than encodings may have, and a signature as many bytes as the modulus. */
  lemma RsaLengths(rsa: Rsa)
    requires rsa.n > 0
    ensures Pow2(rsa.EmBits()) <= rsa.n < Pow2(rsa.EmBits() + 1)
    ensures rsa.n < Pow256(rsa.Size()) && (rsa.Size() > 0 ==> Pow256(rsa.Size() - 1) <= rsa.n)
  {
    hide Pow2, Pow256;
    var bits := BitLen(rsa.n);
    var size := rsa.Size();
    Pow256IsPow2(size);
    Pow2Mono(bits, 8 * size);
    if size > 0 {
      Pow256IsPow2(size - 1);
      Pow2Mono(8 * (size - 1), bits - 1);
    }
  }

  /** Signing with option 0 takes the longest salt that fits, with -1 one as long as the hash, otherwise the length given. */
  lemma SaltLengths(h: Hashes, emBits: nat, saltLen: int)
    ensures saltLen == -1 ==> SignSaltLength(EmLen(emBits), h.hLen, saltLen) == h.hLen
    ensures saltLen == 0 ==> forall k: nat ::
      Fits(h, emBits, k) <==> k <= SignSaltLength(EmLen(emBits), h.hLen, saltLen)
    ensures saltLen != 0 && saltLen != -1 ==> SignSaltLength(EmLen(emBits), h.hLen, saltLen) == saltLen
    ensures forall k: nat :: Fits(h, emBits, k) <==> h.hLen + k + 2 <= (emBits + 7) / 8
  {
  }

  /** sig is the signature of digest for some salt that the verifier's length option allows. */
  ghost predicate SignedWithSalt(h: Hashes, rsa: Rsa, digest: Bytes, sig: Bytes, saltLen: int, salt: Bytes)
    requires h.Valid() && rsa.n > 0
  {
    && (saltLen >= 0 ==> |salt| == saltLen)
    && Fits(h, rsa.EmBits(), |salt|)
    && rsa.pub(ToNat(sig)) == ToNat(Encode(h, rsa.EmBits(), digest, salt))
  }

  /** rsaPSSSign, with random(k) the k random bytes of the salt. */
  method PssSign(h: Hashes, rsa: Rsa, digest: Bytes, saltLen: int, random: nat -> Bytes)
    returns (sig: Result<Bytes, string>)
    requires h.Valid() && rsa.Valid() && |digest| == h.hLen
    requires forall k :: |random(k)| == k
    ensures var k := SignSaltLength(EmLen(rsa.EmBits()), h.hLen, saltLen);
      sig == if k < 0 || !Fits(h, rsa.EmBits(), k) then Err("key size too small for PSS")
             else Ok(FromNat(rsa.priv(ToNat(Encode(h, rsa.EmBits(), digest, random(k)))), rsa.Size()))
  {
    hide ToNat, FromNat, Encode, Hashes.Valid, BitLen;
    var emBits := rsa.EmBits();
    var emLen := EmLen(emBits);
    var hLen := |digest|;
    var k := saltLen;
    if k == SALT_AUTO {
      k := emLen - hLen - 2;
    } else if k == SALT_EQUALS_HASH {
      k := hLen;
    }
    if k < 0 || emLen < hLen + k + 2 {
      return Err("key size too small for PSS");
    }
    var em := EncodeMessage(h, emBits, digest, random(k));
    var s := rsa.priv(ToNat(em));
    sig := Ok(FromNat(s, rsa.Size()));
  }

  /** The encoded message, put together in a buffer. */
  method EncodeMessage(h: Hashes, emBits: nat, digest: Bytes, salt: Bytes) returns (em: Bytes)
    requires h.Valid() && |digest| == h.hLen && Fits(h, emBits, |salt|)
    ensures em == Encode(h, emBits, digest, salt)
  {
    hide Masked, Hashes.Valid, XorByte, LowBits, MaskByte, Zeros;
    var emLen, hLen, k := EmLen(emBits), |digest|, |salt|;
    var H := h.hash(Zeros(8) + digest + salt);
    HashLengthOf(h, Zeros(8) + digest + salt);
    var pad := emLen - hLen - k - 2;
    var db := FillBlock(pad, salt);
    Mgf1Xor(h, db, H);
    ghost var masked := db[..];
    db[0] := LowBits(db[0], Keep(emBits));
    assert db[..] == ClearTop(masked, Keep(emBits));
    MaskedIs(h, Keep(emBits), Block(pad, salt), H);
    hide Block, ClearTop;
    em := db[..] + H + [0xbc];
  }

  /** Zeros, a one, and the salt. */
  method FillBlock(pad: nat, salt: Bytes) returns (db: array<Byte>)
    ensures fresh(db) && db[..] == Block(pad, salt)
  {
    hide Zeros;
    db := new Byte[pad + 1 + |salt|](_ => 0);
    db[pad] := 1;
    ZerosThenOne(db[..pad + 1], pad);
    CopyAt(db, pad + 1, salt);
    assert db[..] == db[..pad + 1] + db[pad + 1..];
  }

  lemma ZerosThenOne(b: Bytes, pad: nat)
    requires |b| == pad + 1 && (forall i | 0 <= i < pad :: b[i] == 0) && b[pad] == 1
    ensures b == Zeros(pad) + [1]
  {
  }

  lemma MaskedIs(h: Hashes, keep: nat, db: Bytes, H: Bytes)
    requires h.Valid() && db != [] && 1 <= keep <= 8
    ensures Masked(h, keep, db, H) == ClearTop(Xor(db, Mask(h, H, |db|)), keep)
  {
  }

  /** rsaPSSVerify: accepts exactly the signatures of the digest under a salt of an allowed length. */
  method PssVerify(h: Hashes, rsa: Rsa, digest: Bytes, sig: Bytes, saltLen: int) returns (ok: bool)
    requires h.Valid() && rsa.Valid() && |digest| == h.hLen
    ensures ok <==> |sig| == rsa.Size() && exists salt :: SignedWithSalt(h, rsa, digest, sig, saltLen, salt)
  {
    hide *;
    if |sig| != rsa.Size() {
      return false;
    }
    RsaIs(rsa);
    var emBits := rsa.EmBits();
    var emLen := EmLen(emBits);
    var m := rsa.pub(ToNat(sig));
    BitLenFits(m, emBits);
    SmallSignatures(h, rsa, digest, sig, saltLen);
    if BitLen(m) > emBits {
      return false;
    }
    var em := FromNat(m, emLen);
    var hLen := |digest|;
    NeedsRoom(h, rsa, digest, sig, saltLen);
    if emLen < hLen + 2 {
      return false;
    }
    ReadOff(h, rsa, digest, sig, saltLen);
    ok := CheckEncoding(h, emBits, digest, em, saltLen);
    if ok {
      ghost var salt :| Reads(h, emBits, digest, em, saltLen, salt);
      assert SignedWithSalt(h, rsa, digest, sig, saltLen, salt);
    }
  }

  /** The checks on the encoded message (section 9.1.2 of RFC 8017). */
  method CheckEncoding(h: Hashes, emBits: nat, digest: Bytes, em: Bytes, saltLen: int) returns (ok: bool)
    requires h.Valid() && |digest| == h.hLen && emBits > 0 && |em| == EmLen(emBits) >= h.hLen + 2
    ensures ok <==> exists salt :: Reads(h, emBits, digest, em, saltLen, salt)
  {
    hide *;
    var emLen, hLen := |em|, |digest|;
    if em[emLen - 1] != 0xbc {
      NoTrailer(h, emBits, digest, em, saltLen);
      return false;
    }
    var n := emLen - hLen - 1;
    var H := em[n..emLen - 1];
    var db := Unmask(h, emBits, em[..n], H);
    var read := FindSalt(db);
    if read.None? {
      NoSalt(h, emBits, digest, em, saltLen, db);
      return false;
    }
    var salt := read.value;
    SaltDecides(h, emBits, digest, em, saltLen, db, salt);
    if saltLen >= 0 && |salt| != saltLen {
      return false;
    }
    ok := h.hash(Zeros(8) + digest + salt) == H;
  }

  lemma NoTrailer(h: Hashes, emBits: nat, digest: Bytes, em: Bytes, saltLen: int)
    requires h.Valid() && emBits > 0 && |em| == EmLen(emBits) >= h.hLen + 2 && em[|em| - 1] != 0xbc
    ensures forall s :: !Reads(h, emBits, digest, em, saltLen, s)
  {
    hide Hashes.Valid, Masked, Block, EmLen, Keep, Zeros;
  }

  lemma NoSalt(h: Hashes, emBits: nat, digest: Bytes, em: Bytes, saltLen: int, db: Bytes)
    requires h.Valid() && emBits > 0 && |em| == EmLen(emBits) >= h.hLen + 2
    requires db == Masked(h, Keep(emBits), em[..|em| - h.hLen - 1], em[|em| - h.hLen - 1..|em| - 1])
    requires forall s: Bytes :: |s| < |db| ==> db != Block(|db| - |s| - 1, s)
    ensures forall s :: !Reads(h, emBits, digest, em, saltLen, s)
  {
    hide Hashes.Valid, Masked, Block, EmLen, Keep, Zeros;
  }

  /** Once the block is read, only its own salt can be the one signed with. */
  lemma SaltDecides(h: Hashes, emBits: nat, digest: Bytes, em: Bytes, saltLen: int, db: Bytes, salt: Bytes)
    requires h.Valid() && emBits > 0 && |em| == EmLen(emBits) >= h.hLen + 2 && em[|em| - 1] == 0xbc
    requires db == Masked(h, Keep(emBits), em[..|em| - h.hLen - 1], em[|em| - h.hLen - 1..|em| - 1])
    requires |salt| < |db| && db == Block(|db| - |salt| - 1, salt)
    ensures (exists s :: Reads(h, emBits, digest, em, saltLen, s)) <==>
      (saltLen >= 0 ==> |salt| == saltLen)
      && h.hash(Zeros(8) + digest + salt) == em[|em| - h.hLen - 1..|em| - 1]
  {
    hide Hashes.Valid, Masked, Block, EmLen, Keep, Zeros;
    forall s | Reads(h, emBits, digest, em, saltLen, s)
      ensures s == salt
    {
      BlockIsUnique(|db| - |salt| - 1, salt, |db| - |s| - 1, s);
    }
    if (saltLen >= 0 ==> |salt| == saltLen)
      && h.hash(Zeros(8) + digest + salt) == em[|em| - h.hLen - 1..|em| - 1] {
      assert Reads(h, emBits, digest, em, saltLen, salt);
    }
  }

  /** The mask is taken off a copy, and the unused high bits are cleared. */
  method Unmask(h: Hashes, emBits: nat, prefix: Bytes, H: Bytes) returns (out: Bytes)
    requires h.Valid() && prefix != [] && emBits > 0
    ensures out == Masked(h, Keep(emBits), prefix, H)
  {
    hide Hashes.Valid, Masked, Xor, LowBits;
    var db := new Byte[|prefix|](i requires 0 <= i < |prefix| => prefix[i]);
    assert db[..] == prefix;
    Mgf1Xor(h, db, H);
    ghost var masked := db[..];
    db[0] := LowBits(db[0], Keep(emBits));
    assert db[..] == ClearTop(masked, Keep(emBits));
    MaskedIs(h, Keep(emBits), prefix, H);
    out := db[..];
  }

  /** Skips zeros up to a one byte and returns what follows it. */
  method FindSalt(db: Bytes) returns (salt: Option<Bytes>)
    ensures salt.Some? ==> |salt.value| < |db| && db == Block(|db| - |salt.value| - 1, salt.value)
    ensures salt.None? ==> forall s: Bytes :: |s| < |db| ==> db != Block(|db| - |s| - 1, s)
  {
    var i := 0;
    while i < |db| && db[i] == 0
      invariant 0 <= i <= |db|
      invariant forall j :: 0 <= j < i ==> db[j] == 0
    {
      i := i + 1;
    }
    if i == |db| || db[i] != 1 {
      NoBlock(db, i);
      return None;
    }
    assert db == Block(i, db[i + 1..]);
    salt := Some(db[i + 1..]);
  }

  lemma RsaIs(rsa: Rsa)
    requires rsa.Valid()
    ensures rsa.n > 0
  {
  }

  lemma NeedsRoom(h: Hashes, rsa: Rsa, digest: Bytes, sig: Bytes, saltLen: int)
    requires h.Valid() && rsa.n > 0
    ensures forall salt :: SignedWithSalt(h, rsa, digest, sig, saltLen, salt) ==> EmLen(rsa.EmBits()) >= h.hLen + 2
  {
    hide EmLen, Hashes.Valid, Rsa.EmBits;
  }

  lemma BitLenFits(m: nat, bits: nat)
    ensures BitLen(m) > bits <==> m >= Pow2(bits)
  {
    hide Pow2, BitLen;
    if BitLen(m) <= bits {
      Pow2Mono(BitLen(m), bits);
    } else if m > 0 {
      Pow2Mono(bits, BitLen(m) - 1);
    } else {
      BitLenZero();
    }
  }

  lemma BitLenZero()
    ensures BitLen(0) == 0
  {
  }

  lemma Fills(m: nat, emBits: nat)
    requires m < Pow2(emBits)
    ensures ToNat(FromNat(m, EmLen(emBits))) == m
  {
    hide Pow2, Pow256, ToNat, FromNat;
    Pow256IsPow2(EmLen(emBits));
    Pow2Mono(emBits, 8 * EmLen(emBits));
    ToNatFromNat(m, EmLen(emBits));
  }

  lemma SmallSignatures(h: Hashes, rsa: Rsa, digest: Bytes, sig: Bytes, saltLen: int)
    requires h.Valid() && rsa.n > 0
    ensures forall salt :: SignedWithSalt(h, rsa, digest, sig, saltLen, salt) ==> rsa.pub(ToNat(sig)) < Pow2(rsa.EmBits())
  {
    hide ToNat, Encode, Hashes.Valid, BitLen, Pow2;
    forall salt | SignedWithSalt(h, rsa, digest, sig, saltLen, salt)
      ensures rsa.pub(ToNat(sig)) < Pow2(rsa.EmBits())
    {
      EncodingIsSmall(h, rsa.EmBits(), digest, salt);
    }
  }

  /** The bytes em unmask to a block holding salt, whose hash matches. */
  ghost predicate Reads(h: Hashes, emBits: nat, digest: Bytes, em: Bytes, saltLen: int, salt: Bytes)
    requires h.Valid() && emBits > 0 && |em| == EmLen(emBits) >= h.hLen + 2
  {
    var n := |em| - h.hLen - 1;
    && (saltLen >= 0 ==> |salt| == saltLen)
    && |salt| < n
    && em[|em| - 1] == 0xbc
    && Masked(h, Keep(emBits), em[..n], em[n..|em| - 1]) == Block(n - |salt| - 1, salt)
    && h.hash(Zeros(8) + digest + salt) == em[n..|em| - 1]
  }

  /** Being signed with a salt is a matter of the bytes the verifier unmasks. */
  lemma ReadOff(h: Hashes, rsa: Rsa, digest: Bytes, sig: Bytes, saltLen: int)
    requires h.Valid() && rsa.n > 0
    requires rsa.pub(ToNat(sig)) < Pow2(rsa.EmBits()) && EmLen(rsa.EmBits()) >= h.hLen + 2
    ensures rsa.EmBits() > 0
    ensures var em := FromNat(rsa.pub(ToNat(sig)), EmLen(rsa.EmBits()));
      forall salt :: SignedWithSalt(h, rsa, digest, sig, saltLen, salt) <==>
        Reads(h, rsa.EmBits(), digest, em, saltLen, salt)
  {
    hide ToNat, FromNat, Encode, Hashes.Valid, Pow2, Masked, Block, Rsa.EmBits, Zeros;
    var m, emBits := rsa.pub(ToNat(sig)), rsa.EmBits();
    var em, n := FromNat(m, EmLen(emBits)), EmLen(emBits) - h.hLen - 1;
    Fills(m, emBits);
    forall salt: Bytes
      ensures SignedWithSalt(h, rsa, digest, sig, saltLen, salt) <==> Reads(h, emBits, digest, em, saltLen, salt)
    {
      if |salt| < n {
        FromNatToNat(Encode(h, emBits, digest, salt));
        DecodesExactly(h, emBits, digest, em, salt);
      }
    }
  }

  lemma NoBlock(db: Bytes, i: nat)
    requires i <= |db| && (forall j :: 0 <= j < i ==> db[j] == 0) && (i < |db| ==> db[i] != 0 && db[i] != 1)
    ensures forall salt: Bytes :: |salt| < |db| ==> db != Block(|db| - |salt| - 1, salt)
  {
    forall salt: Bytes | |salt| < |db|
      ensures db != Block(|db| - |salt| - 1, salt)
    {
      var pad := |db| - |salt| - 1;
      var b := Block(pad, salt);
      assert b[pad] == 1;
      assert i < pad ==> b[i] == 0;
    }
  }

  /** Signing and verifying with the same option: accepted except when salt length 0 meant "maximum" while signing. */
  method SignThenVerify(h: Hashes, rsa: Rsa, digest: Bytes, saltLen: int, random: nat -> Bytes)
    returns (sig: Result<Bytes, string>, ok: bool)
    requires h.Valid() && rsa.Valid() && |digest| == h.hLen
    requires forall k :: |random(k)| == k
    ensures var k := SignSaltLength(EmLen(rsa.EmBits()), h.hLen, saltLen);
      sig.Ok? <==> (k >= 0 && Fits(h, rsa.EmBits(), k))
    ensures sig.Ok? ==> (ok <==> saltLen != SALT_AUTO || EmLen(rsa.EmBits()) == h.hLen + 2)
  {
    hide *;
    RsaIs(rsa);
    sig := PssSign(h, rsa, digest, saltLen, random);
    ok := false;
    if sig.Ok? {
      var k := SignSaltLength(EmLen(rsa.EmBits()), h.hLen, saltLen);
      SignatureIsRead(h, rsa, digest, random(k), sig.value);
      ok := PssVerify(h, rsa, digest, sig.value, saltLen);
      VerifierAgrees(h, rsa, digest, sig.value, saltLen, random(k));
    }
  }

  /** The signature value opens to the encoding it was made from. */
  lemma SignatureIsRead(h: Hashes, rsa: Rsa, digest: Bytes, salt: Bytes, sig: Bytes)
    requires h.Valid() && rsa.Valid() && Fits(h, rsa.EmBits(), |salt|)
    requires sig == FromNat(rsa.priv(ToNat(Encode(h, rsa.EmBits(), digest, salt))), rsa.Size())
    ensures rsa.pub(ToNat(sig)) == ToNat(Encode(h, rsa.EmBits(), digest, salt))
  {
    hide Hashes.Valid, Encode, ToNat, FromNat, Pow2, BitLen, Fits;
    var m := ToNat(Encode(h, rsa.EmBits(), digest, salt));
    EncodingIsSmall(h, rsa.EmBits(), digest, salt);
    assert m < rsa.n;
    FitsInSize(rsa, rsa.priv(m));
  }

  lemma FitsInSize(rsa: Rsa, s: nat)
    requires s < rsa.n
    ensures ToNat(FromNat(s, rsa.Size())) == s
  {
    hide ToNat, FromNat, Pow2, Pow256, BitLen;
    Pow2Mono(BitLen(rsa.n), 8 * rsa.Size());
    Pow256IsPow2(rsa.Size());
    ToNatFromNat(s, rsa.Size());
  }

  /** A signature made with this salt is accepted exactly when its length is an allowed one. */
  lemma VerifierAgrees(h: Hashes, rsa: Rsa, digest: Bytes, sig: Bytes, saltLen: int, salt: Bytes)
    requires h.Valid() && rsa.n > 0 && Fits(h, rsa.EmBits(), |salt|)
    requires rsa.pub(ToNat(sig)) == ToNat(Encode(h, rsa.EmBits(), digest, salt))
    requires |salt| == SignSaltLength(EmLen(rsa.EmBits()), h.hLen, saltLen)
    ensures (exists s :: SignedWithSalt(h, rsa, digest, sig, saltLen, s))
      <==> saltLen != SALT_AUTO || EmLen(rsa.EmBits()) == h.hLen + 2
  {
    hide Hashes.Valid, Encode, ToNat, Rsa.EmBits, Pow2;
    if saltLen != SALT_AUTO || |salt| == 0 {
      assert SignedWithSalt(h, rsa, digest, sig, saltLen, salt);
    }
    forall s | SignedWithSalt(h, rsa, digest, sig, saltLen, s)
      ensures s == salt
    {
      EncodingIsInjective(h, rsa.EmBits(), digest, s, salt);
    }
  }

  /** Different salts give different encodings. */
  lemma EncodingIsInjective(h: Hashes, emBits: nat, digest: Bytes, s: Bytes, salt: Bytes)
    requires h.Valid() && Fits(h, emBits, |s|) && Fits(h, emBits, |salt|)
    requires ToNat(Encode(h, emBits, digest, s)) == ToNat(Encode(h, emBits, digest, salt))
    ensures s == salt
  {
    hide Hashes.Valid, Encode, ToNat, Pow2, Masked, Block;
    var em := Encode(h, emBits, digest, salt);
    FromNatToNat(em);
    FromNatToNat(Encode(h, emBits, digest, s));
    EncodingIsSmall(h, emBits, digest, salt);
    DecodesExactly(h, emBits, digest, em, salt);
    DecodesExactly(h, emBits, digest, em, s);
    var n := |em| - h.hLen - 1;
    BlockIsUnique(n - |salt| - 1, salt, n - |s| - 1, s);
  }
}
