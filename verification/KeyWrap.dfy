/** AES key wrap (RFC 3394) and key wrap with padding (RFC 5649) over an abstract 16-byte permutation. */
module KeyWrap {
  import opened Arith
  import opened Bytes
  import opened BlockCiphers
  import opened Wrappers

  /** The 64-bit register and the 64-bit blocks, in one byte string. */
  datatype State = State(a: Bytes, r: Bytes) {
    predicate Shaped(n: nat) {
      |a| == 8 && |r| == 8 * n
    }
  }

  ghost predicate Cipher16(c: BlockCipher) {
    c.Valid() && c.size == 16
  }

  // ---- one step and its inverse ----

  /** Step k of 6n touches block k mod n and mixes in the counter k + 1 as a big-endian uint64. */
  ghost function WrapStep(c: BlockCipher, s: State, n: nat, k: nat): (s': State)
    requires Cipher16(c) && n > 0 && s.Shaped(n)
    ensures s'.Shaped(n)
  {
    var o := 8 * (k % n);
    var block := s.a + s.r[o..o + 8];
    c.Inverse(block);
    var b := c.encrypt(block);
    State(Xor(b[..8], FromNat(k + 1, 8)), Splice(s.r, o, b[8..]))
  }

  ghost function UnwrapStep(c: BlockCipher, s: State, n: nat, k: nat): (s': State)
    requires Cipher16(c) && n > 0 && s.Shaped(n)
    ensures s'.Shaped(n)
  {
    var o := 8 * (k % n);
    var block := Xor(s.a, FromNat(k + 1, 8)) + s.r[o..o + 8];
    c.Inverse(block);
    var b := c.decrypt(block);
    State(b[..8], Splice(s.r, o, b[8..]))
  }

  lemma StepsInvert(c: BlockCipher, s: State, n: nat, k: nat)
    requires Cipher16(c) && n > 0 && s.Shaped(n)
    ensures UnwrapStep(c, WrapStep(c, s, n, k), n, k) == s
    ensures WrapStep(c, UnwrapStep(c, s, n, k), n, k) == s
  {
    var o := 8 * (k % n);
    var t := FromNat(k + 1, 8);
    var chunk := s.r[o..o + 8];
    UnwrapAfterWrap(c, s, o, t, chunk);
    WrapAfterUnwrap(c, s, o, t, chunk);
  }

  lemma UnwrapAfterWrap(c: BlockCipher, s: State, o: nat, t: Bytes, chunk: Bytes)
    requires Cipher16(c) && |s.a| == |t| == 8 && o + 8 <= |s.r| && chunk == s.r[o..o + 8]
    ensures var b := c.encrypt(s.a + chunk);
            && |b| == 16
            && Xor(Xor(b[..8], t), t) + Splice(s.r, o, b[8..])[o..o + 8] == b
            && c.decrypt(b) == s.a + chunk
            && Splice(Splice(s.r, o, b[8..]), o, chunk) == s.r
  {
    c.Inverse(s.a + chunk);
    var b := c.encrypt(s.a + chunk);
    XorCancels(b[..8], t);
    SpliceBack(s.r, o, b[8..]);
    assert b[..8] + b[8..] == b;
  }

  lemma WrapAfterUnwrap(c: BlockCipher, s: State, o: nat, t: Bytes, chunk: Bytes)
    requires Cipher16(c) && |s.a| == |t| == 8 && o + 8 <= |s.r| && chunk == s.r[o..o + 8]
    ensures var b := c.decrypt(Xor(s.a, t) + chunk);
            && |b| == 16
            && b[..8] + Splice(s.r, o, b[8..])[o..o + 8] == b
            && c.encrypt(b) == Xor(s.a, t) + chunk
            && Xor(Xor(s.a, t), t) == s.a
            && Splice(Splice(s.r, o, b[8..]), o, chunk) == s.r
  {
    c.Inverse(Xor(s.a, t) + chunk);
    var b := c.decrypt(Xor(s.a, t) + chunk);
    XorCancels(s.a, t);
    SpliceBack(s.r, o, b[8..]);
    assert b[..8] + b[8..] == b;
  }

  // ---- all steps ----

  ghost function WrapSteps(c: BlockCipher, s: State, n: nat, k: nat): (s': State)
    requires Cipher16(c) && n > 0 && s.Shaped(n)
    ensures s'.Shaped(n)
  {
    if k == 0 then s else WrapStep(c, WrapSteps(c, s, n, k - 1), n, k - 1)
  }

  ghost function UnwrapSteps(c: BlockCipher, s: State, n: nat, k: nat): (s': State)
    requires Cipher16(c) && n > 0 && s.Shaped(n)
    ensures s'.Shaped(n)
    decreases k
  {
    if k == 0 then s else UnwrapSteps(c, UnwrapStep(c, s, n, k - 1), n, k - 1)
  }

  lemma {:induction false} UnwrapUndoesWrap(c: BlockCipher, s: State, n: nat, k: nat)
    requires Cipher16(c) && n > 0 && s.Shaped(n)
    ensures UnwrapSteps(c, WrapSteps(c, s, n, k), n, k) == s
  {
    hide WrapStep, UnwrapStep;
    if k > 0 {
      StepsInvert(c, WrapSteps(c, s, n, k - 1), n, k - 1);
      UnwrapUndoesWrap(c, s, n, k - 1);
    }
  }

  lemma {:induction false} WrapUndoesUnwrap(c: BlockCipher, s: State, n: nat, k: nat)
    requires Cipher16(c) && n > 0 && s.Shaped(n)
    ensures WrapSteps(c, UnwrapSteps(c, s, n, k), n, k) == s
    decreases k
  {
    hide WrapStep, UnwrapStep;
    if k > 0 {
      WrapUndoesUnwrap(c, UnwrapStep(c, s, n, k - 1), n, k - 1);
      StepsInvert(c, s, n, k - 1);
    }
  }

  // ---- the in-place loops ----

  /** aesWrapCore: six rounds over the blocks of p, in place. */
  method WrapCore(c: BlockCipher, a: Bytes, p: Bytes) returns (out: Bytes)
    requires Cipher16(c) && |a| == 8 && |p| > 0 && |p| % 8 == 0
    ensures out == Wrapped(c, a, p, |p| / 8)
  {
    hide *;
    var n := |p| / 8;
    WrappedIs(c, a, p, n);
    var r := new Byte[|p|](i requires 0 <= i < |p| => p[i]);
    assert r[..] == p;
    var A := a;
    ghost var s0 := State(a, p);
    WrapStepsNext(c, s0, n, 0);
    NextRound(n, 0);
    for j := 0 to 6
      invariant |A| == 8 && State(A, r[..]) == WrapSteps(c, s0, n, n * j)
    {
      for i := 0 to n
        invariant |A| == 8 && State(A, r[..]) == WrapSteps(c, s0, n, n * j + i)
      {
        StepIndex(n, j, i);
        WrapStepsNext(c, s0, n, n * j + i);
        WrapStepIs(c, State(A, r[..]), n, n * j + i, i);
        var b := A + r[i * 8..i * 8 + 8];
        b := c.encrypt(b);
        A := Xor(b[..8], FromNat(n * j + i + 1, 8));
        CopyAt(r, i * 8, b[8..]);
      }
      NextRound(n, j);
    }
    out := A + r[..];
  }

  /** aesUnwrapCore: the same steps backwards. */
  method UnwrapCore(c: BlockCipher, ct: Bytes) returns (a: Bytes, p: Bytes)
    requires Cipher16(c) && |ct| >= 16 && |ct| % 8 == 0
    ensures (a, p) == Unwrapped(c, ct, |ct| / 8 - 1)
  {
    hide *;
    var n := |ct| / 8 - 1;
    UnwrappedIs(c, ct, n);
    var A := ct[..8];
    var r := new Byte[|ct| - 8](i requires 0 <= i < |ct| - 8 => ct[8 + i]);
    assert r[..] == ct[8..];
    ghost var whole := UnwrapSteps(c, State(A, r[..]), n, 6 * n);
    var j := 5;
    while j >= 0
      invariant -1 <= j <= 5 && |A| == 8 && State(A, r[..]).Shaped(n)
      invariant UnwrapSteps(c, State(A, r[..]), n, n * (j + 1)) == whole
    {
      var i := n - 1;
      assert n * (j + 1) == n * j + i + 1;
      while i >= 0
        invariant -1 <= i <= n - 1 && |A| == 8 && State(A, r[..]).Shaped(n)
        invariant UnwrapSteps(c, State(A, r[..]), n, n * j + i + 1) == whole
      {
        StepIndex(n, j, i);
        UnwrapStepsNext(c, State(A, r[..]), n, n * j + i);
        UnwrapStepIs(c, State(A, r[..]), n, n * j + i, i);
        var b := Xor(A, FromNat(n * j + i + 1, 8)) + r[i * 8..i * 8 + 8];
        b := c.decrypt(b);
        A := b[..8];
        CopyAt(r, i * 8, b[8..]);
        i := i - 1;
      }
      j := j - 1;
    }
    UnwrapStepsNext(c, State(A, r[..]), n, 0);
    a, p := A, r[..];
  }

  lemma WrapStepsNext(c: BlockCipher, s: State, n: nat, k: nat)
    requires Cipher16(c) && n > 0 && s.Shaped(n)
    ensures WrapSteps(c, s, n, 0) == s
    ensures WrapSteps(c, s, n, k).Shaped(n)
    ensures WrapSteps(c, s, n, k + 1) == WrapStep(c, WrapSteps(c, s, n, k), n, k)
  {
  }

  lemma UnwrapStepsNext(c: BlockCipher, s: State, n: nat, k: nat)
    requires Cipher16(c) && n > 0 && s.Shaped(n)
    ensures UnwrapSteps(c, s, n, 0) == s
    ensures UnwrapStep(c, s, n, k).Shaped(n)
    ensures UnwrapSteps(c, s, n, k + 1) == UnwrapSteps(c, UnwrapStep(c, s, n, k), n, k)
  {
  }

  lemma NextRound(n: nat, j: nat)
    ensures n * (j + 1) == n * j + n && n * 0 == 0 && n * 6 == 6 * n
  {
  }

  lemma StepIndex(n: nat, j: nat, i: nat)
    requires i < n
    ensures (n * j + i) % n == i
  {
    DivModUnique(j, n, i);
    assert j * n == n * j;
  }

  lemma WrapStepIs(c: BlockCipher, s: State, n: nat, k: nat, i: nat)
    requires Cipher16(c) && s.Shaped(n) && i < n && k % n == i
    ensures var b := c.encrypt(s.a + s.r[i * 8..i * 8 + 8]);
            && |b| == 16
            && WrapStep(c, s, n, k) == State(Xor(b[..8], FromNat(k + 1, 8)), Splice(s.r, i * 8, b[8..]))
  {
    c.Inverse(s.a + s.r[i * 8..i * 8 + 8]);
  }

  lemma UnwrapStepIs(c: BlockCipher, s: State, n: nat, k: nat, i: nat)
    requires Cipher16(c) && s.Shaped(n) && i < n && k % n == i
    ensures var b := c.decrypt(Xor(s.a, FromNat(k + 1, 8)) + s.r[i * 8..i * 8 + 8]);
            && |b| == 16
            && UnwrapStep(c, s, n, k) == State(b[..8], Splice(s.r, i * 8, b[8..]))
  {
    c.Inverse(Xor(s.a, FromNat(k + 1, 8)) + s.r[i * 8..i * 8 + 8]);
  }

  /** All 6n steps on the n blocks of p. */
  ghost function Wrapped(c: BlockCipher, a: Bytes, p: Bytes, n: nat): (out: Bytes)
    requires Cipher16(c) && |a| == 8 && |p| == 8 * n && n > 0
    ensures |out| == 8 * n + 8
  {
    var s := WrapSteps(c, State(a, p), n, 6 * n);
    s.a + s.r
  }

  ghost function Unwrapped(c: BlockCipher, ct: Bytes, n: nat): (ap: (Bytes, Bytes))
    requires Cipher16(c) && |ct| == 8 * n + 8 && n > 0
    ensures |ap.0| == 8 && |ap.1| == 8 * n
  {
    var s := UnwrapSteps(c, State(ct[..8], ct[8..]), n, 6 * n);
    (s.a, s.r)
  }

  lemma WrappedIs(c: BlockCipher, a: Bytes, p: Bytes, n: nat)
    requires Cipher16(c) && |a| == 8 && |p| == 8 * n && n > 0
    ensures State(a, p).Shaped(n)
    ensures var s := WrapSteps(c, State(a, p), n, 6 * n);
            Wrapped(c, a, p, n) == s.a + s.r && s.Shaped(n) && |s.a| == 8 && |s.r| == 8 * n
  {
  }

  lemma UnwrappedIs(c: BlockCipher, ct: Bytes, n: nat)
    requires Cipher16(c) && |ct| == 8 * n + 8 && n > 0
    ensures State(ct[..8], ct[8..]).Shaped(n)
    ensures var s := UnwrapSteps(c, State(ct[..8], ct[8..]), n, 6 * n);
            Unwrapped(c, ct, n) == (s.a, s.r) && s.Shaped(n) && |s.a| == 8 && |s.r| == 8 * n
  {
  }

  lemma UnwrappedOfWrapped(c: BlockCipher, a: Bytes, p: Bytes, n: nat)
    requires Cipher16(c) && |a| == 8 && |p| == 8 * n && n > 0
    ensures Unwrapped(c, Wrapped(c, a, p, n), n) == (a, p)
  {
    hide *;
    WrappedIs(c, a, p, n);
    UnwrapUndoesWrap(c, State(a, p), n, 6 * n);
    var s := WrapSteps(c, State(a, p), n, 6 * n);
    var out := s.a + s.r;
    assert out[..8] == s.a && out[8..] == s.r;
    UnwrappedIs(c, out, n);
  }

  lemma WrappedOfUnwrapped(c: BlockCipher, a: Bytes, p: Bytes, n: nat)
    requires Cipher16(c) && |a| == 8 && |p| == 8 * n && n > 0
    ensures var (a', p') := Unwrapped(c, a + p, n);
            Wrapped(c, a', p', n) == a + p
  {
    hide *;
    var ct := a + p;
    assert ct[..8] == a && ct[8..] == p;
    UnwrappedIs(c, ct, n);
    WrapUndoesUnwrap(c, State(a, p), n, 6 * n);
    var u := UnwrapSteps(c, State(a, p), n, 6 * n);
    WrappedIs(c, u.a, u.r, n);
  }

  // ---- RFC 3394 ----

  function DefaultIv(): Bytes {
    [0xa6, 0xa6, 0xa6, 0xa6, 0xa6, 0xa6, 0xa6, 0xa6]
  }

  function Iv8(iv: Bytes): (r: Bytes)
    ensures |r| == 8
  {
    if |iv| != 8 then DefaultIv() else iv
  }

  ghost function Wrap(c: BlockCipher, iv: Bytes, p: Bytes): Option<Bytes>
    requires Cipher16(c)
  {
    if |p| < 16 || |p| % 8 != 0 then None else Some(Wrapped(c, Iv8(iv), p, |p| / 8))
  }

  ghost function Unwrap(c: BlockCipher, iv: Bytes, ct: Bytes): Option<Bytes>
    requires Cipher16(c)
  {
    if |ct| < 24 || |ct| % 8 != 0 then None
    else
      var (a, p) := Unwrapped(c, ct, |ct| / 8 - 1);
      if a != Iv8(iv) then None else Some(p)
  }

  /** Unwrapping what was wrapped returns the key, for every length wrap accepts. */
  lemma UnwrapOfWrap(c: BlockCipher, iv: Bytes, p: Bytes)
    requires Cipher16(c)
    ensures Wrap(c, iv, p).Some? <==> |p| >= 16 && |p| % 8 == 0
    ensures Wrap(c, iv, p).Some? ==> Unwrap(c, iv, Wrap(c, iv, p).value) == Some(p)
  {
    hide Wrapped, Unwrapped;
    if |p| >= 16 && |p| % 8 == 0 {
      UnwrappedOfWrapped(c, Iv8(iv), p, |p| / 8);
    }
  }

  /** Whatever unwrap accepts is the wrapping of what it returned: no second ciphertext unwraps to it. */
  lemma WrapOfUnwrap(c: BlockCipher, iv: Bytes, ct: Bytes)
    requires Cipher16(c) && Unwrap(c, iv, ct).Some?
    ensures Wrap(c, iv, Unwrap(c, iv, ct).value) == Some(ct)
  {
    hide Wrapped, Unwrapped;
    assert ct == ct[..8] + ct[8..];
    WrappedOfUnwrapped(c, ct[..8], ct[8..], |ct| / 8 - 1);
  }

  // ---- RFC 5649 ----

  function Padded(p: Bytes): (r: Bytes)
    ensures |r| % 8 == 0 && |p| <= |r| < |p| + 8 && r[..|p|] == p
    ensures forall i :: |p| <= i < |r| ==> r[i] == 0
  {
    p + Zeros((8 - |p| % 8) % 8)
  }

  /** The alternative initial value: a four-byte prefix, then the length as a big-endian uint32. */
  function Prefix(iv: Bytes): (r: Bytes)
    ensures |r| == 4
  {
    if |iv| == 4 then iv else [0xa6, 0x59, 0x59, 0xa6]
  }

  function Aiv(iv: Bytes, length: nat): (r: Bytes)
    ensures |r| == 8
  {
    Prefix(iv) + FromNat(length, 4)
  }

  ghost function WrapPad(c: BlockCipher, iv: Bytes, p: Bytes): Option<Bytes>
    requires Cipher16(c)
  {
    if p == [] then None
    else Some(SealPad(c, Aiv(iv, |p|), Padded(p), |Padded(p)| / 8))
  }

  ghost function OpenPad(c: BlockCipher, ct: Bytes, n: nat): (ap: (Bytes, Bytes))
    requires Cipher16(c) && |ct| == 8 * n + 8 && n > 0
    ensures |ap.0| == 8 && |ap.1| == 8 * n
  {
    if n == 1 then
      c.Inverse(ct);
      var b := c.decrypt(ct);
      (b[..8], b[8..])
    else Unwrapped(c, ct, n)
  }

  ghost function UnwrapPad(c: BlockCipher, iv: Bytes, ct: Bytes): Option<Bytes>
    requires Cipher16(c)
  {
    if |ct| < 16 || |ct| % 8 != 0 then None
    else
      var (a, p) := OpenPad(c, ct, |ct| / 8 - 1);
      if a[..4] != Prefix(iv) then None
      else
        var mli := ToNat(a[4..]);
        if mli > |p| || mli <= |p| - 8 then None
        else if exists i :: mli <= i < |p| && p[i] != 0 then None
        else Some(p[..mli])
  }

  /** What WrapPad does after padding: a single block, or the core. */
  ghost function SealPad(c: BlockCipher, a: Bytes, p: Bytes, n: nat): (ct: Bytes)
    requires Cipher16(c) && |a| == 8 && |p| == 8 * n && n > 0
    ensures |ct| == 8 * n + 8
  {
    if n == 1 then
      c.Inverse(a + p);
      c.encrypt(a + p)
    else Wrapped(c, a, p, n)
  }

  lemma OpenOfSeal(c: BlockCipher, a: Bytes, p: Bytes, n: nat)
    requires Cipher16(c) && |a| == 8 && |p| == 8 * n && n > 0
    ensures OpenPad(c, SealPad(c, a, p, n), n) == (a, p)
  {
    hide Wrapped, Unwrapped;
    if n == 1 {
      c.Inverse(a + p);
      assert (a + p)[..8] == a && (a + p)[8..] == p;
    } else {
      UnwrappedOfWrapped(c, a, p, n);
    }
  }

  lemma SealOfOpen(c: BlockCipher, ct: Bytes, n: nat)
    requires Cipher16(c) && |ct| == 8 * n + 8 && n > 0
    ensures var (a, p) := OpenPad(c, ct, n);
            SealPad(c, a, p, n) == ct
  {
    hide Wrapped, Unwrapped;
    if n == 1 {
      c.Inverse(ct);
      var b := c.decrypt(ct);
      assert b[..8] + b[8..] == b;
    } else {
      assert ct == ct[..8] + ct[8..];
      WrappedOfUnwrapped(c, ct[..8], ct[8..], n);
    }
  }

  /**
   The padded round trip holds exactly for the lengths a uint32 can carry. Beyond them the length
   field is truncated and unwrap rejects the wrapped key.
   */
  lemma UnwrapPadOfWrapPad(c: BlockCipher, iv: Bytes, p: Bytes)
    requires Cipher16(c) && p != []
    ensures WrapPad(c, iv, p).Some?
    ensures UnwrapPad(c, iv, WrapPad(c, iv, p).value) == (if |p| < 0x1_0000_0000 then Some(p) else None)
  {
    hide SealPad, OpenPad, Cipher16, Prefix, Padded;
    var padded, a := Padded(p), Aiv(iv, |p|);
    OpenOfSeal(c, a, padded, |padded| / 8);
    assert a[..4] == Prefix(iv) && a[4..] == FromNat(|p|, 4);
    LengthField(|p|);
  }

  lemma LengthField(n: nat)
    ensures n < 0x1_0000_0000 ==> ToNat(FromNat(n, 4)) == n
    ensures ToNat(FromNat(n, 4)) < 0x1_0000_0000
    ensures n >= 0x1_0000_0000 ==> ToNat(FromNat(n, 4)) + 8 <= n
  {
    assert Pow256(4) == 0x1_0000_0000 by {
      assert Pow256(2) == 65536;
    }
    ToNatBound(FromNat(n, 4));
    if n < 0x1_0000_0000 {
      ToNatFromNat(n, 4);
    } else {
      LowDigits(n);
    }
  }

  lemma LowDigits(n: nat)
    ensures ToNat(FromNat(n, 4)) == n % 0x1_0000_0000
  {
    assert Pow256(4) == 0x1_0000_0000 by {
      assert Pow256(2) == 65536;
    }
    FromNatDropsHigh(n, n % 0x1_0000_0000, n / 0x1_0000_0000, 4);
    ToNatFromNat(n % 0x1_0000_0000, 4);
  }

  lemma {:induction false} FromNatDropsHigh(n: nat, low: nat, high: nat, len: nat)
    requires n == high * Pow256(len) + low
    ensures FromNat(n, len) == FromNat(low, len)
    decreases len
  {
    if len > 0 {
      var m := high * Pow256(len - 1);
      assert high * Pow256(len) == 256 * m by {
        assert high * (256 * Pow256(len - 1)) == 256 * (high * Pow256(len - 1));
      }
      assert n / 256 == m + low / 256 && n % 256 == low % 256;
      FromNatDropsHigh(n / 256, low / 256, high, len - 1);
    }
  }

  /** Whatever padded unwrap accepts is the padded wrapping of what it returned. */
  lemma WrapPadOfUnwrapPad(c: BlockCipher, iv: Bytes, ct: Bytes)
    requires Cipher16(c) && UnwrapPad(c, iv, ct).Some?
    ensures WrapPad(c, iv, UnwrapPad(c, iv, ct).value) == Some(ct)
  {
    hide SealPad, OpenPad, Cipher16, Prefix;
    SealOfOpen(c, ct, |ct| / 8 - 1);
    var (a, padded) := OpenPad(c, ct, |ct| / 8 - 1);
    var mli := ToNat(a[4..]);
    FromNatToNat(a[4..]);
    assert a == a[..4] + a[4..] == Aiv(iv, mli);
    PaddingIsUnique(padded, mli);
  }

  lemma PaddingIsUnique(padded: Bytes, mli: nat)
    requires |padded| % 8 == 0 && |padded| - 8 < mli <= |padded|
    requires forall i :: mli <= i < |padded| ==> padded[i] == 0
    ensures Padded(padded[..mli]) == padded
  {
  }
}
