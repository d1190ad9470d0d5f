/** The wraps of section 2.2.1 of RFC 3394 and section 4.1 of RFC 5649, register by register. */
module KeyWrapStandard {
  import opened Bytes
  import opened BlockCiphers
  import opened Wrappers
  import opened KeyWrap

  /**
   Step k encrypts the register behind A, number k mod n: the low half of the result stays in it, and the high half, with
   the counter k + 1 mixed in, becomes A.
   */
  ghost predicate Stepped(c: BlockCipher, n: nat, k: nat, s: State, s': State)
    requires n > 0
  {
    var o := 8 * (k % n);
    && |s.a| == |s'.a| == 8 && |s.r| == |s'.r| == 8 * n
    && o + 8 <= 8 * n
    && var b := c.encrypt(s.a + s.r[o..o + 8]);
       && |b| == 16 && s'.a == Xor(b[..8], FromNat(k + 1, 8)) && s'.r[o..o + 8] == b[8..]
       && s'.r[..o] == s.r[..o] && s'.r[o + 8..] == s.r[o + 8..]
  }

  /** Six rounds over the n registers. */
  ghost predicate SixRounds(c: BlockCipher, a: Bytes, p: Bytes, states: seq<State>) {
    var n := |p| / 8;
    && n > 0 && |states| == 6 * n + 1 && states[0] == State(a, p)
    && forall k | 0 <= k < 6 * n :: Stepped(c, n, k, states[k], states[k + 1])
  }

  lemma WrapStepIsStandard(c: BlockCipher, s: State, n: nat, k: nat)
    requires Cipher16(c) && n > 0 && s.Shaped(n)
    ensures Stepped(c, n, k, s, WrapStep(c, s, n, k))
  {
    hide Xor, FromNat;
    var o := 8 * (k % n);
    c.Inverse(s.a + s.r[o..o + 8]);
  }

  lemma {:induction false} TraceOf(c: BlockCipher, s: State, n: nat, k: nat) returns (states: seq<State>)
    requires Cipher16(c) && n > 0 && s.Shaped(n)
    ensures |states| == k + 1 && states[0] == s && states[k] == WrapSteps(c, s, n, k)
    ensures forall j | 0 <= j < k :: Stepped(c, n, j, states[j], states[j + 1])
    decreases k
  {
    hide Stepped, WrapStep;
    if k == 0 {
      states := [s];
    } else {
      var before := TraceOf(c, s, n, k - 1);
      WrapStepIsStandard(c, before[k - 1], n, k - 1);
      states := before + [WrapStep(c, before[k - 1], n, k - 1)];
    }
  }

  lemma WrappedIsStandard(c: BlockCipher, a: Bytes, p: Bytes, n: nat) returns (states: seq<State>)
    requires Cipher16(c) && |a| == 8 && |p| == 8 * n && n > 0
    ensures SixRounds(c, a, p, states) && Wrapped(c, a, p, n) == states[6 * n].a + states[6 * n].r
  {
    hide Stepped, WrapSteps;
    WrappedIs(c, a, p, n);
    states := TraceOf(c, State(a, p), n, 6 * n);
  }

  /** The key wrap: six rounds from the given initial value of eight bytes, or else from the default one; then A and the registers. */
  lemma WrapIsStandard(c: BlockCipher, iv: Bytes, p: Bytes) returns (states: seq<State>)
    requires Cipher16(c) && |p| >= 16 && |p| % 8 == 0
    ensures SixRounds(c, if |iv| == 8 then iv else [0xa6, 0xa6, 0xa6, 0xa6, 0xa6, 0xa6, 0xa6, 0xa6], p, states)
    ensures Wrap(c, iv, p) == Some(states[|states| - 1].a + states[|states| - 1].r)
  {
    hide SixRounds, Wrapped;
    states := WrappedIsStandard(c, Iv8(iv), p, |p| / 8);
    LastState(c, Iv8(iv), p, states);
  }

  lemma LastState(c: BlockCipher, a: Bytes, p: Bytes, states: seq<State>)
    requires SixRounds(c, a, p, states)
    ensures |states| == 6 * (|p| / 8) + 1
  {
  }

  /**
   The padded wrap: the key is filled up with zero bytes to whole registers; the initial value is the prefix, given or
   default, and the length in four bytes. One register is encrypted with it at once, more go through the six rounds.
   */
  lemma WrapPadIsStandard(c: BlockCipher, iv: Bytes, p: Bytes) returns (a: Bytes, padded: Bytes, states: seq<State>)
    requires Cipher16(c) && p != []
    ensures a == (if |iv| == 4 then iv else [0xa6, 0x59, 0x59, 0xa6]) + FromNat(|p|, 4)
    ensures |padded| % 8 == 0 && |p| <= |padded| < |p| + 8 && padded[..|p|] == p
    ensures forall i | |p| <= i < |padded| :: padded[i] == 0
    ensures |padded| == 8 ==> WrapPad(c, iv, p) == Some(c.encrypt(a + padded))
    ensures |padded| > 8 ==>
      SixRounds(c, a, padded, states) && WrapPad(c, iv, p) == Some(states[|states| - 1].a + states[|states| - 1].r)
  {
    hide SixRounds, Wrapped, FromNat;
    a, padded, states := Aiv(iv, |p|), Padded(p), [];
    if |padded| > 8 {
      states := WrappedIsStandard(c, a, padded, |padded| / 8);
      LastState(c, a, padded, states);
    }
  }

  /** Unwrapping is no more and no less than undoing the wrap. */
  lemma UnwrapIsInverse(c: BlockCipher, iv: Bytes, ct: Bytes, p: Bytes)
    requires Cipher16(c)
    ensures Unwrap(c, iv, ct) == Some(p) <==> Wrap(c, iv, p) == Some(ct)
  {
    hide Wrap, Unwrap;
    if Wrap(c, iv, p) == Some(ct) {
      UnwrapOfWrap(c, iv, p);
    }
    if Unwrap(c, iv, ct) == Some(p) {
      WrapOfUnwrap(c, iv, ct);
    }
  }
}
