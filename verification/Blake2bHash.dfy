/** Argon2's variable-length hash H' over an abstract BLAKE2b (RFC 9106 section 3.3). */
module Blake2bHash {
  import opened Bytes

  /** sum(n, msg) is the n-byte BLAKE2b digest of msg. */
  datatype Blake2b = Blake2b(sum: (nat, Bytes) -> Bytes) {
    ghost predicate Valid() {
      forall n: nat, m: Bytes :: n <= 64 ==> |sum(n, m)| == n
    }
  }

  function LE32(n: nat): (b: Bytes)
    ensures |b| == 4
  {
    [n % 256, n / 256 % 256, n / 65536 % 256, n / 16777216 % 256]
  }

  /** V_1, V_2, ..., each the 64-byte digest of the one before. */
  ghost function V(h: Blake2b, tau: nat, msg: Bytes, i: nat): Bytes {
    if i <= 1 then h.sum(64, LE32(tau) + msg) else h.sum(64, V(h, tau, msg, i - 1))
  }

  /** The first 32 bytes of V_1 to V_r. */
  ghost function Heads(h: Blake2b, tau: nat, msg: Bytes, r: nat): (b: Bytes)
    requires h.Valid()
    ensures |b| == 32 * r
  {
    if r == 0 then [] else
      VLength(h, tau, msg, r);
      Heads(h, tau, msg, r - 1) + V(h, tau, msg, r)[..32]
  }

  lemma VLength(h: Blake2b, tau: nat, msg: Bytes, i: nat)
    requires h.Valid()
    ensures |V(h, tau, msg, i)| == 64
  {
  }

  /** H'^tau as the standard writes it, with r = ceil(tau / 32) - 2. */
  ghost function HPrime(h: Blake2b, tau: nat, msg: Bytes): Bytes
    requires h.Valid()
  {
    if tau <= 64 then h.sum(tau, LE32(tau) + msg)
    else
      var r := (tau + 31) / 32 - 2;
      Heads(h, tau, msg, r) + h.sum(tau - 32 * r, V(h, tau, msg, r))
  }

  lemma NextHead(h: Blake2b, tau: nat, msg: Bytes, i: nat)
    requires h.Valid()
    ensures V(h, tau, msg, 1) == h.sum(64, LE32(tau) + msg) && |V(h, tau, msg, i)| == 64
    ensures i >= 1 ==> V(h, tau, msg, i + 1) == h.sum(64, V(h, tau, msg, i))
    ensures |V(h, tau, msg, i + 1)| == 64
    ensures Heads(h, tau, msg, i + 1) == Heads(h, tau, msg, i) + V(h, tau, msg, i + 1)[..32]
    ensures Heads(h, tau, msg, 0) == []
  {
  }

  lemma LastDigest(tau: nat, i: nat)
    requires tau > 64 && i >= 1 && 32 * i + 32 < tau && tau - 32 * i <= 64
    ensures i == (tau + 31) / 32 - 2
    ensures (if tau % 64 > 0 then tau - 32 * ((tau + 31) / 32 - 2) else 64) == tau - 32 * i
  {
  }

  lemma HPrimeIs(h: Blake2b, tau: nat, msg: Bytes)
    requires h.Valid()
    ensures tau <= 64 ==> HPrime(h, tau, msg) == h.sum(tau, LE32(tau) + msg)
    ensures tau > 64 ==>
              var r := (tau + 31) / 32 - 2;
              HPrime(h, tau, msg) == Heads(h, tau, msg, r) + h.sum(tau - 32 * r, V(h, tau, msg, r))
  {
  }

  /** The length prefix: four bytes, the lowest first. */
  lemma PrefixIsLittleEndian(n: nat)
    requires n < 0x1_0000_0000
    ensures var b: seq<int> := LE32(n);
      b[0] + 0x100 * (b[1] + 0x100 * (b[2] + 0x100 * b[3])) == n
  {
    var n1 := n / 256;
    var n2 := n1 / 256;
    assert n / 65536 == n2 && n / 16777216 == n2 / 256;
    hide *;
    LE32Is(n);
  }

  lemma LE32Is(n: nat)
    ensures LE32(n) == [n % 256, n / 256 % 256, n / 65536 % 256, n / 16777216 % 256]
  {
  }

  /**
   Section 3.3 of RFC 9106: up to 64 bytes are one digest of the prefix and the message; longer outputs are the first
   halves of a chain of 64-byte digests, each of the one before, and one more digest of what is left, 33 to 64 bytes.
   */
  lemma HashIsStandard(h: Blake2b, tau: nat, msg: Bytes) returns (chain: seq<Bytes>, last: nat)
    requires h.Valid()
    ensures tau <= 64 ==> HPrime(h, tau, msg) == h.sum(tau, LE32(tau) + msg)
    ensures tau > 64 ==>
      && |chain| > 0 && tau == 32 * |chain| + last && 32 < last <= 64
      && |HPrime(h, tau, msg)| == tau
      && chain[0] == h.sum(64, LE32(tau) + msg)
      && (forall i | 0 < i < |chain| :: chain[i] == h.sum(64, chain[i - 1]))
      && (forall i | 0 <= i < |chain| :: |chain[i]| == 64 && HPrime(h, tau, msg)[32 * i..32 * i + 32] == chain[i][..32])
      && HPrime(h, tau, msg)[32 * |chain|..] == h.sum(last, chain[|chain| - 1])
  {
    hide *;
    HPrimeIs(h, tau, msg);
    if tau > 64 {
      var r := (tau + 31) / 32 - 2;
      chain, last := seq(r, i requires 0 <= i < r => V(h, tau, msg, i + 1)), tau - 32 * r;
      var out := HPrime(h, tau, msg);
      SumLength(h, last, chain[r - 1]);
      assert out[32 * r..] == h.sum(last, chain[r - 1]);
      forall i: nat | i < r
        ensures |chain[i]| == 64 && out[32 * i..32 * i + 32] == chain[i][..32]
        ensures i == 0 ==> chain[i] == h.sum(64, LE32(tau) + msg)
        ensures i > 0 ==> chain[i] == h.sum(64, chain[i - 1])
      {
        NextHead(h, tau, msg, i);
        HeadsAt(h, tau, msg, r, i);
        assert out[32 * i..32 * i + 32] == Heads(h, tau, msg, r)[32 * i..32 * i + 32];
      }
    } else {
      chain, last := [], 0;
    }
  }

  lemma {:induction false} HeadsAt(h: Blake2b, tau: nat, msg: Bytes, r: nat, i: nat)
    requires h.Valid() && i < r
    ensures |V(h, tau, msg, i + 1)| == 64
    ensures Heads(h, tau, msg, r)[32 * i..32 * i + 32] == V(h, tau, msg, i + 1)[..32]
    decreases r
  {
    VLength(h, tau, msg, i + 1);
    if i < r - 1 {
      HeadsAt(h, tau, msg, r - 1, i);
    }
  }

  lemma SumLength(h: Blake2b, n: nat, m: Bytes)
    requires h.Valid() && n <= 64
    ensures |h.sum(n, m)| == n
  {
  }

  /**
   a2Blake2bHash: fills out from the front, 32 bytes of each digest at a time, until at most 64
   bytes are left. The result is H' for every length of out.
   */
  method Blake2bHash(h: Blake2b, out: array<Byte>, msg: Bytes)
    requires h.Valid()
    modifies out
    ensures out[..] == HPrime(h, out.Length, msg)
  {
    hide *;
    var tau := out.Length;
    HPrimeIs(h, tau, msg);
    var seed := LE32(tau) + msg;
    if tau <= 64 {
      var digest := h.sum(tau, seed);
      SumLength(h, tau, seed);
      CopyAt(out, 0, digest);
      return;
    }
    var buffer := h.sum(64, seed);
    NextHead(h, tau, msg, 0);
    CopyAt(out, 0, buffer[..32]);
    var done := 32;
    ghost var i := 1;
    while tau - done > 64
      invariant i >= 1 && done == 32 * i && done + 32 < tau
      invariant buffer == V(h, tau, msg, i) && |buffer| == 64
      invariant out[..done] == Heads(h, tau, msg, i)
    {
      NextHead(h, tau, msg, i);
      buffer := h.sum(64, buffer);
      CopyAt(out, done, buffer[..32]);
      assert out[..done + 32] == out[..done] + buffer[..32];
      done := done + 32;
      i := i + 1;
    }
    var last := 64;
    if tau % 64 > 0 {
      var r := (tau + 31) / 32 - 2;
      last := tau - 32 * r;
    }
    LastDigest(tau, i);
    var digest := h.sum(last, buffer);
    SumLength(h, last, buffer);
    CopyAt(out, done, digest);
    assert out[..] == out[..done] + out[done..done + |digest|];
  }
}
