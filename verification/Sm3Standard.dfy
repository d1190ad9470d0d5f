/** The SM3 digest as GB/T 32905 states it: padding, chain of compressions, and the bytes of the result. */
module Sm3Standard {
  import opened Bytes
  import opened Sm3

  /** A one bit, zeros, and the length in bits fill the message up to whole blocks. */
  lemma PaddingIsStandard(m: Bytes)
    ensures var padded := Padded(m);
      && |padded| % 64 == 0 && |m| + 9 <= |padded| < |m| + 73
      && padded[..|m|] == m && padded[|m|] == 0x80
      && (forall i | |m| < i < |padded| - 8 :: padded[i] == 0)
      && padded[|padded| - 8..] == FromNat(8 * |m| % 0x1_0000_0000_0000_0000, 8)
  {
    hide FromNat;
    PaddedLength(m);
  }

  /** Block k of the data takes the chain from value k to value k + 1. */
  ghost predicate Linked(cf: Compression, data: Bytes, chain: seq<Chain>, k: nat) {
    && 64 * k + 64 <= |data| && k + 1 < |chain|
    && chain[k + 1] == cf(chain[k], data[64 * k..64 * k + 64])
  }

  /** Each block of 64 bytes is compressed into the chaining value, from the initial one. */
  lemma {:induction false} FoldIsChain(cf: Compression, data: Bytes) returns (chain: seq<Chain>)
    requires |data| % 64 == 0
    ensures |chain| == |data| / 64 + 1 && chain[|data| / 64] == Fold(cf, data)
    ensures chain[0] == [0x7380166f, 0x4914b2b9, 0x172442d7, 0xda8a0600, 0xa96f30bc, 0x163138aa, 0xe38dee4d, 0xb0fb0e4e]
    ensures forall k: nat | k < |data| / 64 :: Linked(cf, data, chain, k)
    decreases |data|
  {
    if data == [] {
      chain := [IV()];
    } else {
      var n := |data| / 64 - 1;
      var init := data[..64 * n];
      assert init == data[..|data| - 64] && data[64 * n..64 * n + 64] == data[|data| - 64..];
      var before := FoldIsChain(cf, init);
      chain := before + [Fold(cf, data)];
      forall k: nat | k < |data| / 64
        ensures Linked(cf, data, chain, k)
      {
        if k < n {
          assert Linked(cf, init, before, k);
          assert init[64 * k..64 * k + 64] == data[64 * k..64 * k + 64];
        }
      }
    }
  }

  /** The digest is the last chaining value, word by word, the highest byte first. */
  lemma DigestIsStandard(cf: Compression, m: Bytes) returns (chain: seq<Chain>)
    ensures |chain| == |Padded(m)| / 64 + 1
    ensures chain[0] == [0x7380166f, 0x4914b2b9, 0x172442d7, 0xda8a0600, 0xa96f30bc, 0x163138aa, 0xe38dee4d, 0xb0fb0e4e]
    ensures forall k: nat | k < |Padded(m)| / 64 :: Linked(cf, Padded(m), chain, k)
    ensures var v := chain[|chain| - 1];
      Digest(cf, m) == FromNat(v[0], 4) + FromNat(v[1], 4) + FromNat(v[2], 4) + FromNat(v[3], 4)
        + FromNat(v[4], 4) + FromNat(v[5], 4) + FromNat(v[6], 4) + FromNat(v[7], 4)
  {
    hide FromNat, Padded, WordBytes, Linked;
    PaddedLength(m);
    chain := FoldIsChain(cf, Padded(m));
    WordsInOrder(chain[|chain| - 1]);
  }

  lemma WordsInOrder(v: Chain)
    ensures WordBytes(v) == FromNat(v[0], 4) + FromNat(v[1], 4) + FromNat(v[2], 4) + FromNat(v[3], 4)
      + FromNat(v[4], 4) + FromNat(v[5], 4) + FromNat(v[6], 4) + FromNat(v[7], 4)
  {
    hide FromNat;
    var w: seq<Word> := v;
    OneMoreWord(w[..0], v[0]);
    OneMoreWord(w[..1], v[1]);
    OneMoreWord(w[..2], v[2]);
    OneMoreWord(w[..3], v[3]);
    OneMoreWord(w[..4], v[4]);
    OneMoreWord(w[..5], v[5]);
    OneMoreWord(w[..6], v[6]);
    OneMoreWord(w[..7], v[7]);
    hide WordBytes;
    assert w[..1] == w[..0] + [v[0]] && w[..2] == w[..1] + [v[1]] && w[..3] == w[..2] + [v[2]] && w[..4] == w[..3] + [v[3]];
    assert w[..5] == w[..4] + [v[4]] && w[..6] == w[..5] + [v[5]] && w[..7] == w[..6] + [v[6]] && w == w[..7] + [v[7]];
    NoWords();
  }

  lemma OneMoreWord(v: seq<Word>, w: Word)
    ensures WordBytes(v + [w]) == WordBytes(v) + FromNat(w, 4)
  {
    assert (v + [w])[..|v|] == v;
  }

  lemma NoWords()
    ensures WordBytes([]) == []
  {
  }
}
