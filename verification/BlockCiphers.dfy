/** A block cipher under one key: an abstract permutation of fixed-size blocks and its inverse. */
module BlockCiphers {
  import opened Bytes

  datatype BlockCipher = BlockCipher(size: nat, encrypt: Bytes -> Bytes, decrypt: Bytes -> Bytes) {
    ghost predicate Valid() {
      && 1 <= size
      && (forall b: Bytes :: |b| == size ==> |encrypt(b)| == size && decrypt(encrypt(b)) == b)
      && (forall b: Bytes :: |b| == size ==> |decrypt(b)| == size && encrypt(decrypt(b)) == b)
    }

    lemma Inverse(b: Bytes)
      requires Valid() && |b| == size
      ensures |encrypt(b)| == size && decrypt(encrypt(b)) == b
      ensures |decrypt(b)| == size && encrypt(decrypt(b)) == b
    {
    }
  }
}
