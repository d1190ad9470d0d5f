/** What whole runs of the cipher object put out, block by block, for every split of the input. */
module CipherRuns {
  import opened Bytes
  import opened Wrappers
  import opened CipherModes

  /** The plaintext is padded to whole blocks, each added byte telling how many there are, and chained from the iv. */
  lemma EncryptsStandard(cfg: Config, iv: Bytes, chunks: seq<Bytes>) returns (padded: Bytes)
    requires cfg.Valid() && !cfg.decrypt && PrevOk(cfg, iv)
    ensures cfg.c.size > 0
    ensures var plain := Concat(chunks);
      && |plain| <= |padded| && padded[..|plain|] == plain
      && (cfg.padding ==> |padded| % cfg.c.size == 0 && |plain| < |padded| <= |plain| + cfg.c.size)
      && (cfg.padding ==> forall i | |plain| <= i < |padded| :: padded[i] == |padded| - |plain|)
      && (!cfg.padding ==> padded == plain)
    ensures var r := Run(cfg, iv, chunks);
      if |padded| % cfg.c.size == 0 then r.Ok? && Chained(cfg, iv, padded, r.value) else r == Err(WrongFinalBlockLength)
  {
    hide Run, Chained, Config.Valid;
    ValidSize(cfg);
    var plain, size := Concat(chunks), cfg.c.size;
    EncryptRun(cfg, iv, chunks);
    if cfg.padding {
      padded := Pad(size, plain);
      PadAligned(size, plain);
      RemIsMod(|plain|, size);
    } else {
      padded := plain;
    }
    RemIsMod(|padded|, size);
    EncryptedIs(cfg, iv, plain, padded);
  }

  lemma EncryptedIs(cfg: Config, iv: Bytes, plain: Bytes, padded: Bytes)
    requires cfg.Valid() && !cfg.decrypt && PrevOk(cfg, iv)
    requires padded == if cfg.padding then Pad(cfg.c.size, plain) else plain
    ensures Encrypted(cfg, iv, plain).Ok? <==> Aligned(|padded|, cfg.c.size)
    ensures Encrypted(cfg, iv, plain).Err? ==> Encrypted(cfg, iv, plain).error == WrongFinalBlockLength
    ensures Encrypted(cfg, iv, plain).Ok? ==> Chained(cfg, iv, padded, Encrypted(cfg, iv, plain).value)
  {
    hide Blocks, Chained, Rem, Pad;
    if cfg.padding {
      PadAligned(cfg.c.size, plain);
    }
    if Aligned(|padded|, cfg.c.size) {
      BlocksChained(cfg, iv, padded);
    }
  }

  /**
   Whole blocks are taken back from the iv; with padding the last byte tells how many are to go, which must all be
   equal to it and fit a block. Input that is no whole number of blocks, or is empty where padding is due, is an error.
   */
  lemma DecryptsStandard(cfg: Config, iv: Bytes, chunks: seq<Bytes>) returns (blocks: Bytes, n: nat)
    requires cfg.Valid() && cfg.decrypt && PrevOk(cfg, iv)
    ensures cfg.c.size > 0
    ensures Concat(chunks) == [] && cfg.padding ==> Run(cfg, iv, chunks) == Err(WrongFinalBlockLength)
    ensures |Concat(chunks)| % cfg.c.size != 0 ==> Run(cfg, iv, chunks) == Err(WrongFinalBlockLength)
    ensures |Concat(chunks)| % cfg.c.size == 0 ==> Chained(cfg, iv, Concat(chunks), blocks)
    ensures |Concat(chunks)| % cfg.c.size == 0 && !cfg.padding ==> Run(cfg, iv, chunks) == Ok(blocks)
    ensures |Concat(chunks)| % cfg.c.size == 0 && Concat(chunks) != [] && cfg.padding ==>
      && blocks != [] && n == blocks[|blocks| - 1]
      && Run(cfg, iv, chunks) ==
           if 1 <= n <= cfg.c.size && n <= |blocks| && forall i | |blocks| - n <= i < |blocks| :: blocks[i] == n
           then Ok(blocks[..|blocks| - n]) else Err(BadDecrypt)
  {
    hide *;
    ValidSize(cfg);
    var ct, size := Concat(chunks), cfg.c.size;
    blocks, n := [], 0;
    DecryptRun(cfg, iv, chunks);
    AlignedIs(|ct|, size);
    if |ct| % size != 0 || (cfg.padding && ct == []) {
      NotDecrypted(cfg, iv, ct);
    } else {
      Unpadded(cfg, iv, ct);
    }
    if |ct| % size == 0 {
      blocks := Blocks(cfg, iv, ct).0;
      BlocksChained(cfg, iv, ct);
    }
    if |ct| % size == 0 && ct != [] {
      AlignedTail(|ct|, size);
      n := blocks[|blocks| - 1];
      UnpadIs(size, blocks);
    }
  }

  lemma AlignedIs(n: nat, size: nat)
    requires size > 0
    ensures Aligned(n, size) <==> n % size == 0
  {
    RemIsMod(n, size);
  }

  lemma NotDecrypted(cfg: Config, iv: Bytes, ct: Bytes)
    requires cfg.Valid() && cfg.decrypt && PrevOk(cfg, iv) && (!Aligned(|ct|, cfg.c.size) || (cfg.padding && ct == []))
    ensures Decrypted(cfg, iv, ct) == Err(WrongFinalBlockLength)
  {
  }

  lemma Unpadded(cfg: Config, iv: Bytes, ct: Bytes)
    requires cfg.Valid() && cfg.decrypt && PrevOk(cfg, iv) && Aligned(|ct|, cfg.c.size) && !(cfg.padding && ct == [])
    ensures var blocks := Blocks(cfg, iv, ct).0;
      && |blocks| == |ct|
      && (cfg.padding ==> Decrypted(cfg, iv, ct) == Unpad(cfg.c.size, blocks))
      && (!cfg.padding ==> Decrypted(cfg, iv, ct) == Ok(blocks))
  {
    hide Blocks, Unpad;
  }

  lemma UnpadIs(size: nat, out: Bytes)
    requires 0 < size <= |out|
    ensures var n := out[|out| - 1];
      Unpad(size, out) == if 1 <= n <= size && n <= |out| && forall i | |out| - n <= i < |out| :: out[i] == n
                          then Ok(out[..|out| - n]) else Err(BadDecrypt)
  {
  }
}
