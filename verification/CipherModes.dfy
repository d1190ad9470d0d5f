/**
 CBC and ECB with and without PKCS#7 padding, as a stream of updates closed by a final
 (NIST SP 800-38A sections 6.1 and 6.2).
 */
module CipherModes {
  import Arith
  import opened Bytes
  import opened BlockCiphers
  import opened Wrappers

  datatype Mode = Ecb | Cbc

  datatype Config = Config(c: BlockCipher, mode: Mode, decrypt: bool, padding: bool) {
    ghost predicate Valid() {
      c.Valid() && c.size < 256
    }
  }

  datatype Error = UnsupportedState | WrongFinalBlockLength | BadDecrypt

  // ---- whole blocks and remainders ----

  /** n mod size by repeated subtraction (see RemIsMod). */
  function Rem(n: nat, size: nat): (r: nat)
    requires size > 0
    ensures r < size && r <= n
  {
    if n < size then n else Rem(n - size, size)
  }

  lemma {:induction false} RemIsMod(n: nat, size: nat)
    requires size > 0
    ensures Rem(n, size) == n % size && n - Rem(n, size) == n / size * size
    decreases n
  {
    if n < size {
      Arith.DivModUnique(0, size, n);
    } else {
      RemIsMod(n - size, size);
      Arith.NextMultiple((n - size) / size, size);
      Arith.DivModUnique((n - size) / size + 1, size, Rem(n, size));
    }
  }

  predicate Aligned(n: nat, size: nat)
    requires size > 0
  {
    Rem(n, size) == 0
  }

  lemma {:induction false} RemAdd(a: nat, b: nat, size: nat)
    requires size > 0 && Aligned(a, size)
    ensures Rem(a + b, size) == Rem(b, size)
    decreases a
  {
    if a >= size {
      RemAdd(a - size, b, size);
    }
  }

  lemma {:induction false} WholePart(n: nat, size: nat)
    requires size > 0
    ensures Aligned(n - Rem(n, size), size)
    decreases n
  {
    if n >= size {
      WholePart(n - size, size);
    }
  }

  lemma {:induction false} RemPred(n: nat, size: nat)
    requires size > 0 && n > 0
    ensures Rem(n - 1, size) == if Rem(n, size) == 0 then size - 1 else Rem(n, size) - 1
    decreases n
  {
    if n > size {
      RemPred(n - size, size);
    }
  }

  // ---- one block, and a run of blocks ----

  ghost predicate PrevOk(cfg: Config, prev: Bytes) {
    cfg.mode == Cbc ==> |prev| == cfg.c.size
  }

  /** One round of the block loop: the output block and the chaining value after it. */
  function OneBlock(cfg: Config, prev: Bytes, src: Bytes): (r: (Bytes, Bytes))
    requires cfg.Valid() && PrevOk(cfg, prev) && |src| == cfg.c.size
    ensures |r.0| == cfg.c.size && PrevOk(cfg, r.1)
  {
    match (cfg.mode, cfg.decrypt)
    case (Ecb, true) => (cfg.c.decrypt(src), prev)
    case (Ecb, false) => (cfg.c.encrypt(src), prev)
    case (Cbc, true) => (Xor(cfg.c.decrypt(src), prev), src)
    case (Cbc, false) =>
      var dst := cfg.c.encrypt(Xor(src, prev));
      (dst, dst)
  }

  function Blocks(cfg: Config, prev: Bytes, data: Bytes): (r: (Bytes, Bytes))
    requires cfg.Valid() && PrevOk(cfg, prev) && Aligned(|data|, cfg.c.size)
    ensures |r.0| == |data| && PrevOk(cfg, r.1)
    decreases |data|
  {
    if data == [] then ([], prev)
    else
      var (dst, next) := OneBlock(cfg, prev, data[..cfg.c.size]);
      var (rest, last) := Blocks(cfg, next, data[cfg.c.size..]);
      (dst + rest, last)
  }

  lemma BlocksIs(cfg: Config, prev: Bytes, first: Bytes, rest: Bytes)
    requires cfg.Valid() && PrevOk(cfg, prev) && |first| == cfg.c.size && Aligned(|rest|, cfg.c.size)
    ensures Aligned(|first + rest|, cfg.c.size)
    ensures var (dst, next) := OneBlock(cfg, prev, first);
            Blocks(cfg, prev, first + rest) == (dst + Blocks(cfg, next, rest).0, Blocks(cfg, next, rest).1)
  {
    hide OneBlock;
    var data := first + rest;
    assert data[..cfg.c.size] == first && data[cfg.c.size..] == rest;
    assert |data| - cfg.c.size == |rest|;
  }

  lemma EmptyBlocks(cfg: Config, prev: Bytes)
    requires cfg.Valid() && PrevOk(cfg, prev)
    ensures cfg.c.size > 0 && Blocks(cfg, prev, []) == ([], prev)
  {
  }

  lemma AlignedTail(n: nat, size: nat)
    requires size > 0 && n > 0 && Aligned(n, size)
    ensures n >= size && Aligned(n - size, size)
  {
  }

  lemma {:induction false} BlocksConcat(cfg: Config, prev: Bytes, a: Bytes, b: Bytes)
    requires cfg.Valid() && PrevOk(cfg, prev) && Aligned(|a|, cfg.c.size) && Aligned(|b|, cfg.c.size)
    ensures Aligned(|a + b|, cfg.c.size)
    ensures var (x, mid) := Blocks(cfg, prev, a);
            var (y, last) := Blocks(cfg, mid, b);
            Blocks(cfg, prev, a + b) == (x + y, last)
    decreases |a|
  {
    hide *;
    EmptyBlocks(cfg, prev);
    if a == [] {
      assert a + b == b && a + Blocks(cfg, prev, b).0 == Blocks(cfg, prev, b).0;
    } else {
      var size := cfg.c.size;
      AlignedTail(|a|, size);
      var first, rest := a[..size], a[size..];
      assert a == first + rest && a + b == first + (rest + b);
      var (dst, next) := OneBlock(cfg, prev, first);
      BlocksConcat(cfg, next, rest, b);
      BlocksIs(cfg, prev, first, rest);
      BlocksIs(cfg, prev, first, rest + b);
      var (x, mid) := Blocks(cfg, next, rest);
      var (y, last) := Blocks(cfg, mid, b);
      assert dst + (x + y) == (dst + x) + y;
    }
  }

  // ---- block by block ----

  /** Where block i begins: i * size, written as a sum (see OffsetIsProduct). */
  function Offset(size: nat, i: nat): (o: nat) {
    if i == 0 then 0 else Offset(size, i - 1) + size
  }

  lemma {:induction false} OffsetIsProduct(size: nat, i: nat)
    ensures Offset(size, i) == i * size
  {
    if i > 0 {
      OffsetIsProduct(size, i - 1);
      assert (i - 1) * size + size == i * size;
    }
  }

  /** Block i of a string. */
  function Piece(data: Bytes, size: nat, i: nat): (b: Bytes)
    requires Offset(size, i) + size <= |data|
    ensures |b| == size
  {
    data[Offset(size, i)..Offset(size, i) + size]
  }

  /** The block before block i, which before the first is the iv. */
  function PieceBefore(iv: Bytes, data: Bytes, size: nat, i: nat): (b: Bytes)
    requires Offset(size, i) + size <= |data|
    ensures |iv| == size ==> |b| == size
  {
    if i == 0 then iv else Piece(data, size, i - 1)
  }

  /** NIST SP 800-38A: in CBC block i is chained to the ciphertext block before it, or to the iv; in ECB it stands alone. */
  ghost predicate ChainedAt(cfg: Config, iv: Bytes, data: Bytes, out: Bytes, i: nat)
    requires cfg.Valid() && PrevOk(cfg, iv) && |out| == |data| && Offset(cfg.c.size, i) + cfg.c.size <= |data|
  {
    var size := cfg.c.size;
    var x, y := Piece(data, size, i), Piece(out, size, i);
    && (cfg.mode == Ecb && !cfg.decrypt ==> y == cfg.c.encrypt(x))
    && (cfg.mode == Ecb && cfg.decrypt ==> y == cfg.c.decrypt(x))
    && (cfg.mode == Cbc && !cfg.decrypt ==> y == cfg.c.encrypt(Xor(x, PieceBefore(iv, out, size, i))))
    && (cfg.mode == Cbc && cfg.decrypt ==> y == Xor(cfg.c.decrypt(x), PieceBefore(iv, data, size, i)))
  }

  ghost predicate Chained(cfg: Config, iv: Bytes, data: Bytes, out: Bytes)
    requires cfg.Valid() && PrevOk(cfg, iv)
  {
    |out| == |data| && forall i: nat | Offset(cfg.c.size, i) + cfg.c.size <= |data| :: ChainedAt(cfg, iv, data, out, i)
  }

  /** Block i of the rest is block i + 1 of the whole. */
  lemma {:induction false} NextPiece(first: Bytes, rest: Bytes, i: nat)
    ensures Offset(|first|, i + 1) == |first| + Offset(|first|, i)
    ensures Offset(|first|, i) + |first| <= |rest| ==>
      Piece(first + rest, |first|, i + 1) == Piece(rest, |first|, i)
    decreases i
  {
    if i > 0 {
      NextPiece(first, rest, i - 1);
    }
  }

  lemma FirstPiece(first: Bytes, rest: Bytes)
    ensures Offset(|first|, 0) == 0 && Piece(first + rest, |first|, 0) == first
  {
  }

  lemma {:induction false} BlocksChained(cfg: Config, iv: Bytes, data: Bytes)
    requires cfg.Valid() && PrevOk(cfg, iv) && Aligned(|data|, cfg.c.size)
    ensures Chained(cfg, iv, data, Blocks(cfg, iv, data).0)
    decreases |data|
  {
    var size := cfg.c.size;
    ValidSize(cfg);
    if data == [] {
      EmptyBlocks(cfg, iv);
    } else {
      hide *;
      AlignedTail(|data|, size);
      var first, rest := data[..size], data[size..];
      assert data == first + rest;
      BlocksIs(cfg, iv, first, rest);
      var (dst, next) := OneBlock(cfg, iv, first);
      var tail := Blocks(cfg, next, rest).0;
      BlocksChained(cfg, next, rest);
      ChainedFrom(cfg, iv, first, rest, tail);
    }
  }

  lemma ChainedFrom(cfg: Config, iv: Bytes, first: Bytes, rest: Bytes, tail: Bytes)
    requires cfg.Valid() && PrevOk(cfg, iv) && |first| == cfg.c.size
    requires Chained(cfg, OneBlock(cfg, iv, first).1, rest, tail)
    ensures Chained(cfg, iv, first + rest, OneBlock(cfg, iv, first).0 + tail)
  {
    hide OneBlock, Piece, ChainedAt, Offset, Config.Valid;
    var data, out := first + rest, OneBlock(cfg, iv, first).0 + tail;
    forall i: nat | Offset(cfg.c.size, i) + cfg.c.size <= |data|
      ensures ChainedAt(cfg, iv, data, out, i)
    {
      if i == 0 {
        ChainedFirst(cfg, iv, first, rest, tail);
      } else {
        NextPiece(first, rest, i - 1);
        ChainedNext(cfg, iv, first, rest, tail, i - 1);
      }
    }
  }

  lemma ChainedFirst(cfg: Config, iv: Bytes, first: Bytes, rest: Bytes, tail: Bytes)
    requires cfg.Valid() && PrevOk(cfg, iv) && |first| == cfg.c.size && |tail| == |rest|
    ensures Offset(|first|, 0) == 0
    ensures ChainedAt(cfg, iv, first + rest, OneBlock(cfg, iv, first).0 + tail, 0)
  {
    hide Piece;
    FirstPiece(first, rest);
    FirstPiece(OneBlock(cfg, iv, first).0, tail);
  }

  lemma ChainedNext(cfg: Config, iv: Bytes, first: Bytes, rest: Bytes, tail: Bytes, i: nat)
    requires cfg.Valid() && PrevOk(cfg, iv) && |first| == cfg.c.size && |tail| == |rest|
    requires Offset(cfg.c.size, i) + cfg.c.size <= |rest|
    requires ChainedAt(cfg, OneBlock(cfg, iv, first).1, rest, tail, i)
    ensures Offset(|first|, i + 1) == |first| + Offset(|first|, i)
    ensures ChainedAt(cfg, iv, first + rest, OneBlock(cfg, iv, first).0 + tail, i + 1)
  {
    hide Piece, Offset, Config.Valid, Xor;
    var dst := OneBlock(cfg, iv, first).0;
    NextPiece(first, rest, i);
    NextPiece(dst, tail, i);
    FirstPiece(first, rest);
    FirstPiece(dst, tail);
    if i > 0 {
      NextPiece(first, rest, i - 1);
      NextPiece(dst, tail, i - 1);
    }
  }

  function Opposite(cfg: Config): Config {
    cfg.(decrypt := true)
  }

  lemma OneBlockInverts(cfg: Config, prev: Bytes, src: Bytes)
    requires cfg.Valid() && !cfg.decrypt && PrevOk(cfg, prev) && |src| == cfg.c.size
    ensures var (dst, next) := OneBlock(cfg, prev, src);
            OneBlock(Opposite(cfg), prev, dst) == (src, next)
  {
    if cfg.mode == Cbc {
      cfg.c.Inverse(Xor(src, prev));
      XorCancels(src, prev);
    } else {
      cfg.c.Inverse(src);
    }
  }

  /** Decrypting encrypted blocks from the same chaining value gives the plaintext back. */
  lemma {:induction false} BlocksInvert(cfg: Config, prev: Bytes, data: Bytes)
    requires cfg.Valid() && !cfg.decrypt && PrevOk(cfg, prev) && Aligned(|data|, cfg.c.size)
    ensures Blocks(Opposite(cfg), prev, Blocks(cfg, prev, data).0).0 == data
    decreases |data|
  {
    if data != [] {
      hide Blocks, OneBlock;
      var size := cfg.c.size;
      var first, rest := data[..size], data[size..];
      assert data == first + rest;
      OneBlockInverts(cfg, prev, first);
      var (dst, next) := OneBlock(cfg, prev, first);
      BlocksInvert(cfg, next, rest);
      BlocksIs(cfg, prev, first, rest);
      BlocksIs(Opposite(cfg), prev, dst, Blocks(cfg, next, rest).0);
    }
  }

  // ---- update ----

  datatype State = State(prev: Bytes, pending: Bytes)

  /** How much of the pending input an update processes: whole blocks, minus one that may hold padding. */
  function TakeLength(cfg: Config, length: nat): nat
    requires cfg.c.size > 0
  {
    var n := length / cfg.c.size * cfg.c.size;
    if cfg.decrypt && cfg.padding && n == length && n > 0 then n - cfg.c.size else n
  }

  /** How many bytes stay pending after a total of t bytes, however they arrived. */
  function Held(cfg: Config, t: nat): (h: nat)
    requires cfg.c.size > 0
    ensures h <= t
  {
    if cfg.decrypt && cfg.padding then (if t == 0 then 0 else Rem(t - 1, cfg.c.size) + 1)
    else Rem(t, cfg.c.size)
  }

  lemma TakeLengthIs(cfg: Config, length: nat)
    requires cfg.c.size > 0
    ensures 0 <= TakeLength(cfg, length) == length - Held(cfg, length)
    ensures Aligned(length - Held(cfg, length), cfg.c.size)
  {
    var size := cfg.c.size;
    RemIsMod(length, size);
    WholePart(length, size);
    if length > 0 {
      RemPred(length, size);
      if Rem(length, size) == 0 && length >= size {
        assert Aligned(size, size);
        RemAddBack(length - size, size);
      }
    }
  }

  lemma RemAddBack(n: nat, size: nat)
    requires size > 0
    ensures Rem(n + size, size) == Rem(n, size)
  {
  }

  /** Earlier input that is already processed does not change what is held back later. */
  lemma HeldAfter(cfg: Config, done: nat, pending: nat, more: nat)
    requires cfg.c.size > 0 && Aligned(done, cfg.c.size)
    requires pending == Held(cfg, done + pending)
    ensures Held(cfg, done + pending + more) == Held(cfg, pending + more)
  {
    var size := cfg.c.size;
    RemAdd(done, pending + more, size);
    if pending + more > 0 {
      RemAdd(done, pending + more - 1, size);
    }
  }

  function Update(cfg: Config, s: State, input: Bytes): (r: (State, Bytes))
    requires cfg.Valid() && PrevOk(cfg, s.prev)
    ensures PrevOk(cfg, r.0.prev)
  {
    var total := s.pending + input;
    var n := TakeLength(cfg, |total|);
    TakeLengthIs(cfg, |total|);
    var (out, prev) := Blocks(cfg, s.prev, total[..n]);
    (State(prev, total[n..]), out)
  }

  /** The state and the output that a given total input leads to. */
  ghost function After(cfg: Config, iv: Bytes, input: Bytes): (r: (State, Bytes))
    requires cfg.Valid() && PrevOk(cfg, iv)
    ensures PrevOk(cfg, r.0.prev)
  {
    var m := |input| - Held(cfg, |input|);
    TakeLengthIs(cfg, |input|);
    var (out, prev) := Blocks(cfg, iv, input[..m]);
    (State(prev, input[m..]), out)
  }

  /** One more chunk, possibly empty, leads from the state of the input so far to the state of both. */
  lemma UpdateAfter(cfg: Config, iv: Bytes, input: Bytes, chunk: Bytes)
    requires cfg.Valid() && PrevOk(cfg, iv)
    ensures var (s, out) := After(cfg, iv, input);
            var (s', more) := Update(cfg, s, chunk);
            After(cfg, iv, input + chunk) == (s', out + more)
  {
    hide Blocks, Held, TakeLength;
    var size := cfg.c.size;
    TakeLengthIs(cfg, |input|);
    var m := |input| - Held(cfg, |input|);
    var pending := input[m..];
    HeldAfter(cfg, m, |pending|, |chunk|);
    var total := pending + chunk;
    TakeLengthIs(cfg, |total|);
    var n := TakeLength(cfg, |total|);
    var (out, prev) := Blocks(cfg, iv, input[..m]);
    BlocksConcat(cfg, iv, input[..m], total[..n]);
    assert (input + chunk)[..m + n] == input[..m] + total[..n];
    assert (input + chunk)[m + n..] == total[n..];
  }

  function Concat(chunks: seq<Bytes>): Bytes {
    if chunks == [] then [] else Concat(chunks[..|chunks| - 1]) + chunks[|chunks| - 1]
  }

  function UpdateAll(cfg: Config, iv: Bytes, chunks: seq<Bytes>): (r: (State, Bytes))
    requires cfg.Valid() && PrevOk(cfg, iv)
    ensures PrevOk(cfg, r.0.prev)
  {
    if chunks == [] then (State(iv, []), [])
    else
      var (s, out) := UpdateAll(cfg, iv, chunks[..|chunks| - 1]);
      var (s', more) := Update(cfg, s, chunks[|chunks| - 1]);
      (s', out + more)
  }

  lemma {:induction false} UpdateAllIs(cfg: Config, iv: Bytes, chunks: seq<Bytes>)
    requires cfg.Valid() && PrevOk(cfg, iv)
    ensures UpdateAll(cfg, iv, chunks) == After(cfg, iv, Concat(chunks))
    decreases |chunks|
  {
    hide Update;
    if chunks != [] {
      UpdateAllIs(cfg, iv, chunks[..|chunks| - 1]);
      UpdateAfter(cfg, iv, Concat(chunks[..|chunks| - 1]), chunks[|chunks| - 1]);
    }
  }

  // ---- final ----

  function Pad(size: nat, pending: Bytes): (r: Bytes)
    requires 0 < size < 256
  {
    var pad := size - |pending| % size;
    pending + seq(pad, _ => pad)
  }

  lemma PadAligned(size: nat, pending: Bytes)
    requires 0 < size < 256
    ensures Aligned(|Pad(size, pending)|, size)
    ensures |Pad(size, pending)| == |pending| - Rem(|pending|, size) + size
  {
    RemIsMod(|pending|, size);
    WholePart(|pending|, size);
    RemAddBack(|pending| - Rem(|pending|, size), size);
  }

  /** Removes PKCS#7 padding, checking every byte of it. */
  function Unpad(size: nat, out: Bytes): Result<Bytes, Error>
    requires out != []
  {
    var pad := out[|out| - 1];
    if pad == 0 || pad > size || pad > |out| then Err(BadDecrypt)
    else if exists i :: |out| - pad <= i < |out| && out[i] != pad then Err(BadDecrypt)
    else Ok(out[..|out| - pad])
  }

  function Final(cfg: Config, s: State): Result<Bytes, Error>
    requires cfg.Valid() && PrevOk(cfg, s.prev)
  {
    var size := cfg.c.size;
    RemIsMod(|s.pending|, size);
    if !cfg.decrypt then
      if cfg.padding then
        PadAligned(size, s.pending);
        Ok(Blocks(cfg, s.prev, Pad(size, s.pending)).0)
      else if |s.pending| % size != 0 then Err(WrongFinalBlockLength)
      else Ok(Blocks(cfg, s.prev, s.pending).0)
    else if |s.pending| % size != 0 || (cfg.padding && s.pending == []) then Err(WrongFinalBlockLength)
    else
      var out := Blocks(cfg, s.prev, s.pending).0;
      if cfg.padding then Unpad(size, out) else Ok(out)
  }

  /** Everything a caller gets: the outputs of all updates, then the output of final. */
  function Run(cfg: Config, iv: Bytes, chunks: seq<Bytes>): Result<Bytes, Error>
    requires cfg.Valid() && PrevOk(cfg, iv)
  {
    var (s, out) := UpdateAll(cfg, iv, chunks);
    match Final(cfg, s)
    case Ok(last) => Ok(out + last)
    case Err(e) => Err(e)
  }

  /** The split of the input, empty chunks included, never shows: not in the bytes, not in the errors. */
  lemma ChunkIndependence(cfg: Config, iv: Bytes, chunks: seq<Bytes>, others: seq<Bytes>)
    requires cfg.Valid() && PrevOk(cfg, iv)
    requires Concat(chunks) == Concat(others)
    ensures Run(cfg, iv, chunks) == Run(cfg, iv, others)
  {
    UpdateAllIs(cfg, iv, chunks);
    UpdateAllIs(cfg, iv, others);
  }

  /** What encryption computes on the whole plaintext, split or not. */
  ghost function Encrypted(cfg: Config, iv: Bytes, plain: Bytes): Result<Bytes, Error>
    requires cfg.Valid() && !cfg.decrypt && PrevOk(cfg, iv)
  {
    if cfg.padding then
      PadAligned(cfg.c.size, plain);
      Ok(Blocks(cfg, iv, Pad(cfg.c.size, plain)).0)
    else if !Aligned(|plain|, cfg.c.size) then Err(WrongFinalBlockLength)
    else Ok(Blocks(cfg, iv, plain).0)
  }

  lemma EncryptRun(cfg: Config, iv: Bytes, chunks: seq<Bytes>)
    requires cfg.Valid() && !cfg.decrypt && PrevOk(cfg, iv)
    ensures Run(cfg, iv, chunks) == Encrypted(cfg, iv, Concat(chunks))
  {
    hide *;
    ValidSize(cfg);
    UpdateAllIs(cfg, iv, chunks);
    RunIs(cfg, iv, chunks);
    FinalAfter(cfg, iv, Concat(chunks));
  }

  /** What final adds to the whole blocks that are out. */
  lemma FinalAfter(cfg: Config, iv: Bytes, plain: Bytes)
    requires cfg.Valid() && !cfg.decrypt && PrevOk(cfg, iv)
    ensures var (s, out) := After(cfg, iv, plain);
            Encrypted(cfg, iv, plain) == match Final(cfg, s) case Ok(last) => Ok(out + last) case Err(e) => Err(e)
  {
    hide Blocks, Rem;
    var size := cfg.c.size;
    var m := |plain| - Rem(|plain|, size);
    var pending := plain[m..];
    WholePart(|plain|, size);
    RemAdd(m, |pending|, size);
    RemIsMod(|pending|, size);
    assert plain == plain[..m] + pending;
    if cfg.padding {
      PadAligned(size, pending);
      BlocksConcat(cfg, iv, plain[..m], Pad(size, pending));
      PadRest(plain, m, size);
    } else if Rem(|plain|, size) == 0 {
      BlocksConcat(cfg, iv, plain[..m], pending);
    }
  }

  lemma PadRest(plain: Bytes, m: nat, size: nat)
    requires 0 < size < 256 && m <= |plain| && Aligned(m, size)
    ensures Pad(size, plain) == plain[..m] + Pad(size, plain[m..])
  {
    RemAdd(m, |plain| - m, size);
    RemIsMod(|plain| - m, size);
    RemIsMod(|plain|, size);
    hide Rem;
    assert plain == plain[..m] + plain[m..];
  }

  /** The whole input as blocks, without the padding; anything but whole blocks, or nothing to unpad, is an error. */
  ghost function Decrypted(cfg: Config, iv: Bytes, ct: Bytes): Result<Bytes, Error>
    requires cfg.Valid() && cfg.decrypt && PrevOk(cfg, iv)
  {
    if !Aligned(|ct|, cfg.c.size) || (cfg.padding && ct == []) then Err(WrongFinalBlockLength)
    else if cfg.padding then Unpad(cfg.c.size, Blocks(cfg, iv, ct).0)
    else Ok(Blocks(cfg, iv, ct).0)
  }

  lemma DecryptRun(cfg: Config, iv: Bytes, chunks: seq<Bytes>)
    requires cfg.Valid() && cfg.decrypt && PrevOk(cfg, iv)
    ensures Run(cfg, iv, chunks) == Decrypted(cfg, iv, Concat(chunks))
  {
    ValidSize(cfg);
    if Aligned(|Concat(chunks)|, cfg.c.size) && Concat(chunks) != [] {
      DecryptBlocks(cfg, iv, chunks);
    } else if Concat(chunks) == [] {
      DecryptNothing(cfg, iv, chunks);
    } else {
      DecryptPartial(cfg, iv, chunks);
    }
  }

  lemma DecryptPartial(cfg: Config, iv: Bytes, chunks: seq<Bytes>)
    requires cfg.Valid() && cfg.decrypt && PrevOk(cfg, iv) && !Aligned(|Concat(chunks)|, cfg.c.size)
    ensures Run(cfg, iv, chunks) == Decrypted(cfg, iv, Concat(chunks))
  {
    hide Blocks, UpdateAll, Rem, Unpad;
    UpdateAllIs(cfg, iv, chunks);
    var ct, size := Concat(chunks), cfg.c.size;
    var m := |ct| - Held(cfg, |ct|);
    TakeLengthIs(cfg, |ct|);
    RemAdd(m, |ct| - m, size);
    RemIsMod(|ct| - m, size);
  }

  lemma DecryptNothing(cfg: Config, iv: Bytes, chunks: seq<Bytes>)
    requires cfg.Valid() && cfg.decrypt && PrevOk(cfg, iv) && Concat(chunks) == []
    ensures Run(cfg, iv, chunks) == Decrypted(cfg, iv, Concat(chunks))
  {
    hide *;
    UpdateAllIs(cfg, iv, chunks);
    NothingYet(cfg, iv);
    RunIs(cfg, iv, chunks);
    var none: Bytes := [];
    assert none + none == none;
  }

  lemma NothingYet(cfg: Config, iv: Bytes)
    requires cfg.Valid() && cfg.decrypt && PrevOk(cfg, iv)
    ensures After(cfg, iv, []) == (State(iv, []), [])
    ensures Final(cfg, State(iv, [])) == if cfg.padding then Err(WrongFinalBlockLength) else Ok([])
    ensures Decrypted(cfg, iv, []) == if cfg.padding then Err(WrongFinalBlockLength) else Ok([])
  {
    hide Blocks, Unpad;
    EmptyBlocks(cfg, iv);
    RemIsMod(0, cfg.c.size);
    var none: Bytes := [];
    assert none[..0] == [] && none[0..] == [];
  }

  /** The held-back block is exactly where the padding sits, so unpadding it unpads the whole. */
  lemma DecryptBlocks(cfg: Config, iv: Bytes, chunks: seq<Bytes>)
    requires cfg.Valid() && cfg.decrypt && PrevOk(cfg, iv)
    requires Aligned(|Concat(chunks)|, cfg.c.size) && Concat(chunks) != []
    ensures Run(cfg, iv, chunks) == Decrypted(cfg, iv, Concat(chunks))
  {
    hide *;
    UpdateAllIs(cfg, iv, chunks);
    var ct, size := Concat(chunks), cfg.c.size;
    ValidSize(cfg);
    var m := |ct| - Held(cfg, |ct|);
    AfterIs(cfg, iv, ct);
    var pending := ct[m..];
    var (head, mid) := Blocks(cfg, iv, ct[..m]);
    assert ct == ct[..m] + pending;
    BlocksConcat(cfg, iv, ct[..m], pending);
    FinalDecrypt(cfg, State(mid, pending));
    RunIs(cfg, iv, chunks);
    DecryptedIs(cfg, iv, ct);
    if cfg.padding {
      UnpadTail(size, head, Blocks(cfg, mid, pending).0);
    }
  }

  /** With whole blocks received, what is held back is nothing, or with padding the last block. */
  lemma AfterIs(cfg: Config, iv: Bytes, ct: Bytes)
    requires cfg.Valid() && cfg.decrypt && PrevOk(cfg, iv)
    requires Aligned(|ct|, cfg.c.size) && ct != []
    ensures var m := |ct| - Held(cfg, |ct|);
            && 0 <= m && Aligned(m, cfg.c.size) && Aligned(|ct| - m, cfg.c.size)
            && |ct| - m == (if cfg.padding then cfg.c.size else 0)
            && After(cfg, iv, ct) == (State(Blocks(cfg, iv, ct[..m]).1, ct[m..]), Blocks(cfg, iv, ct[..m]).0)
  {
    hide Blocks;
    TakeLengthIs(cfg, |ct|);
    RemPred(|ct|, cfg.c.size);
    RemAddBack(0, cfg.c.size);
  }

  lemma ValidSize(cfg: Config)
    requires cfg.Valid()
    ensures 0 < cfg.c.size < 256
  {
  }

  lemma FinalDecrypt(cfg: Config, s: State)
    requires cfg.Valid() && cfg.decrypt && PrevOk(cfg, s.prev) && Aligned(|s.pending|, cfg.c.size)
    requires cfg.padding ==> s.pending != []
    ensures cfg.padding ==> Blocks(cfg, s.prev, s.pending).0 != []
    ensures Final(cfg, s)
            == if cfg.padding then Unpad(cfg.c.size, Blocks(cfg, s.prev, s.pending).0) else Ok(Blocks(cfg, s.prev, s.pending).0)
  {
    hide Blocks, Unpad;
    RemIsMod(|s.pending|, cfg.c.size);
  }

  lemma RunIs(cfg: Config, iv: Bytes, chunks: seq<Bytes>)
    requires cfg.Valid() && PrevOk(cfg, iv)
    ensures var (s, out) := UpdateAll(cfg, iv, chunks);
            Run(cfg, iv, chunks) == match Final(cfg, s) case Ok(last) => Ok(out + last) case Err(e) => Err(e)
  {
    hide Final, UpdateAll;
  }

  lemma DecryptedIs(cfg: Config, iv: Bytes, ct: Bytes)
    requires cfg.Valid() && cfg.decrypt && PrevOk(cfg, iv)
    requires Aligned(|ct|, cfg.c.size) && ct != []
    ensures Blocks(cfg, iv, ct).0 != []
    ensures Decrypted(cfg, iv, ct) ==
              if cfg.padding then Unpad(cfg.c.size, Blocks(cfg, iv, ct).0) else Ok(Blocks(cfg, iv, ct).0)
  {
    hide Blocks, Unpad;
  }

  lemma UnpadTail(size: nat, head: Bytes, tail: Bytes)
    requires 0 < size == |tail|
    ensures Unpad(size, head + tail)
            == match Unpad(size, tail) case Ok(t) => Ok(head + t) case Err(e) => Err(e)
  {
    var whole := head + tail;
    var pad := tail[size - 1];
    assert whole[|whole| - 1] == pad;
    if 0 < pad <= size {
      assert forall i :: size - pad <= i < size ==> tail[i] == whole[|head| + i];
      assert forall i :: |whole| - pad <= i < |whole| ==> whole[i] == tail[i - |head|];
      assert whole[..|whole| - pad] == head + tail[..size - pad];
    }
  }

  lemma UnpadOfPad(size: nat, plain: Bytes)
    requires 0 < size < 256
    ensures Pad(size, plain) != [] && Unpad(size, Pad(size, plain)) == Ok(plain)
  {
    RemIsMod(|plain|, size);
    var padded := Pad(size, plain);
    var pad := size - |plain| % size;
    assert padded[..|padded| - pad] == plain;
  }

  /**
   Any split of the ciphertext of any split of the plaintext decrypts to the plaintext. Without
   padding, encryption succeeds exactly when the plaintext is a whole number of blocks.
   */
  lemma RoundTrip(cfg: Config, iv: Bytes, plain: seq<Bytes>, cipher: seq<Bytes>)
    requires cfg.Valid() && !cfg.decrypt && PrevOk(cfg, iv)
    requires Run(cfg, iv, plain) == Ok(Concat(cipher))
    ensures Run(Opposite(cfg), iv, cipher) == Ok(Concat(plain))
  {
    hide Blocks, Update, Unpad, Run;
    EncryptRun(cfg, iv, plain);
    var p, size := Concat(plain), cfg.c.size;
    var data := if cfg.padding then Pad(size, p) else p;
    if cfg.padding {
      PadAligned(size, p);
      UnpadOfPad(size, p);
    }
    BlocksInvert(cfg, iv, data);
    if data == [] {
      EmptyRun(cfg, iv, cipher);
    } else {
      DecryptRun(Opposite(cfg), iv, cipher);
    }
  }

  lemma EmptyRun(cfg: Config, iv: Bytes, cipher: seq<Bytes>)
    requires cfg.Valid() && !cfg.decrypt && !cfg.padding && PrevOk(cfg, iv) && Concat(cipher) == []
    ensures Run(Opposite(cfg), iv, cipher) == Ok([])
  {
    RemIsMod(0, cfg.c.size);
    var open := Opposite(cfg);
    assert UpdateAll(open, iv, []) == (State(iv, []), []);
    assert Final(open, State(iv, [])) == Ok([]);
    RunIs(open, iv, []);
    var none: Bytes := [];
    assert none + none == none;
    assert Run(open, iv, []) == Ok([]);
    ChunkIndependence(Opposite(cfg), iv, cipher, []);
  }

  lemma EncryptSucceeds(cfg: Config, iv: Bytes, plain: seq<Bytes>)
    requires cfg.Valid() && !cfg.decrypt && PrevOk(cfg, iv)
    ensures Run(cfg, iv, plain).Ok? <==> cfg.padding || |Concat(plain)| % cfg.c.size == 0
    ensures Run(cfg, iv, plain).Err? ==> Run(cfg, iv, plain).error == WrongFinalBlockLength
  {
    EncryptRun(cfg, iv, plain);
    RemIsMod(|Concat(plain)|, cfg.c.size);
  }
}
