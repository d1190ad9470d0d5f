/** The cipher object's block modes: fields updated in place by update and final. */
module CipherContext {
  import opened Bytes
  import opened Wrappers
  import opened CipherModes

  class CipherCtx {
    const cfg: Config
    var pending: Bytes
    var cbcPrev: Bytes
    var finalized: bool

    ghost predicate Valid()
      reads this
    {
      cfg.Valid() && PrevOk(cfg, cbcPrev)
    }

    constructor (cfg: Config, iv: Bytes)
      requires cfg.Valid() && PrevOk(cfg, iv)
      ensures Valid() && this.cfg == cfg && !finalized && State(cbcPrev, pending) == State(iv, [])
    {
      this.cfg := cfg;
      pending, cbcPrev, finalized := [], iv, false;
    }

    /** The block loop of blocks(): each block goes through the cipher and moves the chaining value. */
    method RunBlocks(data: Bytes) returns (out: Bytes)
      requires Valid() && Aligned(|data|, cfg.c.size)
      modifies this`cbcPrev
      ensures Valid() && (out, cbcPrev) == Blocks(cfg, old(cbcPrev), data)
      ensures Chained(cfg, old(cbcPrev), data, out)
    {
      hide Blocks, OneBlock, Chained, Rem, Aligned, Config.Valid;
      ValidSize(cfg);
      BlockAligned(cfg.c.size);
      out := [];
      var i := 0;
      EmptyBlocks(cfg, cbcPrev);
      while i < |data|
        invariant 0 <= i <= |data| && Valid() && Aligned(i, cfg.c.size) && Aligned(|data| - i, cfg.c.size)
        invariant (out, cbcPrev) == Blocks(cfg, old(cbcPrev), data[..i])
      {
        AlignedTail(|data| - i, cfg.c.size);
        AlignedNext(i, cfg.c.size);
        var src := data[i..i + cfg.c.size];
        OneMoreBlock(cfg, old(cbcPrev), data[..i], src);
        var (dst, next) := OneBlock(cfg, cbcPrev, src);
        assert data[..i + cfg.c.size] == data[..i] + src;
        out, cbcPrev := out + dst, next;
        i := i + cfg.c.size;
      }
      assert data[..i] == data;
      BlocksChained(cfg, old(cbcPrev), data);
    }

    /** Rejected after final; otherwise processes all whole blocks that cannot carry the padding. */
    method Update(input: Bytes) returns (r: Result<Bytes, Error>)
      requires Valid()
      modifies this`pending, this`cbcPrev
      ensures Valid()
      ensures finalized ==> r == Err(UnsupportedState) && cbcPrev == old(cbcPrev) && pending == old(pending)
      ensures !finalized ==>
                r.Ok? && (State(cbcPrev, pending), r.value) == CipherModes.Update(cfg, old(State(cbcPrev, pending)), input)
    {
      if finalized {
        return Err(UnsupportedState);
      }
      hide Blocks, Chained, TakeLength, Held, Rem, Aligned, CipherModes.Update, Config.Valid;
      ValidSize(cfg);
      UpdateIs(cfg, State(cbcPrev, pending), input);
      pending := pending + input;
      var n := |pending| / cfg.c.size * cfg.c.size;
      if cfg.decrypt && cfg.padding && n == |pending| && n > 0 {
        n := n - cfg.c.size;
      }
      var out := RunBlocks(pending[..n]);
      pending := pending[n..];
      r := Ok(out);
    }

    /** Usable once; applies or removes the padding of the last block. */
    method Final() returns (r: Result<Bytes, Error>)
      requires Valid()
      modifies this
      ensures Valid() && finalized
      ensures old(finalized) ==> r == Err(UnsupportedState) && cbcPrev == old(cbcPrev) && pending == old(pending)
      ensures !old(finalized) ==> r == CipherModes.Final(cfg, old(State(cbcPrev, pending)))
    {
      if finalized {
        return Err(UnsupportedState);
      }
      hide Blocks, Chained, Unpad, Pad, Rem;
      finalized := true;
      var size := cfg.c.size;
      RemIsMod(|pending|, size);
      if !cfg.decrypt {
        if cfg.padding {
          PadAligned(size, pending);
          PadPending();
        } else if |pending| % size != 0 {
          return Err(WrongFinalBlockLength);
        }
        var out := RunBlocks(pending);
        return Ok(out);
      }
      if |pending| % size != 0 || (cfg.padding && pending == []) {
        return Err(WrongFinalBlockLength);
      }
      var out := RunBlocks(pending);
      if !cfg.padding {
        return Ok(out);
      }
      BlockLength(|out|, size);
      r := StripPadding(out);
    }

    method PadPending()
      requires Valid()
      modifies this`pending
      ensures pending == Pad(cfg.c.size, old(pending))
    {
      var start := pending;
      var pad := cfg.c.size - |pending| % cfg.c.size;
      for k := 0 to pad
        invariant pending == start + seq(k, _ => pad)
      {
        pending := pending + [pad];
      }
    }

    method StripPadding(out: Bytes) returns (r: Result<Bytes, Error>)
      requires Valid() && |out| >= cfg.c.size
      ensures out != [] && r == Unpad(cfg.c.size, out)
    {
      var pad := out[|out| - 1];
      if pad == 0 || pad > cfg.c.size {
        return Err(BadDecrypt);
      }
      for k := |out| - pad to |out|
        invariant forall i :: |out| - pad <= i < k ==> out[i] == pad
      {
        if out[k] != pad {
          return Err(BadDecrypt);
        }
      }
      r := Ok(out[..|out| - pad]);
    }
  }

  lemma UpdateIs(cfg: Config, s: State, input: Bytes)
    requires cfg.Valid() && PrevOk(cfg, s.prev)
    ensures cfg.c.size > 0
    ensures var total := s.pending + input;
      var whole := |total| / cfg.c.size * cfg.c.size;
      var n := if cfg.decrypt && cfg.padding && whole == |total| && whole > 0 then whole - cfg.c.size else whole;
      && 0 <= n <= |total| && Aligned(n, cfg.c.size)
      && var (out, prev) := Blocks(cfg, s.prev, total[..n]);
         CipherModes.Update(cfg, s, input) == (State(prev, total[n..]), out)
  {
    hide Blocks, Held, Config.Valid;
    ValidSize(cfg);
    TakeLengthIs(cfg, |s.pending + input|);
  }

  lemma BlockLength(n: nat, size: nat)
    requires size > 0 && n > 0 && Aligned(n, size)
    ensures n >= size
  {
  }

  lemma OneMoreBlock(cfg: Config, prev: Bytes, data: Bytes, src: Bytes)
    requires cfg.Valid() && PrevOk(cfg, prev) && Aligned(|data|, cfg.c.size) && |src| == cfg.c.size
    ensures Aligned(|data + src|, cfg.c.size)
    ensures var (out, mid) := Blocks(cfg, prev, data);
            var (dst, next) := OneBlock(cfg, mid, src);
            Blocks(cfg, prev, data + src) == (out + dst, next)
  {
    hide *;
    ValidSize(cfg);
    BlockAligned(cfg.c.size);
    BlocksConcat(cfg, prev, data, src);
    var mid := Blocks(cfg, prev, data).1;
    EmptyBlocks(cfg, OneBlock(cfg, mid, src).1);
    assert src + [] == src;
    BlocksIs(cfg, mid, src, []);
    assert OneBlock(cfg, mid, src).0 + [] == OneBlock(cfg, mid, src).0;
  }

  lemma AlignedNext(n: nat, size: nat)
    requires size > 0 && Aligned(n, size)
    ensures Aligned(n + size, size)
  {
    RemAddBack(n, size);
  }

  lemma BlockAligned(size: nat)
    requires size > 0
    ensures Aligned(size, size) && Aligned(0, size)
  {
    RemAddBack(0, size);
  }
}
