/**
 Argon2's memory fill: which block each step reads and writes, the segment schedule, and the
 variable-length hash. The block compression itself is a parameter.
 */
module Argon2 {
  import opened Arith


  type Word = w: nat | w < 0x1_0000_0000_0000_0000
  type Block = b: seq<Word> | |b| == 128 witness seq(128, _ => 0)

  datatype Mode = D | I | ID

  /** g is a2ProcessBlock's result; mix is what a2ProcessBlockXOR leaves in its out block. */
  datatype Compression = Compression(g: (Block, Block) -> Block, mix: (Block, Block, Block) -> Block)

  /** The lane geometry a2ProcessBlocks computes once: every lane has four segments. */
  datatype Params = Params(time: nat, threads: nat, segments: nat, mode: Mode) {
    predicate Valid() {
      && threads >= 1
      && segments >= 2
      && Memory() < 0x1_0000_0000
      && time < 0x1_0000_0000
    }

    function Lanes(): (r: nat) {
      4 * segments
    }

    /** Where a lane begins: lane * Lanes(), written as a sum (see BaseIsProduct). */
    function Base(lane: nat): (r: nat) {
      if lane == 0 then 0 else Base(lane - 1) + Lanes()
    }

    function Memory(): (r: nat) {
      Base(threads)
    }

    function ModeCode(): Word {
      match mode case D => 0 case I => 1 case ID => 2
    }
  }

  function U32(x: int): (r: nat)
    ensures r < 0x1_0000_0000
  {
    if 0 <= x < 0x1_0000_0000 then x else x % 0x1_0000_0000
  }

  function U64(x: int): (r: nat)
    ensures r < 0x1_0000_0000_0000_0000
  {
    if 0 <= x < 0x1_0000_0000_0000_0000 then x else x % 0x1_0000_0000_0000_0000
  }

  // ---- memory size ----

  /** The rounding argon2Key applies to the requested memory, in uint32 arithmetic; it divides by the wrapped unit. */
  function RoundMemory(memory: nat, threads: nat): (m: nat)
    requires U32(4 * threads) > 0
    ensures m < 0x1_0000_0000
  {
    var unit := U32(4 * threads);
    var m := U32(memory / unit * unit);
    if m < U32(2 * unit) then U32(2 * unit) else m
  }

  lemma {:induction false} BaseIsProduct(p: Params, lane: nat)
    ensures p.Base(lane) == lane * p.Lanes()
    decreases lane
  {
    if lane > 0 {
      BaseIsProduct(p, lane - 1);
      assert lane * p.Lanes() == (lane - 1) * p.Lanes() + p.Lanes();
    }
  }

  lemma RoundedIsMultiple(memory: nat, threads: nat) returns (q: nat)
    requires 1 <= threads < 0x2000_0000 && memory < 0x1_0000_0000
    ensures q >= 2 && RoundMemory(memory, threads) == q * (4 * threads)
    ensures q * (4 * threads) <= memory || q == 2
    ensures memory < q * (4 * threads) + 4 * threads
  {
    var unit := 4 * threads;
    DivMod(memory, unit);
    q := memory / unit;
    if q < 2 {
      MulMono(q, 1, unit);
      q := 2;
    } else {
      MulMono(2, q, unit);
    }
  }

  /** After rounding, the memory is exactly threads lanes of four equal segments of at least two blocks. */
  lemma RoundMemoryValid(memory: nat, threads: nat, time: nat, mode: Mode)
    requires 1 <= threads < 0x2000_0000 && memory < 0x1_0000_0000 && time < 0x1_0000_0000
    ensures var m := RoundMemory(memory, threads);
            var p := Layout(m, threads, time, mode);
            && p.Valid() && p.Memory() == m && p.Lanes() == m / threads
            && (m <= memory || m == 8 * threads)
            && memory < m + 4 * threads
  {
    var q := RoundedIsMultiple(memory, threads);
    var m := RoundMemory(memory, threads);
    Regroup(q, threads);
    DivModUnique(4 * q, threads, 0);
    assert m / threads == 4 * q;
    BaseIsProduct(Params(time, threads, q, mode), threads);
    assert threads * (4 * q) == 4 * q * threads;
  }

  /** The geometry of a lane in so much memory. */
  function Layout(memory: nat, threads: nat, time: nat, mode: Mode): Params
    requires threads >= 1
  {
    Params(time, threads, memory / threads / 4, mode)
  }

  /** The rounded memory is a valid layout if and only if the products of the rounding do not wrap. */
  lemma RoundMemoryExactly(memory: nat, threads: nat, time: nat, mode: Mode)
    requires 1 <= threads < 0x1_0000_0000 && memory < 0x1_0000_0000 && time < 0x1_0000_0000 && U32(4 * threads) > 0
    ensures var m := RoundMemory(memory, threads);
            var p := Layout(m, threads, time, mode);
            p.Valid() && p.Memory() == m <==> threads < 0x2000_0000
  {
    if threads < 0x2000_0000 {
      RoundMemoryValid(memory, threads, time, mode);
    } else {
      hide RoundMemory, Params.Memory;
      FewBlocks(RoundMemory(memory, threads), threads);
    }
  }

  lemma FewBlocks(m: nat, threads: nat)
    requires m < 0x1_0000_0000 && threads >= 0x2000_0000
    ensures m / threads / 4 < 2
  {
    DivLess(m, threads, 8);
  }

  lemma Regroup(q: nat, threads: nat)
    ensures q * (4 * threads) == 4 * q * threads
  {
  }

  // ---- which block a step reads ----

  datatype Pos = Pos(n: nat, slice: nat, lane: nat, index: nat)

  /** The positions the segment loop visits: the first two blocks of a lane exist before it starts. */
  predicate Reached(p: Params, at: Pos)
    requires p.Valid()
  {
    && at.slice < 4
    && at.lane < p.threads
    && Start(at.n, at.slice) <= at.index < p.segments
  }

  function Start(n: nat, slice: nat): (r: nat) {
    if n == 0 && slice == 0 then 2 else 0
  }

  function RefLane(p: Params, rand: Word, at: Pos): (r: nat)
    requires p.threads >= 1
  {
    if at.n == 0 && at.slice == 0 then at.lane else rand / 0x1_0000_0000 % p.threads
  }

  /** The reference window of a2IndexAlpha: its size and its first column. */
  function Window(segments: nat, refLane: nat, at: Pos): (nat, nat) {
    var same := at.lane == refLane;
    var m0 := U32(3 * segments);
    var m1 := if same then U32(m0 + at.index) else m0;
    var s1 := U32((at.slice + 1) % 4 * segments);
    var m2 := if at.n == 0 then
                var base := U32(at.slice * segments);
                if at.slice == 0 || same then U32(base + at.index) else base
              else m1;
    var s2 := if at.n == 0 then 0 else s1;
    (if at.index == 0 || same then U32(m2 - 1) else m2, s2)
  }

  /** x >> 32. */
  function High(x: int): (h: int)
    ensures x >= 0 ==> h >= 0
  {
    x / 0x1_0000_0000
  }

  /** The uint64 expression inside a2Phi before the final reduction. */
  function PhiOffset(rand: Word, m: nat): nat {
    var p := rand % 0x1_0000_0000;
    var p := High(U64(p * p));
    High(U64(p * m))
  }

  function Phi(rand: Word, m: nat, s: nat, lane: nat, lanes: nat): nat
    requires lanes > 0
  {
    U32(U32(lane * lanes) + U64(s + m - (PhiOffset(rand, m) + 1)) % lanes)
  }

  function IndexAlpha(p: Params, rand: Word, at: Pos): nat
    requires p.threads >= 1 && p.Lanes() > 0
  {
    var refLane := RefLane(p, rand, at);
    var (m, s) := Window(p.segments, refLane, at);
    Phi(rand, m, s, refLane, p.Lanes())
  }

  /** The product form draws an offset strictly inside the window, so nothing underflows. */
  lemma PhiOffsetInWindow(rand: Word, m: nat)
    requires 1 <= m < 0x1_0000_0000
    ensures PhiOffset(rand, m) < m
  {
    hide High;
    var low := rand % 0x1_0000_0000;
    SquareFits(low);
    ProductFits(High(low * low), m);
  }

  lemma SquareFits(low: nat)
    requires low < 0x1_0000_0000
    ensures 0 <= low * low < 0x1_0000_0000_0000_0000 && High(low * low) < 0xFFFF_FFFF
  {
    hide High;
    MulMono(0, low, low);
    MulMono(low, 0xFFFF_FFFF, low);
    HighPart(low * low, 0xFFFF_FFFF);
  }

  lemma ProductFits(drawn: nat, m: nat)
    requires drawn < 0xFFFF_FFFF && 1 <= m < 0x1_0000_0000
    ensures 0 <= drawn * m < 0x1_0000_0000_0000_0000 && High(drawn * m) < m
  {
    hide High;
    MulMono(0, drawn, m);
    MulMono(drawn, 0xFFFF_FFFF, m);
    HighPart(drawn * m, m);
  }

  lemma HighPart(x: int, m: nat)
    requires x <= 0xFFFF_FFFF * m && 1 <= m < 0x1_0000_0000
    ensures x < 0x1_0000_0000_0000_0000 && High(x) < m
  {
  }

  lemma {:induction false} BaseMono(p: Params, lane: nat, upto: nat)
    requires lane < upto
    ensures p.Base(lane) + p.Lanes() <= p.Base(upto)
    decreases upto
  {
    if lane < upto - 1 {
      BaseMono(p, lane, upto - 1);
    }
  }

  lemma Fits(p: Params, lane: nat, col: nat)
    requires p.Valid() && lane < p.threads && col < p.Lanes()
    ensures p.Base(lane) + col < p.Memory()
    ensures p.Lanes() <= p.Memory()
  {
    BaseMono(p, lane, p.threads);
    BaseMono(p, 0, p.threads);
  }

  /**
   The size of the reference set W in section 3.4.2 of RFC 9106: the segments that are finished, and in the own lane the
   blocks of the current segment without the previous one; in another lane one block less at the start of a segment.
   */
  function StandardWindow(segments: nat, sameLane: bool, at: Pos): int {
    (if at.n == 0 then at.slice else 3) * segments
    + if sameLane then at.index - 1 else if at.index == 0 then -1 else 0
  }

  /** The window has the size the standard prescribes, is never empty and lies inside uint32. */
  lemma WindowShape(segments: nat, refLane: nat, at: Pos)
    requires at.slice < 4 && Start(at.n, at.slice) <= at.index < segments
    requires 2 <= segments && 4 * segments < 0x1_0000_0000
    requires at.n == 0 && at.slice == 0 ==> refLane == at.lane
    ensures var (m, s) := Window(segments, refLane, at);
            && m == StandardWindow(segments, refLane == at.lane, at)
            && 1 <= m < 4 * segments
            && s == (if at.n == 0 then 0 else (at.slice + 1) % 4 * segments)
            && s <= 3 * segments
            && (at.n == 0 ==> m <= at.slice * segments + (if refLane == at.lane then at.index - 1 else 0))
  {
    SliceCases(at.slice, segments);
  }

  lemma SliceCases(slice: nat, segs: nat)
    requires slice < 4
    ensures slice == 0 ==> slice * segs == 0 && (slice + 1) % 4 * segs == segs
    ensures slice == 1 ==> slice * segs == segs && (slice + 1) % 4 * segs == 2 * segs
    ensures slice == 2 ==> slice * segs == 2 * segs && (slice + 1) % 4 * segs == 3 * segs
    ensures slice == 3 ==> slice * segs == 3 * segs && (slice + 1) % 4 * segs == 0
  {
  }

  /** The column a step writes, and the column of the block before it. */
  function Col(p: Params, at: Pos): nat
    requires p.Valid()
  {
    at.slice * p.segments + at.index
  }

  function PrevCol(p: Params, at: Pos): int
    requires p.Valid()
  {
    if Col(p, at) == 0 then p.Lanes() - 1 else Col(p, at) - 1
  }

  /** The column chosen by a2IndexAlpha in its reference lane. */
  function RefCol(p: Params, rand: Word, at: Pos): (c: int)
    requires p.Valid()
  {
    IndexAlpha(p, rand, at) - p.Base(RefLane(p, rand, at))
  }

  /** Each sum, difference and product of a2IndexAlpha and a2Phi, in order, is inside its integer type. */
  ghost predicate NoneWraps(p: Params, rand: Word, at: Pos)
    requires p.Valid()
  {
    var refLane, same := RefLane(p, rand, at), RefLane(p, rand, at) == at.lane;
    var (m, s) := Window(p.segments, refLane, at);
    var low := rand % 0x1_0000_0000;
    var drawn := High(low * low);
    && 3 * p.segments + at.index < 0x1_0000_0000
    && (at.slice + 1) % 4 * p.segments < 0x1_0000_0000
    && at.slice * p.segments + at.index < 0x1_0000_0000
    && StandardWindow(p.segments, same, at) >= 0
    && low * low < 0x1_0000_0000_0000_0000
    && drawn * m < 0x1_0000_0000_0000_0000
    && 0 <= s + m - (High(drawn * m) + 1) && s + m < 0x1_0000_0000_0000_0000
    && refLane * p.Lanes() < 0x1_0000_0000
    && refLane * p.Lanes() + (s + m - (High(drawn * m) + 1)) % p.Lanes() < 0x1_0000_0000
  }

  lemma NothingWraps(p: Params, rand: Word, at: Pos)
    requires p.Valid() && Reached(p, at)
    ensures NoneWraps(p, rand, at)
  {
    hide *;
    WindowFits(p, rand, at);
    var (m, s) := Window(p.segments, RefLane(p, rand, at), at);
    PhiOffsetInWindow(rand, m);
    PhiOffsetIs(rand, m);
    var z := s + m - (PhiOffset(rand, m) + 1);
    LaneFits(p, RefLane(p, rand, at), z);
    NoneWrapsFrom(p, rand, at, m, s, z);
  }

  lemma WindowFits(p: Params, rand: Word, at: Pos)
    requires p.Valid() && Reached(p, at)
    ensures RefLane(p, rand, at) < p.threads
    ensures var (m, s) := Window(p.segments, RefLane(p, rand, at), at);
            && 1 <= m < 0x1_0000_0000 && s < 0x1_0000_0000
            && StandardWindow(p.segments, RefLane(p, rand, at) == at.lane, at) == m
    ensures 3 * p.segments + at.index < 0x1_0000_0000
    ensures (at.slice + 1) % 4 * p.segments < 0x1_0000_0000
    ensures at.slice * p.segments + at.index < 0x1_0000_0000
  {
    hide Window, StandardWindow;
    Fits(p, 0, 0);
    SliceCases(at.slice, p.segments);
    WindowShape(p.segments, RefLane(p, rand, at), at);
  }

  lemma LaneFits(p: Params, lane: nat, z: nat)
    requires p.Valid() && lane < p.threads
    ensures lane * p.Lanes() < 0x1_0000_0000
    ensures p.Lanes() > 0 && lane * p.Lanes() + z % p.Lanes() < 0x1_0000_0000
  {
    BaseIsProduct(p, lane);
    DivMod(z, p.Lanes());
    Fits(p, lane, z % p.Lanes());
    Fits(p, lane, 0);
  }

  lemma NoneWrapsFrom(p: Params, rand: Word, at: Pos, m: nat, s: nat, z: nat)
    requires p.Valid() && (m, s) == Window(p.segments, RefLane(p, rand, at), at)
    requires var low := rand % 0x1_0000_0000;
             && low * low < 0x1_0000_0000_0000_0000 && High(low * low) * m < 0x1_0000_0000_0000_0000
             && z == s + m - (High(High(low * low) * m) + 1)
    requires 1 <= m < 0x1_0000_0000 && s < 0x1_0000_0000
    requires StandardWindow(p.segments, RefLane(p, rand, at) == at.lane, at) == m
    requires 3 * p.segments + at.index < 0x1_0000_0000
    requires (at.slice + 1) % 4 * p.segments < 0x1_0000_0000
    requires at.slice * p.segments + at.index < 0x1_0000_0000
    requires var lane := RefLane(p, rand, at);
             lane * p.Lanes() < 0x1_0000_0000 && lane * p.Lanes() + z % p.Lanes() < 0x1_0000_0000
    ensures NoneWraps(p, rand, at)
  {
    hide High, Window, RefLane, StandardWindow, Params.Lanes;
  }

  /** The chosen column is the window's block that the draw points at. */
  lemma IndexAlphaUnwrapped(p: Params, rand: Word, at: Pos) returns (z: nat)
    requires p.Valid() && Reached(p, at)
    ensures var (m, s) := Window(p.segments, RefLane(p, rand, at), at);
            s <= z < s + m
    ensures var (m, s) := Window(p.segments, RefLane(p, rand, at), at);
            z == s + m - 1 - PhiOffset(rand, m)
    ensures z < 2 * p.Lanes()
    ensures RefLane(p, rand, at) < p.threads
    ensures RefCol(p, rand, at) == if z < p.Lanes() then z else z - p.Lanes()
  {
    var refLane, lanes := RefLane(p, rand, at), p.Lanes();
    Fits(p, 0, 0);
    WindowShape(p.segments, refLane, at);
    var (m, s) := Window(p.segments, refLane, at);
    PhiOffsetInWindow(rand, m);
    z := s + m - (PhiOffset(rand, m) + 1);
    SmallMod(z, lanes);
    Fits(p, refLane, z % lanes);
    BaseIsProduct(p, refLane);
    PhiPlaces(rand, m, s, refLane, lanes, p.Base(refLane), z % lanes);
  }

  /** The draw in unbounded arithmetic. */
  lemma PhiOffsetIs(rand: Word, m: nat)
    requires 1 <= m < 0x1_0000_0000
    ensures var low := rand % 0x1_0000_0000;
            var drawn := High(low * low);
            && low * low < 0x1_0000_0000_0000_0000 && drawn * m < 0x1_0000_0000_0000_0000
            && PhiOffset(rand, m) == High(drawn * m)
  {
    hide High;
    var low := rand % 0x1_0000_0000;
    SquareFits(low);
    ProductFits(High(low * low), m);
  }

  lemma PhiPlaces(rand: Word, m: nat, s: nat, lane: nat, lanes: nat, base: nat, col: nat)
    requires lanes > 0 && PhiOffset(rand, m) < m && s + m < 0x1_0000_0000_0000_0000
    requires col == (s + m - (PhiOffset(rand, m) + 1)) % lanes
    requires lane * lanes == base && base + col < 0x1_0000_0000
    ensures Phi(rand, m, s, lane, lanes) == base + col
  {
  }

  /**
   RFC 9106 section 3.4.2, for every pass, slice, lane, index and pseudo-random word: the chosen
   block lies in the reference lane; it is neither the block being written nor the one before it; in
   another lane it is outside the current slice; and in pass 0 it has already been written.
   */
  lemma ReferenceBlock(p: Params, rand: Word, at: Pos)
    requires p.Valid() && Reached(p, at)
    ensures RefLane(p, rand, at) < p.threads
    ensures 0 <= RefCol(p, rand, at) < p.Lanes()
    ensures IndexAlpha(p, rand, at) == p.Base(RefLane(p, rand, at)) + RefCol(p, rand, at)
    ensures RefLane(p, rand, at) == at.lane ==>
              && RefCol(p, rand, at) != PrevCol(p, at)
              && !(Col(p, at) <= RefCol(p, rand, at) < (at.slice + 1) * p.segments)
    ensures RefLane(p, rand, at) != at.lane ==>
              !(at.slice * p.segments <= RefCol(p, rand, at) < (at.slice + 1) * p.segments)
    ensures at.n == 0 ==>
              RefCol(p, rand, at) < at.slice * p.segments + (if RefLane(p, rand, at) == at.lane then at.index else 0)
  {
    Fits(p, 0, 0);
    WindowShape(p.segments, RefLane(p, rand, at), at);
    var z := IndexAlphaUnwrapped(p, rand, at);
    SliceCases(at.slice, p.segments);
    assert (at.slice + 1) * p.segments == at.slice * p.segments + p.segments;
  }

  // ---- one step ----

  function OffsetOf(p: Params, at: Pos): nat
    requires p.Valid()
  {
    U32(U32(U32(at.lane * p.Lanes()) + U32(at.slice * p.segments)) + at.index)
  }

  function PrevOf(p: Params, at: Pos): nat
    requires p.Valid()
  {
    var prev := U32(OffsetOf(p, at) - 1);
    if at.index == 0 && at.slice == 0 then U32(prev + p.Lanes()) else prev
  }

  lemma StepPlaces(p: Params, at: Pos)
    requires p.Valid() && Reached(p, at)
    ensures Col(p, at) < p.Lanes() && 0 <= PrevCol(p, at) < p.Lanes()
    ensures OffsetOf(p, at) == p.Base(at.lane) + Col(p, at) < p.Memory()
    ensures PrevOf(p, at) == p.Base(at.lane) + PrevCol(p, at) < p.Memory()
    ensures OffsetOf(p, at) != PrevOf(p, at)
  {
    SliceCases(at.slice, p.segments);
    Fits(p, at.lane, Col(p, at));
    Fits(p, at.lane, PrevCol(p, at));
    BaseIsProduct(p, at.lane);
    hide Params.Base, Params.Memory;
  }

  /** The three blocks of a step are in the memory, and different. */
  lemma StepBlocks(p: Params, rand: Word, at: Pos)
    requires p.Valid() && Reached(p, at)
    ensures OffsetOf(p, at) < p.Memory() && PrevOf(p, at) < p.Memory() && IndexAlpha(p, rand, at) < p.Memory()
    ensures OffsetOf(p, at) != PrevOf(p, at)
    ensures IndexAlpha(p, rand, at) != OffsetOf(p, at) && IndexAlpha(p, rand, at) != PrevOf(p, at)
  {
    hide IndexAlpha, OffsetOf, PrevOf, RefCol, RefLane;
    StepPlaces(p, at);
    ReferenceBlock(p, rand, at);
    Fits(p, RefLane(p, rand, at), RefCol(p, rand, at));
    ColInSegment(p, at);
    var refLane, refCol := RefLane(p, rand, at), RefCol(p, rand, at);
    if refLane < at.lane {
      BaseMono(p, refLane, at.lane);
    } else if at.lane < refLane {
      BaseMono(p, at.lane, refLane);
    }
  }

  lemma ColInSegment(p: Params, at: Pos)
    requires p.Valid() && Reached(p, at)
    ensures Col(p, at) < (at.slice + 1) * p.segments
  {
    SliceCases(at.slice, p.segments);
  }

  predicate DataIndependent(p: Params, n: nat, slice: nat) {
    p.mode == I || (p.mode == ID && n == 0 && slice < 4 / 2)
  }

  function ZeroBlock(): Block {
    seq(128, _ => 0)
  }

  /** The counter block behind the addresses, with the counter in word 6. */
  function InputBlock(p: Params, n: nat, slice: nat, lane: nat, counter: nat): Block {
    [U64(n), U64(lane), U64(slice), U64(p.Memory()), U64(p.time), p.ModeCode(), U64(counter)] + seq(121, _ => 0)
  }

  function Addresses(c: Compression, p: Params, n: nat, slice: nat, lane: nat, counter: nat): Block {
    c.g(c.g(InputBlock(p, n, slice, lane, counter), ZeroBlock()), ZeroBlock())
  }

  /** The word a step draws: from the address blocks or from the previous block. */
  function Draw(c: Compression, p: Params, prev: Block, at: Pos): Word
    requires p.Valid()
  {
    if DataIndependent(p, at.n, at.slice)
    then Addresses(c, p, at.n, at.slice, at.lane, at.index / 128 + 1)[at.index % 128]
    else prev[0]
  }

  function StepBlock(c: Compression, p: Params, mem: seq<Block>, at: Pos): Block
    requires p.Valid() && Reached(p, at) && |mem| == p.Memory()
  {
    StepPlaces(p, at);
    var prev := mem[PrevOf(p, at)];
    var rand := Draw(c, p, prev, at);
    ReferenceBlock(p, rand, at);
    Fits(p, RefLane(p, rand, at), RefCol(p, rand, at));
    c.mix(mem[OffsetOf(p, at)], prev, mem[IndexAlpha(p, rand, at)])
  }

  function Step(c: Compression, p: Params, mem: seq<Block>, at: Pos): (r: seq<Block>)
    requires p.Valid() && Reached(p, at) && |mem| == p.Memory()
    ensures |r| == |mem|
  {
    StepPlaces(p, at);
    mem[OffsetOf(p, at) := StepBlock(c, p, mem, at)]
  }

  /** One goroutine run alone, from at.index to the end of its segment. */
  function Segment(c: Compression, p: Params, mem: seq<Block>, at: Pos): (r: seq<Block>)
    requires p.Valid() && |mem| == p.Memory()
    requires at.slice < 4 && at.lane < p.threads && Start(at.n, at.slice) <= at.index
    ensures |r| == |mem|
    decreases p.segments - at.index
  {
    if at.index >= p.segments then mem
    else Segment(c, p, Step(c, p, mem, at), at.(index := at.index + 1))
  }

  /** The lanes of a slice filled one after another in a given order. */
  function FillLanes(c: Compression, p: Params, mem: seq<Block>, n: nat, slice: nat, order: seq<nat>): (r: seq<Block>)
    requires p.Valid() && |mem| == p.Memory() && slice < 4
    requires forall i :: 0 <= i < |order| ==> order[i] < p.threads
    ensures |r| == |mem|
    decreases |order|
  {
    if order == [] then mem
    else FillLanes(c, p, Segment(c, p, mem, Pos(n, slice, order[0], Start(n, slice))), n, slice, order[1..])
  }

  function InOrder(k: nat): (r: seq<nat>)
    ensures |r| == k && forall i :: 0 <= i < k ==> r[i] == i
  {
    seq(k, i => i)
  }

  function FillSlices(c: Compression, p: Params, mem: seq<Block>, n: nat, slice: nat): (r: seq<Block>)
    requires p.Valid() && |mem| == p.Memory() && slice <= 4
    ensures |r| == |mem|
  {
    if slice == 0 then mem
    else FillLanes(c, p, FillSlices(c, p, mem, n, slice - 1), n, slice - 1, InOrder(p.threads))
  }

  function FillPasses(c: Compression, p: Params, mem: seq<Block>, n: nat): (r: seq<Block>)
    requires p.Valid() && |mem| == p.Memory()
    ensures |r| == |mem|
  {
    if n == 0 then mem
    else FillSlices(c, p, FillPasses(c, p, mem, n - 1), n - 1, 4)
  }

  // ---- the loops of a2ProcessBlocks ----

  method ProcessSegment(c: Compression, p: Params, B: array<Block>, n: nat, slice: nat, lane: nat)
    requires p.Valid() && B.Length == p.Memory() && slice < 4 && lane < p.threads
    modifies B
    ensures B[..] == Segment(c, p, old(B[..]), Pos(n, slice, lane, Start(n, slice)))
  {
    hide *;
    var independent := DataIndependent(p, n, slice);
    var addresses := ZeroBlock();
    var counter := 0;
    var index := 0;
    if n == 0 && slice == 0 {
      index := 2;
      if p.mode == I || p.mode == ID {
        counter := counter + 1;
        addresses := c.g(InputBlock(p, n, slice, lane, counter), ZeroBlock());
        addresses := c.g(addresses, ZeroBlock());
        AddressesIs(c, p, n, slice, lane, counter);
      }
    }
    StartIs(p, n, slice);
    SegmentIs(c, p, B[..], Pos(n, slice, lane, index));
    NoRefreshYet();
    ghost var whole := Segment(c, p, B[..], Pos(n, slice, lane, index));
    var offset: int := U32(U32(U32(lane * p.Lanes()) + U32(slice * p.segments)) + index);
    OffsetIs(p, Pos(n, slice, lane, index));
    while index < p.segments
      invariant Start(n, slice) <= index <= p.segments
      invariant index < p.segments ==> offset == OffsetOf(p, Pos(n, slice, lane, index))
      invariant independent ==> Refreshed(counter, index)
      invariant independent && index % 128 != 0 ==> addresses == Addresses(c, p, n, slice, lane, counter)
      invariant Segment(c, p, B[..], Pos(n, slice, lane, index)) == whole
    {
      ghost var at := Pos(n, slice, lane, index);
      ReachedIs(p, at);
      SegmentIs(c, p, B[..], at);
      var prev := U32(offset - 1);
      if index == 0 && slice == 0 {
        prev := U32(prev + p.Lanes());
      }
      PrevIs(p, at);
      StepPlaces(p, at);
      var random: Word;
      if independent {
        NextRefresh(counter, index);
        if index % 128 == 0 {
          counter := counter + 1;
          addresses := c.g(InputBlock(p, n, slice, lane, counter), ZeroBlock());
          addresses := c.g(addresses, ZeroBlock());
          AddressesIs(c, p, n, slice, lane, counter);
        }
        random := addresses[index % 128];
      } else {
        random := B[prev][0];
      }
      DrawIs(c, p, B[prev], at);
      var newOffset := IndexAlpha(p, random, Pos(n, slice, lane, index));
      ghost var before := B[..];
      StepIs(c, p, before, at, random);
      B[offset] := c.mix(B[offset], B[prev], B[newOffset]);
      assert B[..] == Step(c, p, before, at);
      index, offset := index + 1, U32(offset + 1);
      NextOffset(p, at);
    }
    SegmentIs(c, p, B[..], Pos(n, slice, lane, index));
  }

  lemma StartIs(p: Params, n: nat, slice: nat)
    requires p.Valid()
    ensures Start(n, slice) == if n == 0 && slice == 0 then 2 else 0
    ensures Start(n, slice) <= p.segments
    ensures n == 0 && slice == 0 ==> (DataIndependent(p, n, slice) <==> p.mode == I || p.mode == ID)
  {
  }

  lemma ReachedIs(p: Params, at: Pos)
    requires p.Valid()
    ensures Reached(p, at) <==> at.slice < 4 && at.lane < p.threads && Start(at.n, at.slice) <= at.index < p.segments
  {
  }

  lemma SegmentIs(c: Compression, p: Params, mem: seq<Block>, at: Pos)
    requires p.Valid() && |mem| == p.Memory()
    requires at.slice < 4 && at.lane < p.threads && Start(at.n, at.slice) <= at.index
    ensures at.index >= p.segments ==> Segment(c, p, mem, at) == mem
    ensures at.index < p.segments ==>
              Reached(p, at) && Segment(c, p, mem, at) == Segment(c, p, Step(c, p, mem, at), at.(index := at.index + 1))
  {
  }

  lemma NoRefreshYet()
    ensures Refreshed(0, 0) && Refreshed(1, 2)
  {
  }

  /** How many address blocks have been generated when the loop reaches index. */
  predicate Refreshed(counter: nat, index: nat) {
    counter == (index + 127) / 128
  }

  lemma NextRefresh(counter: nat, index: nat)
    requires Refreshed(counter, index)
    ensures index % 128 == 0 ==> counter == index / 128 && Refreshed(counter + 1, index + 1)
    ensures index % 128 != 0 ==> counter == index / 128 + 1 && Refreshed(counter, index + 1)
  {
  }

  lemma OffsetIs(p: Params, at: Pos)
    requires p.Valid()
    ensures OffsetOf(p, at) == U32(U32(U32(at.lane * p.Lanes()) + U32(at.slice * p.segments)) + at.index)
  {
  }

  lemma PrevIs(p: Params, at: Pos)
    requires p.Valid()
    ensures var prev := U32(OffsetOf(p, at) - 1);
            PrevOf(p, at) == if at.index == 0 && at.slice == 0 then U32(prev + p.Lanes()) else prev
  {
  }

  lemma AddressesIs(c: Compression, p: Params, n: nat, slice: nat, lane: nat, counter: nat)
    ensures Addresses(c, p, n, slice, lane, counter)
            == c.g(c.g(InputBlock(p, n, slice, lane, counter), ZeroBlock()), ZeroBlock())
  {
  }

  lemma DrawIs(c: Compression, p: Params, prev: Block, at: Pos)
    requires p.Valid()
    ensures DataIndependent(p, at.n, at.slice) ==>
              Draw(c, p, prev, at) == Addresses(c, p, at.n, at.slice, at.lane, at.index / 128 + 1)[at.index % 128]
    ensures !DataIndependent(p, at.n, at.slice) ==> Draw(c, p, prev, at) == prev[0]
  {
  }

  /** What a step writes, given the word it drew; every block it touches exists. */
  lemma StepIs(c: Compression, p: Params, mem: seq<Block>, at: Pos, rand: Word)
    requires p.Valid() && Reached(p, at) && |mem| == p.Memory()
    requires PrevOf(p, at) < |mem| && rand == Draw(c, p, mem[PrevOf(p, at)], at)
    ensures OffsetOf(p, at) < |mem| && IndexAlpha(p, rand, at) < |mem|
    ensures Step(c, p, mem, at)
            == mem[OffsetOf(p, at) := c.mix(mem[OffsetOf(p, at)], mem[PrevOf(p, at)], mem[IndexAlpha(p, rand, at)])]
  {
    hide IndexAlpha, Draw;
    StepPlaces(p, at);
    ReferenceBlock(p, rand, at);
    Fits(p, RefLane(p, rand, at), RefCol(p, rand, at));
  }

  lemma NextOffset(p: Params, at: Pos)
    requires p.Valid() && Reached(p, at)
    ensures at.index + 1 < p.segments ==> U32(OffsetOf(p, at) + 1) == OffsetOf(p, at.(index := at.index + 1))
  {
    StepPlaces(p, at);
    if at.index + 1 < p.segments {
      StepPlaces(p, at.(index := at.index + 1));
    }
  }

  /** a2ProcessBlocks with the goroutines of a slice run in lane order; Argon2Parallel removes the order. */
  method ProcessBlocks(c: Compression, p: Params, B: array<Block>)
    requires p.Valid() && B.Length == p.Memory()
    modifies B
    ensures B[..] == FillPasses(c, p, old(B[..]), p.time)
  {
    hide Segment;
    for n := 0 to p.time
      invariant B[..] == FillPasses(c, p, old(B[..]), n)
    {
      for slice := 0 to 4
        invariant B[..] == FillSlices(c, p, FillPasses(c, p, old(B[..]), n), n, slice)
      {
        ghost var before := B[..];
        for lane := 0 to p.threads
          invariant B[..] == FillLanes(c, p, before, n, slice, InOrder(lane))
        {
          ProcessSegment(c, p, B, n, slice, lane);
          assert InOrder(lane + 1) == InOrder(lane) + [lane];
          FillLanesAppend(c, p, before, n, slice, InOrder(lane), lane);
        }
      }
    }
  }

  lemma {:induction false} FillLanesAppend(c: Compression, p: Params, mem: seq<Block>, n: nat, slice: nat, order: seq<nat>, lane: nat)
    requires p.Valid() && |mem| == p.Memory() && slice < 4
    requires (forall i :: 0 <= i < |order| ==> order[i] < p.threads) && lane < p.threads
    ensures FillLanes(c, p, mem, n, slice, order + [lane])
            == Segment(c, p, FillLanes(c, p, mem, n, slice, order), Pos(n, slice, lane, Start(n, slice)))
    decreases |order|
  {
    hide Segment;
    if order == [] {
      assert order + [lane] == [lane];
    } else {
      assert (order + [lane])[1..] == order[1..] + [lane];
      FillLanesAppend(c, p, Segment(c, p, mem, Pos(n, slice, order[0], Start(n, slice))), n, slice, order[1..], lane);
    }
  }
}
