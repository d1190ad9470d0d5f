/** The memory fill as section 3.4 of RFC 9106 states it: where each step draws, what it reads and writes, and the order. */
module Argon2Standard {
  import opened Argon2

  /**
   Section 3.4.1: Argon2i, and Argon2id in the first two slices of its first pass, draw word index % 128 of an address
   block, whatever is in the memory; all others draw the first word of the previous block.
   */
  lemma DrawIsStandard(c: Compression, p: Params, prev: Block, at: Pos) returns (input: Block, zero: Block)
    requires p.Valid() && Reached(p, at) && at.n < p.time
    ensures input[0] == at.n && input[1] == at.lane && input[2] == at.slice
    ensures input[3] == 4 * p.segments * p.threads && input[4] == p.time
    ensures input[5] == (match p.mode case D => 0 case I => 1 case ID => 2)
    ensures input[6] == at.index / 128 + 1 && forall k | 7 <= k < 128 :: input[k] == 0
    ensures forall k | 0 <= k < 128 :: zero[k] == 0
    ensures p.mode == I || (p.mode == ID && at.n == 0 && at.slice < 2) ==>
      Draw(c, p, prev, at) == c.g(c.g(input, zero), zero)[at.index % 128]
    ensures p.mode == D || (p.mode == ID && (at.n > 0 || at.slice >= 2)) ==> Draw(c, p, prev, at) == prev[0]
  {
    hide Params.Base;
    input := InputBlock(p, at.n, at.slice, at.lane, at.index / 128 + 1);
    zero := ZeroBlock();
    Fits(p, at.lane, at.index);
    BaseIsProduct(p, p.threads);
    LanesBound(p, p.threads);
    assert p.threads * (4 * p.segments) == 4 * p.segments * p.threads;
  }

  /** Every lane has blocks, so there are no more lanes than blocks. */
  lemma {:induction false} LanesBound(p: Params, lane: nat)
    requires p.segments >= 2
    ensures lane + p.segments * (if lane > 0 then 1 else 0) <= p.Base(lane)
    decreases lane
  {
    if lane > 0 {
      LanesBound(p, lane - 1);
    }
  }

  /**
   Sections 3.4.1.3 and 3.4.2: the lane is the high half of the draw modulo the lanes, the own one in the first slice;
   the low half x picks block |W| - 1 - (|W| * (x * x / 2^32) / 2^32) of the window W, which in pass 0 begins with
   the lane and later behind the running slice.
   */
  lemma StepIsStandard(c: Compression, p: Params, mem: seq<Block>, at: Pos)
      returns (cur: nat, prev: nat, rand: Word, lane: nat, window: nat, offset: nat)
    requires p.Valid() && Reached(p, at) && |mem| == p.Memory()
    ensures |mem| == p.threads * (4 * p.segments)
    ensures cur == at.lane * (4 * p.segments) + at.slice * p.segments + at.index < |mem|
    ensures prev == (if at.slice == 0 && at.index == 0 then cur + 4 * p.segments - 1 else cur - 1) < |mem|
    ensures rand == Draw(c, p, mem[prev], at)
    ensures lane == (if at.n == 0 && at.slice == 0 then at.lane else rand / 0x1_0000_0000 % p.threads) < p.threads
    ensures window == (if at.n == 0 then at.slice else 3) * p.segments
      + (if lane == at.lane then at.index - 1 else if at.index == 0 then -1 else 0)
    ensures var x := rand % 0x1_0000_0000;
      offset == window - 1 - x * x / 0x1_0000_0000 * window / 0x1_0000_0000 < window
    ensures var start := if at.n == 0 then 0 else (at.slice + 1) % 4 * p.segments;
      var ref := lane * (4 * p.segments) + (start + offset) % (4 * p.segments);
      ref < |mem| && Step(c, p, mem, at) == mem[cur := c.mix(mem[cur], mem[prev], mem[ref])]
  {
    hide *;
    MemoryIs(p);
    ReachedIs(p, at);
    cur, prev := PlacesAre(p, at);
    rand := Draw(c, p, mem[prev], at);
    lane, window, offset := ReferenceIs(p, rand, at);
    StepIs(c, p, mem, at, rand);
  }

  /** The block that is written, and the one before it, round the lane. */
  lemma PlacesAre(p: Params, at: Pos) returns (cur: nat, prev: nat)
    requires p.Valid() && Reached(p, at)
    ensures cur == OffsetOf(p, at) == at.lane * (4 * p.segments) + at.slice * p.segments + at.index < p.Memory()
    ensures prev == PrevOf(p, at) == (if at.slice == 0 && at.index == 0 then cur + 4 * p.segments - 1 else cur - 1) < p.Memory()
  {
    hide OffsetOf, PrevOf, Params.Base, Params.Memory;
    BaseIsProduct(p, at.lane);
    StepPlaces(p, at);
    SliceCases(at.slice, p.segments);
    cur, prev := OffsetOf(p, at), PrevOf(p, at);
  }

  /** The block that the draw points at. */
  lemma ReferenceIs(p: Params, rand: Word, at: Pos) returns (lane: nat, window: nat, offset: nat)
    requires p.Valid() && Reached(p, at)
    ensures lane == (if at.n == 0 && at.slice == 0 then at.lane else rand / 0x1_0000_0000 % p.threads) < p.threads
    ensures window == (if at.n == 0 then at.slice else 3) * p.segments
      + (if lane == at.lane then at.index - 1 else if at.index == 0 then -1 else 0)
    ensures var x := rand % 0x1_0000_0000;
      offset == window - 1 - x * x / 0x1_0000_0000 * window / 0x1_0000_0000 < window
    ensures var start := if at.n == 0 then 0 else (at.slice + 1) % 4 * p.segments;
      IndexAlpha(p, rand, at) == lane * (4 * p.segments) + (start + offset) % (4 * p.segments)
  {
    hide IndexAlpha, Window, PhiOffset, High, Params.Base, Params.Memory;
    lane := RefLane(p, rand, at);
    BaseIsProduct(p, lane);
    Fits(p, 0, 0);
    WindowShape(p.segments, lane, at);
    window := Window(p.segments, lane, at).0;
    var z := IndexAlphaUnwrapped(p, rand, at);
    OffsetInWindow(rand, window);
    offset := window - 1 - PhiOffset(rand, window);
    Wraps(z, 4 * p.segments);
  }

  lemma OffsetInWindow(rand: Word, m: nat)
    requires 1 <= m < 0x1_0000_0000
    ensures var x := rand % 0x1_0000_0000;
      0 <= PhiOffset(rand, m) == x * x / 0x1_0000_0000 * m / 0x1_0000_0000 < m
  {
    hide High, PhiOffset;
    PhiOffsetInWindow(rand, m);
    PhiOffsetIs(rand, m);
    var x := rand % 0x1_0000_0000;
    HighIs(x * x);
    HighIs(High(x * x) * m);
  }

  lemma MemoryIs(p: Params)
    requires p.Valid()
    ensures p.Memory() == p.threads * (4 * p.segments)
    ensures 4 * p.segments < 0x1_0000_0000
  {
    BaseIsProduct(p, p.threads);
    Fits(p, 0, 0);
  }

  lemma HighIs(x: nat)
    ensures High(x) == x / 0x1_0000_0000
  {
  }

  lemma Wraps(z: nat, lanes: nat)
    requires 0 < lanes && z < 2 * lanes
    ensures z % lanes == if z < lanes then z else z - lanes
  {
  }

  // ---- the order of the steps ----

  /** Steps at these positions, one after another. */
  ghost function Steps(c: Compression, p: Params, mem: seq<Block>, order: seq<Pos>): (r: seq<Block>)
    requires p.Valid() && |mem| == p.Memory() && forall x | x in order :: Reached(p, x)
    ensures |r| == |mem|
    decreases |order|
  {
    if order == [] then mem else Steps(c, p, Step(c, p, mem, order[0]), order[1..])
  }

  lemma {:induction false} StepsConcat(c: Compression, p: Params, mem: seq<Block>, a: seq<Pos>, b: seq<Pos>)
    requires p.Valid() && |mem| == p.Memory()
    requires (forall x | x in a :: Reached(p, x)) && (forall x | x in b :: Reached(p, x))
    ensures Steps(c, p, mem, a + b) == Steps(c, p, Steps(c, p, mem, a), b)
    decreases |a|
  {
    hide Step, Reached;
    if a == [] {
      assert a + b == b;
    } else {
      StepsConcat(c, p, Step(c, p, mem, a[0]), a[1..], b);
      assert (a + b)[1..] == a[1..] + b;
    }
  }

  /** By pass, then slice, then lane, then index. */
  predicate Before(a: Pos, b: Pos) {
    || a.n < b.n
    || (a.n == b.n && a.slice < b.slice)
    || (a.n == b.n && a.slice == b.slice && a.lane < b.lane)
    || (a.n == b.n && a.slice == b.slice && a.lane == b.lane && a.index < b.index)
  }

  ghost predicate Sorted(order: seq<Pos>) {
    forall i, j | 0 <= i < j < |order| :: Before(order[i], order[j])
  }

  lemma SortedConcat(a: seq<Pos>, b: seq<Pos>)
    requires Sorted(a) && Sorted(b) && forall i, j | 0 <= i < |a| && 0 <= j < |b| :: Before(a[i], b[j])
    ensures Sorted(a + b)
  {
  }

  lemma {:induction false} SegmentSteps(c: Compression, p: Params, mem: seq<Block>, at: Pos) returns (order: seq<Pos>)
    requires p.Valid() && |mem| == p.Memory()
    requires at.slice < 4 && at.lane < p.threads && Start(at.n, at.slice) <= at.index
    ensures forall x :: x in order <==> x == at.(index := x.index) && at.index <= x.index < p.segments
    ensures Sorted(order) && forall x | x in order :: Reached(p, x)
    ensures Segment(c, p, mem, at) == Steps(c, p, mem, order)
    decreases p.segments - at.index
  {
    hide Step, Params.Memory;
    if at.index >= p.segments {
      order := [];
    } else {
      var rest := SegmentSteps(c, p, Step(c, p, mem, at), at.(index := at.index + 1));
      order := [at] + rest;
      assert order[1..] == rest;
      assert forall j | 0 <= j < |rest| :: rest[j] in rest;
      SortedConcat([at], rest);
    }
  }

  lemma {:induction false} SliceSteps(c: Compression, p: Params, mem: seq<Block>, n: nat, slice: nat, lanes: nat) returns (order: seq<Pos>)
    requires p.Valid() && |mem| == p.Memory() && slice < 4 && lanes <= p.threads
    ensures forall x :: x in order <==>
      x.n == n && x.slice == slice && x.lane < lanes && Start(n, slice) <= x.index < p.segments
    ensures Sorted(order) && forall x | x in order :: Reached(p, x)
    ensures FillLanes(c, p, mem, n, slice, InOrder(lanes)) == Steps(c, p, mem, order)
  {
    hide Segment, Params.Memory;
    if lanes == 0 {
      order := [];
    } else {
      var before := SliceSteps(c, p, mem, n, slice, lanes - 1);
      assert InOrder(lanes) == InOrder(lanes - 1) + [lanes - 1];
      FillLanesAppend(c, p, mem, n, slice, InOrder(lanes - 1), lanes - 1);
      var last := SegmentSteps(c, p, Steps(c, p, mem, before), Pos(n, slice, lanes - 1, Start(n, slice)));
      order := Joined(c, p, mem, before, last);
    }
  }

  /** Later positions go behind earlier ones. */
  lemma Joined(c: Compression, p: Params, mem: seq<Block>, a: seq<Pos>, b: seq<Pos>) returns (order: seq<Pos>)
    requires p.Valid() && |mem| == p.Memory() && Sorted(a) && Sorted(b)
    requires (forall x | x in a :: Reached(p, x)) && (forall x | x in b :: Reached(p, x))
    requires forall x, y | x in a && y in b :: Before(x, y)
    ensures Sorted(order) && forall x | x in order :: Reached(p, x)
    ensures forall x :: x in order <==> x in a || x in b
    ensures Steps(c, p, mem, order) == Steps(c, p, Steps(c, p, mem, a), b)
  {
    hide Reached, Steps, Before;
    order := a + b;
    StepsConcat(c, p, mem, a, b);
    forall i, j | 0 <= i < |a| && 0 <= j < |b|
      ensures Before(a[i], b[j])
    {
      assert a[i] in a && b[j] in b;
    }
    SortedConcat(a, b);
  }

  lemma {:induction false} PassSteps(c: Compression, p: Params, mem: seq<Block>, n: nat, slices: nat) returns (order: seq<Pos>)
    requires p.Valid() && |mem| == p.Memory() && slices <= 4
    ensures forall x :: x in order <==>
      x.n == n && x.slice < slices && x.lane < p.threads && Start(n, x.slice) <= x.index < p.segments
    ensures Sorted(order) && forall x | x in order :: Reached(p, x)
    ensures FillSlices(c, p, mem, n, slices) == Steps(c, p, mem, order)
  {
    hide FillLanes, Params.Memory;
    if slices == 0 {
      order := [];
    } else {
      var before := PassSteps(c, p, mem, n, slices - 1);
      var last := SliceSteps(c, p, Steps(c, p, mem, before), n, slices - 1, p.threads);
      order := Joined(c, p, mem, before, last);
    }
  }

  lemma {:induction false} AllSteps(c: Compression, p: Params, mem: seq<Block>, passes: nat) returns (order: seq<Pos>)
    requires p.Valid() && |mem| == p.Memory()
    ensures forall x :: x in order <==>
      x.n < passes && x.slice < 4 && x.lane < p.threads && Start(x.n, x.slice) <= x.index < p.segments
    ensures Sorted(order) && forall x | x in order :: Reached(p, x)
    ensures FillPasses(c, p, mem, passes) == Steps(c, p, mem, order)
  {
    hide FillSlices, Params.Memory;
    if passes == 0 {
      order := [];
    } else {
      var before := AllSteps(c, p, mem, passes - 1);
      var last := PassSteps(c, p, Steps(c, p, mem, before), passes - 1, 4);
      order := Joined(c, p, mem, before, last);
    }
  }

  /**
   The sequential fill takes one step for each block of each pass, except that the first two blocks of each lane exist
   already, in the order of passes, slices, lanes and indices.
   */
  lemma FillIsStandard(c: Compression, p: Params, mem: seq<Block>) returns (order: seq<Pos>)
    requires p.Valid() && |mem| == p.Memory()
    ensures forall n: nat, slice: nat, lane: nat, index: nat :: Pos(n, slice, lane, index) in order <==>
      && n < p.time && slice < 4 && lane < p.threads && index < p.segments
      && (n == 0 && slice == 0 ==> index >= 2)
    ensures Sorted(order) && forall x | x in order :: Reached(p, x)
    ensures FillPasses(c, p, mem, p.time) == Steps(c, p, mem, order)
  {
    order := AllSteps(c, p, mem, p.time);
  }
}
