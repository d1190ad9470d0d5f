/**
 The goroutines of one Argon2 slice as a step system without locks. Every interleaving of their
 reads and writes leaves the memory that filling the lanes one after another would leave.
 */
module Argon2Parallel {
  import opened Argon2

  /** Lane l writes exactly these blocks during a slice. */
  ghost predicate Owned(p: Params, slice: nat, l: nat, pos: nat) {
    p.Base(l) + slice * p.segments <= pos < p.Base(l) + slice * p.segments + p.segments
  }

  /** No lane but l writes this block during the slice. */
  ghost predicate Private(p: Params, slice: nat, l: nat, pos: nat) {
    forall k: nat :: k < p.threads && Owned(p, slice, k, pos) ==> k == l
  }

  lemma OwnedCoordinates(p: Params, slice: nat, k: nat, lane: nat, col: nat)
    requires p.Valid() && slice < 4 && col < p.Lanes()
    requires Owned(p, slice, k, p.Base(lane) + col)
    ensures k == lane && slice * p.segments <= col < slice * p.segments + p.segments
  {
    SliceCases(slice, p.segments);
    if k < lane {
      BaseMono(p, k, lane);
    } else if lane < k {
      BaseMono(p, lane, k);
    }
  }

  lemma PlacePrivate(p: Params, slice: nat, l: nat, lane: nat, col: nat)
    requires p.Valid() && slice < 4 && col < p.Lanes()
    requires lane == l || !(slice * p.segments <= col < slice * p.segments + p.segments)
    ensures Private(p, slice, l, p.Base(lane) + col)
    ensures slice * p.segments <= col < slice * p.segments + p.segments ==> Owned(p, slice, lane, p.Base(lane) + col)
  {
    var pos := p.Base(lane) + col;
    forall k: nat | k < p.threads && Owned(p, slice, k, pos)
      ensures k == l
    {
      OwnedCoordinates(p, slice, k, lane, col);
    }
  }

  lemma ColInSlice(p: Params, at: Pos)
    requires p.Valid() && Reached(p, at)
    ensures at.slice * p.segments <= Col(p, at) < at.slice * p.segments + p.segments
    ensures (at.slice + 1) * p.segments == at.slice * p.segments + p.segments
  {
  }

  /** Every block a step reads or writes is private to its lane, whatever word it draws. */
  lemma StepIsPrivate(p: Params, at: Pos, rand: Word)
    requires p.Valid() && Reached(p, at)
    ensures OffsetOf(p, at) < p.Memory() && Owned(p, at.slice, at.lane, OffsetOf(p, at))
    ensures PrevOf(p, at) < p.Memory() && Private(p, at.slice, at.lane, PrevOf(p, at))
    ensures IndexAlpha(p, rand, at) < p.Memory() && Private(p, at.slice, at.lane, IndexAlpha(p, rand, at))
    ensures Private(p, at.slice, at.lane, OffsetOf(p, at))
  {
    hide *;
    ReachedIs(p, at);
    StepPlaces(p, at);
    ReferenceBlock(p, rand, at);
    Fits(p, RefLane(p, rand, at), RefCol(p, rand, at));
    ColInSlice(p, at);
    PlacePrivate(p, at.slice, at.lane, at.lane, Col(p, at));
    PlacePrivate(p, at.slice, at.lane, at.lane, PrevCol(p, at));
    PlacePrivate(p, at.slice, at.lane, RefLane(p, rand, at), RefCol(p, rand, at));
  }

  /**
   Race freedom: two lanes of the same slice write different blocks, and neither reads the block
   the other is writing.
   */
  lemma NoRace(p: Params, at: Pos, other: Pos, rand: Word)
    requires p.Valid() && Reached(p, at) && Reached(p, other)
    requires at.n == other.n && at.slice == other.slice && at.lane != other.lane
    ensures OffsetOf(p, other) != OffsetOf(p, at)
    ensures OffsetOf(p, other) != PrevOf(p, at)
    ensures OffsetOf(p, other) != IndexAlpha(p, rand, at)
  {
    hide OffsetOf, PrevOf, IndexAlpha;
    StepIsPrivate(p, at, rand);
    StepIsPrivate(p, other, rand);
  }

  // ---- one lane running alone ----

  /** The memory when lane l alone has advanced from the start of the slice to index. */
  ghost function Solo(c: Compression, p: Params, mem: seq<Block>, at: Pos): (r: seq<Block>)
    requires p.Valid() && |mem| == p.Memory()
    requires at.slice < 4 && at.lane < p.threads && Start(at.n, at.slice) <= at.index <= p.segments
    ensures |r| == |mem|
    decreases at.index
  {
    if at.index == Start(at.n, at.slice) then mem
    else
      var before := at.(index := at.index - 1);
      Step(c, p, Solo(c, p, mem, before), before)
  }

  lemma {:induction false} SoloFrame(c: Compression, p: Params, mem: seq<Block>, at: Pos, pos: nat)
    requires p.Valid() && |mem| == p.Memory() && pos < |mem|
    requires at.slice < 4 && at.lane < p.threads && Start(at.n, at.slice) <= at.index <= p.segments
    requires !Owned(p, at.slice, at.lane, pos)
    ensures Solo(c, p, mem, at)[pos] == mem[pos]
    decreases at.index
  {
    hide StepBlock, OffsetOf, Owned;
    if at.index > Start(at.n, at.slice) {
      var before := at.(index := at.index - 1);
      SoloFrame(c, p, mem, before, pos);
      StepIsPrivate(p, before, 0);
    }
  }

  // ---- the step system ----

  datatype Thread = Idle(index: nat) | Drawn(index: nat, rand: Word) | Loaded(index: nat, block: Block)

  datatype Machine = Machine(mem: seq<Block>, threads: seq<Thread>)

  function Initial(p: Params, mem: seq<Block>, n: nat, slice: nat): Machine {
    Machine(mem, seq(p.threads, _ => Idle(Start(n, slice))))
  }

  ghost predicate Shaped(p: Params, m: Machine, n: nat, slice: nat) {
    && p.Valid() && slice < 4
    && |m.mem| == p.Memory() && |m.threads| == p.threads
    && (forall l :: 0 <= l < p.threads ==>
          && Start(n, slice) <= m.threads[l].index <= p.segments
          && (m.threads[l].Idle? || m.threads[l].index < p.segments))
  }

  /** Lane l does its next action: draw a word, load and mix three blocks, or store the result. */
  ghost function MicroStep(c: Compression, p: Params, m: Machine, n: nat, slice: nat, l: nat): Machine
    requires Shaped(p, m, n, slice)
  {
    if l >= p.threads || m.threads[l].index >= p.segments then m
    else
      var at := Pos(n, slice, l, m.threads[l].index);
      StepIsPrivate(p, at, 0);
      match m.threads[l]
      case Idle(index) =>
        m.(threads := m.threads[l := Drawn(index, Draw(c, p, m.mem[PrevOf(p, at)], at))])
      case Drawn(index, rand) =>
        StepIsPrivate(p, at, rand);
        var block := c.mix(m.mem[OffsetOf(p, at)], m.mem[PrevOf(p, at)], m.mem[IndexAlpha(p, rand, at)]);
        m.(threads := m.threads[l := Loaded(index, block)])
      case Loaded(index, block) =>
        Machine(m.mem[OffsetOf(p, at) := block], m.threads[l := Idle(index + 1)])
  }

  /** Every lane's own blocks look as if it had run alone; all other blocks are untouched. */
  ghost predicate Agrees(c: Compression, p: Params, start: seq<Block>, n: nat, slice: nat, mem: seq<Block>, idx: seq<nat>) {
    && p.Valid() && slice < 4
    && |mem| == |start| == p.Memory() && |idx| == p.threads
    && (forall l :: 0 <= l < p.threads ==> Start(n, slice) <= idx[l] <= p.segments)
    && (forall l, pos :: 0 <= l < p.threads && 0 <= pos < |mem| && Owned(p, slice, l, pos) ==>
          mem[pos] == Solo(c, p, start, Pos(n, slice, l, idx[l]))[pos])
    && (forall pos :: 0 <= pos < |mem| && (forall l :: 0 <= l < p.threads ==> !Owned(p, slice, l, pos)) ==>
          mem[pos] == start[pos])
  }

  lemma AgreesDetermines(c: Compression, p: Params, start: seq<Block>, n: nat, slice: nat, a: seq<Block>, b: seq<Block>, idx: seq<nat>)
    requires Agrees(c, p, start, n, slice, a, idx) && Agrees(c, p, start, n, slice, b, idx)
    ensures a == b
  {
    hide Solo, Owned, Start;
    forall pos | 0 <= pos < |a|
      ensures a[pos] == b[pos]
    {
      if exists l :: 0 <= l < p.threads && Owned(p, slice, l, pos) {
        var l :| 0 <= l < p.threads && Owned(p, slice, l, pos);
        assert a[pos] == Solo(c, p, start, Pos(n, slice, l, idx[l]))[pos];
      }
    }
  }

  /** What lane l finds in a block private to it is what it would find running alone. */
  lemma PrivateReads(c: Compression, p: Params, start: seq<Block>, n: nat, slice: nat, mem: seq<Block>, idx: seq<nat>, l: nat, pos: nat)
    requires Agrees(c, p, start, n, slice, mem, idx) && l < p.threads && pos < |mem|
    requires Private(p, slice, l, pos)
    ensures mem[pos] == Solo(c, p, start, Pos(n, slice, l, idx[l]))[pos]
  {
    hide Solo, Start, Owned;
    if !Owned(p, slice, l, pos) {
      SoloFrame(c, p, start, Pos(n, slice, l, idx[l]), pos);
    }
  }

  lemma StepSolo(c: Compression, p: Params, start: seq<Block>, n: nat, slice: nat, mem: seq<Block>, idx: seq<nat>, l: nat)
    requires Agrees(c, p, start, n, slice, mem, idx) && l < p.threads && idx[l] < p.segments
    ensures var at := Pos(n, slice, l, idx[l]);
            && Reached(p, at)
            && OffsetOf(p, at) < |mem| && PrevOf(p, at) < |mem|
            && Owned(p, slice, l, OffsetOf(p, at)) && Private(p, slice, l, OffsetOf(p, at))
            && var solo := Solo(c, p, start, at);
               && mem[PrevOf(p, at)] == solo[PrevOf(p, at)]
               && mem[OffsetOf(p, at)] == solo[OffsetOf(p, at)]
               && StepBlock(c, p, mem, at) == StepBlock(c, p, solo, at)
  {
    hide Solo, OffsetOf, PrevOf, IndexAlpha, Draw, Owned, Private, Agrees;
    assert Start(n, slice) <= idx[l] && p.Valid() && |mem| == |start| == p.Memory() && slice < 4 by { AgreesShape(c, p, start, n, slice, mem, idx, l); }
    var at := Pos(n, slice, l, idx[l]);
    StepIsPrivate(p, at, 0);
    PrivateReads(c, p, start, n, slice, mem, idx, l, PrevOf(p, at));
    PrivateReads(c, p, start, n, slice, mem, idx, l, OffsetOf(p, at));
    var rand := Draw(c, p, mem[PrevOf(p, at)], at);
    StepIsPrivate(p, at, rand);
    PrivateReads(c, p, start, n, slice, mem, idx, l, IndexAlpha(p, rand, at));
  }

  lemma AgreesShape(c: Compression, p: Params, start: seq<Block>, n: nat, slice: nat, mem: seq<Block>, idx: seq<nat>, l: nat)
    requires Agrees(c, p, start, n, slice, mem, idx) && l < p.threads
    ensures p.Valid() && slice < 4 && |mem| == |start| == p.Memory() && |idx| == p.threads
    ensures Start(n, slice) <= idx[l] <= p.segments
  {
    hide Solo, Owned;
  }

  /** Storing lane l's next block keeps the agreement, with l one block further. */
  lemma StoreAgrees(c: Compression, p: Params, start: seq<Block>, n: nat, slice: nat, mem: seq<Block>, idx: seq<nat>, l: nat)
    requires Agrees(c, p, start, n, slice, mem, idx) && l < p.threads && idx[l] < p.segments
    ensures var at := Pos(n, slice, l, idx[l]);
            && Reached(p, at) && OffsetOf(p, at) < |mem|
            && Agrees(c, p, start, n, slice, mem[OffsetOf(p, at) := StepBlock(c, p, Solo(c, p, start, at), at)], idx[l := idx[l] + 1])
  {
    hide OffsetOf, StepBlock, Owned, Start;
    StepSolo(c, p, start, n, slice, mem, idx, l);
    var at := Pos(n, slice, l, idx[l]);
    var next := Solo(c, p, start, at.(index := at.index + 1));
    assert next == Step(c, p, Solo(c, p, start, at), at);
  }

  // ---- every interleaving ----

  ghost function Indices(m: Machine): seq<nat> {
    seq(|m.threads|, l requires 0 <= l < |m.threads| => m.threads[l].index)
  }

  /** A thread's registers hold what it would hold running alone. */
  ghost predicate RegisterOk(c: Compression, p: Params, start: seq<Block>, at: Pos, t: Thread)
    requires p.Valid() && |start| == p.Memory() && Reached(p, at)
  {
    StepIsPrivate(p, at, 0);
    var solo := Solo(c, p, start, at);
    match t
    case Idle(_) => true
    case Drawn(_, rand) => rand == Draw(c, p, solo[PrevOf(p, at)], at)
    case Loaded(_, block) => block == StepBlock(c, p, solo, at)
  }

  ghost predicate RunInv(c: Compression, p: Params, start: seq<Block>, n: nat, slice: nat, m: Machine) {
    && Shaped(p, m, n, slice)
    && Agrees(c, p, start, n, slice, m.mem, Indices(m))
    && (forall l :: 0 <= l < p.threads && m.threads[l].index < p.segments ==>
          RegisterOk(c, p, start, Pos(n, slice, l, m.threads[l].index), m.threads[l]))
  }

  lemma InitialInv(c: Compression, p: Params, start: seq<Block>, n: nat, slice: nat)
    requires p.Valid() && |start| == p.Memory() && slice < 4
    ensures RunInv(c, p, start, n, slice, Initial(p, start, n, slice))
  {
  }

  lemma MicroStepInv(c: Compression, p: Params, start: seq<Block>, n: nat, slice: nat, m: Machine, l: nat)
    requires RunInv(c, p, start, n, slice, m)
    ensures RunInv(c, p, start, n, slice, MicroStep(c, p, m, n, slice, l))
  {
    hide Solo, OffsetOf, PrevOf, IndexAlpha, Draw, Owned, Agrees, Start;
    if l < p.threads && m.threads[l].index < p.segments {
      var idx := Indices(m);
      var m' := MicroStep(c, p, m, n, slice, l);
      StepSolo(c, p, start, n, slice, m.mem, idx, l);
      var at := Pos(n, slice, l, idx[l]);
      if m.threads[l].Loaded? {
        StoreAgrees(c, p, start, n, slice, m.mem, idx, l);
        assert Indices(m') == idx[l := idx[l] + 1];
      } else {
        assert Indices(m') == idx;
      }
    }
  }

  ghost predicate Finished(p: Params, m: Machine) {
    forall l :: 0 <= l < |m.threads| ==> m.threads[l].index == p.segments
  }

  /** The machine after a schedule: any sequence of lane numbers, in any order and with any repetition. */
  ghost function Run(c: Compression, p: Params, start: seq<Block>, n: nat, slice: nat, schedule: seq<nat>): (m: Machine)
    requires p.Valid() && |start| == p.Memory() && slice < 4
    ensures RunInv(c, p, start, n, slice, m)
  {
    if schedule == [] then
      InitialInv(c, p, start, n, slice);
      Initial(p, start, n, slice)
    else
      var before := Run(c, p, start, n, slice, schedule[..|schedule| - 1]);
      MicroStepInv(c, p, start, n, slice, before, schedule[|schedule| - 1]);
      MicroStep(c, p, before, n, slice, schedule[|schedule| - 1])
  }

  // ---- no interleaving gets stuck ----

  /** The actions a thread has still to do. */
  function Work(segments: nat, t: Thread): nat {
    if t.index >= segments then 0
    else 3 * (segments - t.index) - (match t case Idle(_) => 0 case Drawn(_, _) => 1 case Loaded(_, _) => 2)
  }

  function AllWork(segments: nat, threads: seq<Thread>): nat {
    if threads == [] then 0 else Work(segments, threads[0]) + AllWork(segments, threads[1..])
  }

  lemma {:induction false} LessWork(segments: nat, threads: seq<Thread>, l: nat, t: Thread)
    requires l < |threads|
    ensures AllWork(segments, threads[l := t]) + Work(segments, threads[l]) == AllWork(segments, threads) + Work(segments, t)
  {
    hide Work;
    if l == 0 {
      assert threads[l := t][1..] == threads[1..];
    } else {
      LessWork(segments, threads[1..], l - 1, t);
      assert threads[l := t][1..] == threads[1..][l - 1 := t];
    }
  }

  lemma MicroStepWorks(c: Compression, p: Params, m: Machine, n: nat, slice: nat, l: nat)
    requires Shaped(p, m, n, slice) && l < p.threads && m.threads[l].index < p.segments
    ensures AllWork(p.segments, MicroStep(c, p, m, n, slice, l).threads) < AllWork(p.segments, m.threads)
  {
    hide OffsetOf, PrevOf, IndexAlpha, Draw, AllWork, Start;
    LessWork(p.segments, m.threads, l, MicroStep(c, p, m, n, slice, l).threads[l]);
  }

  lemma RunMore(c: Compression, p: Params, start: seq<Block>, n: nat, slice: nat, schedule: seq<nat>, l: nat)
    requires p.Valid() && |start| == p.Memory() && slice < 4
    ensures var m := Run(c, p, start, n, slice, schedule);
      RunInv(c, p, start, n, slice, m) && Run(c, p, start, n, slice, schedule + [l]) == MicroStep(c, p, m, n, slice, l)
  {
    hide MicroStep, RunInv;
    assert (schedule + [l])[..|schedule|] == schedule;
  }

  /** Whatever has been scheduled so far, the slice can still be finished. */
  lemma {:induction false} EveryRunCanFinish(c: Compression, p: Params, start: seq<Block>, n: nat, slice: nat, schedule: seq<nat>)
    returns (more: seq<nat>)
    requires p.Valid() && |start| == p.Memory() && slice < 4
    ensures Finished(p, Run(c, p, start, n, slice, schedule + more))
    decreases AllWork(p.segments, Run(c, p, start, n, slice, schedule).threads)
  {
    hide Run, MicroStep, AllWork, Agrees, RegisterOk, Start;
    var m := Run(c, p, start, n, slice, schedule);
    if Finished(p, m) {
      more := [];
      assert schedule + [] == schedule;
    } else {
      var l :| 0 <= l < |m.threads| && m.threads[l].index != p.segments;
      RunMore(c, p, start, n, slice, schedule, l);
      MicroStepWorks(c, p, m, n, slice, l);
      var rest := EveryRunCanFinish(c, p, start, n, slice, schedule + [l]);
      more := [l] + rest;
      assert schedule + ([l] + rest) == (schedule + [l]) + rest;
    }
  }

  // ---- any sequential order ----

  lemma {:induction false} SegmentAgrees(c: Compression, p: Params, start: seq<Block>, n: nat, slice: nat, mem: seq<Block>, idx: seq<nat>, l: nat)
    requires Agrees(c, p, start, n, slice, mem, idx) && l < p.threads
    ensures Start(n, slice) <= idx[l]
    ensures Agrees(c, p, start, n, slice, Segment(c, p, mem, Pos(n, slice, l, idx[l])), idx[l := p.segments])
    decreases p.segments - idx[l]
  {
    hide Solo, OffsetOf, StepBlock, Owned, Agrees, Start;
    AgreesShape(c, p, start, n, slice, mem, idx, l);
    if idx[l] == p.segments {
      assert idx[l := p.segments] == idx;
    } else {
      var at := Pos(n, slice, l, idx[l]);
      StoreAgrees(c, p, start, n, slice, mem, idx, l);
      StepSolo(c, p, start, n, slice, mem, idx, l);
      var idx' := idx[l := idx[l] + 1];
      SegmentAgrees(c, p, start, n, slice, Step(c, p, mem, at), idx', l);
      assert idx'[l := p.segments] == idx[l := p.segments];
    }
  }

  ghost predicate Distinct(order: seq<nat>) {
    forall i, j :: 0 <= i < j < |order| ==> order[i] != order[j]
  }

  lemma {:induction false} FillAgrees(c: Compression, p: Params, start: seq<Block>, n: nat, slice: nat, mem: seq<Block>, idx: seq<nat>, order: seq<nat>)
    returns (idx': seq<nat>)
    requires Agrees(c, p, start, n, slice, mem, idx) && Distinct(order)
    requires forall i :: 0 <= i < |order| ==> order[i] < p.threads && idx[order[i]] == Start(n, slice)
    ensures Agrees(c, p, start, n, slice, FillLanes(c, p, mem, n, slice, order), idx')
    ensures |idx'| == |idx|
    ensures forall l :: 0 <= l < |idx| ==> idx'[l] == if l in order then p.segments else idx[l]
    decreases |order|
  {
    hide Solo, Segment, Owned, Start;
    if order == [] {
      idx' := idx;
    } else {
      var l := order[0];
      SegmentAgrees(c, p, start, n, slice, mem, idx, l);
      var done := Segment(c, p, mem, Pos(n, slice, l, idx[l]));
      idx' := FillAgrees(c, p, start, n, slice, done, idx[l := p.segments], order[1..]);
      assert order == [l] + order[1..];
    }
  }

  ghost predicate LaneOrder(p: Params, order: seq<nat>) {
    && Distinct(order)
    && (forall i :: 0 <= i < |order| ==> order[i] < p.threads)
    && (forall l :: 0 <= l < p.threads ==> l in order)
  }

  lemma FinishedMemory(c: Compression, p: Params, start: seq<Block>, n: nat, slice: nat, m: Machine, order: seq<nat>)
    requires p.Valid() && |start| == p.Memory() && slice < 4 && LaneOrder(p, order)
    requires RunInv(c, p, start, n, slice, m) && Finished(p, m)
    ensures m.mem == FillLanes(c, p, start, n, slice, order)
  {
    hide Solo, Owned, FillLanes, RegisterOk;
    InitialInv(c, p, start, n, slice);
    var m0 := Initial(p, start, n, slice);
    var idx' := FillAgrees(c, p, start, n, slice, start, Indices(m0), order);
    assert Indices(m) == idx';
    AgreesDetermines(c, p, start, n, slice, m.mem, FillLanes(c, p, start, n, slice, order), idx');
  }

  /**
   Whatever the interleaving, a slice whose lanes have all finished holds the memory of a
   sequential fill, and the sequential fill does not depend on the order of the lanes.
   */
  lemma ParallelEqualsSequential(c: Compression, p: Params, start: seq<Block>, n: nat, slice: nat, schedule: seq<nat>, order: seq<nat>)
    requires p.Valid() && |start| == p.Memory() && slice < 4 && LaneOrder(p, order)
    requires Finished(p, Run(c, p, start, n, slice, schedule))
    ensures Run(c, p, start, n, slice, schedule).mem == FillLanes(c, p, start, n, slice, order)
  {
    FinishedMemory(c, p, start, n, slice, Run(c, p, start, n, slice, schedule), order);
  }

  /** One slice after another, each filled by some finished interleaving. */
  ghost predicate ParallelTrace(c: Compression, p: Params, trace: seq<seq<Block>>) {
    && p.Valid()
    && |trace| >= 1
    && (forall k :: 0 <= k < |trace| ==> |trace[k]| == p.Memory())
    && (forall k :: 0 <= k < |trace| - 1 ==> SliceFilled(c, p, trace[k], trace[k + 1], k / 4, k % 4))
  }

  ghost predicate SliceFilled(c: Compression, p: Params, before: seq<Block>, after: seq<Block>, n: nat, slice: nat)
    requires p.Valid() && |before| == p.Memory() && slice < 4
  {
    exists schedule :: Finished(p, Run(c, p, before, n, slice, schedule)) && Run(c, p, before, n, slice, schedule).mem == after
  }

  /** The whole fill, for every pass: the parallel schedule computes what the sequential loops compute. */
  lemma {:induction false} ParallelFill(c: Compression, p: Params, trace: seq<seq<Block>>)
    requires ParallelTrace(c, p, trace)
    ensures var k := |trace| - 1;
            trace[k] == FillSlices(c, p, FillPasses(c, p, trace[0], k / 4), k / 4, k % 4)
    ensures (|trace| - 1) % 4 == 0 ==> trace[|trace| - 1] == FillPasses(c, p, trace[0], (|trace| - 1) / 4)
    decreases |trace|
  {
    hide Run, Finished, FillLanes, Agrees, RunInv;
    var k := |trace| - 1;
    if k > 0 {
      ParallelFill(c, p, trace[..k]);
      var n, slice := (k - 1) / 4, (k - 1) % 4;
      FilledIsSequential(c, p, trace[k - 1], trace[k], n, slice);
      assert trace[k] == FillSlices(c, p, FillPasses(c, p, trace[0], n), n, slice + 1);
    }
  }

  lemma FilledIsSequential(c: Compression, p: Params, before: seq<Block>, after: seq<Block>, n: nat, slice: nat)
    requires p.Valid() && |before| == p.Memory() && slice < 4
    requires SliceFilled(c, p, before, after, n, slice)
    ensures after == FillLanes(c, p, before, n, slice, InOrder(p.threads))
  {
    hide Run, FillLanes, Finished;
    var schedule :| Finished(p, Run(c, p, before, n, slice, schedule)) && Run(c, p, before, n, slice, schedule).mem == after;
    var order := InOrder(p.threads);
    forall l | 0 <= l < p.threads
      ensures l in order
    {
      assert order[l] == l;
    }
    ParallelEqualsSequential(c, p, before, n, slice, schedule, order);
  }

  /** From any memory there is a parallel fill of any number of slices. */
  lemma {:induction false} SomeParallelFill(c: Compression, p: Params, start: seq<Block>, slices: nat) returns (trace: seq<seq<Block>>)
    requires p.Valid() && |start| == p.Memory()
    ensures ParallelTrace(c, p, trace) && |trace| == slices + 1 && trace[0] == start
  {
    hide Run, Finished, RunInv, Agrees;
    if slices == 0 {
      trace := [start];
    } else {
      var before := SomeParallelFill(c, p, start, slices - 1);
      var k: nat := slices - 1;
      var schedule := EveryRunCanFinish(c, p, before[k], k / 4, k % 4, []);
      assert [] + schedule == schedule;
      var m := Run(c, p, before[k], k / 4, k % 4, schedule);
      RunSize(c, p, before[k], k / 4, k % 4, m);
      assert SliceFilled(c, p, before[k], m.mem, k / 4, k % 4);
      trace := before + [m.mem];
    }
  }

  lemma RunSize(c: Compression, p: Params, start: seq<Block>, n: nat, slice: nat, m: Machine)
    requires RunInv(c, p, start, n, slice, m)
    ensures |m.mem| == p.Memory()
  {
  }
}
