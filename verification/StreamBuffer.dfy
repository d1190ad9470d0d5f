/** Buffered hand-off of a readable stream: chunks wait for a consumer, and a flush may be re-entered by the listeners it calls. */
module StreamBuffer {

  type Chunk = int

  /** What a listener, or code outside, can do to the stream. */
  datatype Action = Resume | Pause | AddListener | RemoveListener

  datatype Tick = Arrive(chunk: Chunk) | ArriveEnd | FlushLater

  datatype Emission = Data(chunk: Chunk) | End

  datatype Step = SourceData(chunk: Chunk) | SourceEnd | RunTick | Act(action: Action)

  function Chunks(emitted: seq<Emission>): seq<Chunk> {
    if emitted == [] then []
    else
      var last := emitted[|emitted| - 1];
      Chunks(emitted[..|emitted| - 1]) + if last.Data? then [last.chunk] else []
  }

  lemma ChunksAppend(emitted: seq<Emission>, e: Emission)
    ensures Chunks(emitted + [e]) == Chunks(emitted) + if e.Data? then [e.chunk] else []
  {
    assert (emitted + [e])[..|emitted|] == emitted;
  }

  function Waiting(ticks: seq<Tick>): seq<Chunk> {
    if ticks == [] then []
    else
      var last := ticks[|ticks| - 1];
      Waiting(ticks[..|ticks| - 1]) + if last.Arrive? then [last.chunk] else []
  }

  lemma WaitingAppend(ticks: seq<Tick>, t: Tick)
    ensures Waiting(ticks + [t]) == Waiting(ticks) + if t.Arrive? then [t.chunk] else []
  {
    assert (ticks + [t])[..|ticks|] == ticks;
  }

  lemma {:induction false} WaitingFirst(ticks: seq<Tick>)
    requires ticks != []
    ensures Waiting(ticks) == (if ticks[0].Arrive? then [ticks[0].chunk] else []) + Waiting(ticks[1..])
    decreases |ticks|
  {
    var n := |ticks| - 1;
    if n > 0 {
      WaitingFirst(ticks[..n]);
      assert ticks[..n][1..] == ticks[1..][..n - 1];
    } else {
      assert ticks[..0] == [] && ticks[1..] == [];
    }
  }

  /** 'end' is emitted at most once, behind everything. */
  ghost predicate EndLast(emitted: seq<Emission>) {
    forall i | 0 <= i < |emitted| && emitted[i].End? :: i == |emitted| - 1
  }

  /** The source schedules nothing behind its end. */
  ghost predicate SourceOrder(ticks: seq<Tick>, sourceEnded: bool, endArrived: bool) {
    && (endArrived ==> sourceEnded && Waiting(ticks) == [])
    && (sourceEnded ==> endArrived != (ArriveEnd in ticks))
    && (!sourceEnded ==> ArriveEnd !in ticks)
    && (forall i, j | 0 <= i < j < |ticks| && ticks[i].ArriveEnd? :: !ticks[j].Arrive? && !ticks[j].ArriveEnd?)
  }

  /** One more emission, when 'end' has not been among them. */
  lemma NoEndYet(emitted: seq<Emission>, e: Emission)
    requires End !in emitted
    ensures EndLast(emitted + [e]) && (End in emitted + [e] <==> e.End?)
  {
    var all := emitted + [e];
    assert all[|emitted|] == e;
    assert forall i | 0 <= i < |emitted| :: all[i] == emitted[i] && emitted[i] in emitted;
  }

  class Stream {
    // What the listeners do when the n-th emission reaches them.
    const reaction: nat -> seq<Action>
    var chunks: seq<Chunk>
    var ended: bool
    var resumed: bool
    var listeners: nat
    var ticks: seq<Tick>
    // Emissions in the order in which they begin.
    var emitted: seq<Emission>

    ghost var source: seq<Chunk>
    var sourceEnded: bool
    ghost var arrived: seq<Chunk>
    ghost var endArrived: bool

    function Gate(): bool
      reads this
    {
      listeners > 0 || resumed
    }

    function Weight(): nat
      reads this
    {
      |chunks| + if ended then 1 else 0
    }

    /** Holds at every point, also inside a listener. */
    ghost predicate InOrder()
      reads this
    {
      && Chunks(emitted) + chunks == arrived
      && EndLast(emitted)
      && (End in emitted ==> chunks == [])
      && (endArrived <==> ended || End in emitted) && !(ended && End in emitted)
      && source == arrived + Waiting(ticks)
      && SourceOrder(ticks, sourceEnded, endArrived)
    }

    /** Holds between steps: with a consumer present, what has arrived is out, or a flush is on its way. */
    ghost predicate Valid()
      reads this
    {
      InOrder() && (Gate() && FlushLater !in ticks ==> chunks == [] && !ended)
    }

    constructor (reaction: nat -> seq<Action>)
      ensures Valid() && source == [] && !sourceEnded && ticks == [] && emitted == []
    {
      this.reaction := reaction;
      chunks, ended, resumed, listeners, ticks, emitted := [], false, false, 0, [], [];
      source, sourceEnded, arrived, endArrived := [], false, [], false;
    }

    /** A chunk leaves the buffer. */
    method BeginData()
      requires InOrder() && End !in emitted && chunks != []
      modifies this`chunks, this`emitted
      ensures InOrder() && chunks == old(chunks)[1..] && emitted == old(emitted) + [Data(old(chunks)[0])]
    {
      hide SourceOrder, Waiting;
      ChunksAppend(emitted, Data(chunks[0]));
      assert chunks == [chunks[0]] + chunks[1..];
      assert (Chunks(emitted) + [chunks[0]]) + chunks[1..] == Chunks(emitted) + ([chunks[0]] + chunks[1..]);
      NoEndYet(emitted, Data(chunks[0]));
      emitted, chunks := emitted + [Data(chunks[0])], chunks[1..];
    }

    /** The end leaves the buffer. */
    method BeginEnd()
      requires InOrder() && End !in emitted && chunks == [] && ended
      modifies this`ended, this`emitted
      ensures InOrder() && !ended && emitted == old(emitted) + [End]
    {
      hide SourceOrder, Waiting;
      ChunksAppend(emitted, End);
      assert Chunks(emitted) + [] == Chunks(emitted);
      NoEndYet(emitted, End);
      emitted, ended := emitted + [End], false;
    }

    /** The next chunk, or 'end', leaves the buffer, its emission begins, and its listeners run. */
    method Emit(e: Emission)
      requires InOrder() && End !in emitted && Weight() > 0
      requires e.Data? ==> chunks != [] && e.chunk == chunks[0]
      requires e.End? ==> chunks == [] && ended
      modifies this
      ensures InOrder() && Weight() < old(Weight()) && old(emitted) < emitted
      ensures source == old(source) && sourceEnded == old(sourceEnded) && arrived == old(arrived) && endArrived == old(endArrived)
      ensures SameArrivals(old(ticks), ticks)
      decreases Weight(), 0
    {
      hide InOrder;
      ghost var before := emitted;
      if e.Data? {
        BeginData();
      } else {
        BeginEnd();
      }
      assert emitted[|before|] == e;
      React(|emitted|);
    }

    /** The listeners of one emission. */
    method React(n: nat)
      requires InOrder()
      modifies this
      ensures InOrder() && Weight() <= old(Weight()) && old(emitted) <= emitted
      ensures source == old(source) && sourceEnded == old(sourceEnded) && arrived == old(arrived) && endArrived == old(endArrived)
      ensures SameArrivals(old(ticks), ticks)
      decreases Weight(), 3
    {
      var actions := reaction(n);
      for i := 0 to |actions|
        invariant InOrder() && Weight() <= old(Weight()) && old(emitted) <= emitted
        invariant source == old(source) && sourceEnded == old(sourceEnded) && arrived == old(arrived) && endArrived == old(endArrived)
        invariant SameArrivals(old(ticks), ticks)
      {
        Perform(actions[i]);
      }
    }

    method Perform(a: Action)
      requires InOrder()
      modifies this
      ensures InOrder() && Weight() <= old(Weight()) && old(emitted) <= emitted
      ensures source == old(source) && sourceEnded == old(sourceEnded) && arrived == old(arrived) && endArrived == old(endArrived)
      ensures SameArrivals(old(ticks), ticks)
      ensures a.Resume? ==> chunks == [] && !ended
      ensures a.AddListener? ==> FlushLater in ticks
      ensures a.Pause? || a.RemoveListener? ==> (Gate() ==> old(Gate())) && chunks == old(chunks) && ended == old(ended) && ticks == old(ticks)
      decreases Weight(), 2
    {
      hide Chunks, Waiting, EndLast, SourceOrder;
      match a
      case Resume =>
        resumed := true;
        Flush();
      case Pause =>
        resumed := false;
      case AddListener =>
        listeners := listeners + 1;
        LaterFlush(ticks, sourceEnded, endArrived);
        ticks := ticks + [FlushLater];
        assert ticks[|ticks| - 1] == FlushLater;
      case RemoveListener =>
        if listeners > 0 {
          listeners := listeners - 1;
        }
    }

    /** flushPendingStreamData: the consumer is looked for once, at the start; then everything buffered goes out. */
    method Flush()
      requires InOrder()
      modifies this
      ensures InOrder() && Weight() <= old(Weight()) && old(emitted) <= emitted
      ensures source == old(source) && sourceEnded == old(sourceEnded) && arrived == old(arrived) && endArrived == old(endArrived)
      ensures SameArrivals(old(ticks), ticks)
      ensures old(Gate()) ==> chunks == [] && !ended
      ensures !old(Gate()) ==> emitted == old(emitted) && chunks == old(chunks) && ended == old(ended) && !Gate() && ticks == old(ticks)
      decreases Weight(), 1
    {
      if listeners == 0 && !resumed {
        return;
      }
      while |chunks| > 0
        invariant InOrder() && Weight() <= old(Weight()) && old(emitted) <= emitted
        invariant source == old(source) && sourceEnded == old(sourceEnded) && arrived == old(arrived) && endArrived == old(endArrived)
        invariant SameArrivals(old(ticks), ticks)
        decreases Weight()
      {
        Emit(Data(chunks[0]));
      }
      if ended {
        Emit(End);
      }
    }

    /** The source schedules a chunk. */
    method ScheduleData(c: Chunk)
      requires Valid() && !sourceEnded
      modifies this`ticks, this`source
      ensures Valid() && source == old(source) + [c]
    {
      WaitingAppend(ticks, Arrive(c));
      assert arrived + (Waiting(ticks) + [c]) == (arrived + Waiting(ticks)) + [c];
      ticks := ticks + [Arrive(c)];
      source := source + [c];
    }

    /** The source schedules its end. */
    method ScheduleEnd()
      requires Valid() && !sourceEnded
      modifies this`ticks, this`sourceEnded
      ensures Valid() && sourceEnded
    {
      WaitingAppend(ticks, ArriveEnd);
      assert Waiting(ticks) + [] == Waiting(ticks);
      ticks := ticks + [ArriveEnd];
      sourceEnded := true;
      assert ticks[|ticks| - 1] == ArriveEnd;
    }

    /** The oldest tick leaves the queue, and what it brings is buffered. */
    method TakeTick()
      requires InOrder() && ticks != []
      modifies this`ticks, this`chunks, this`ended, this`arrived, this`endArrived
      ensures InOrder() && ticks == old(ticks)[1..]
    {
      hide Chunks, Waiting, EndLast, SourceOrder;
      PopTick(ticks, sourceEnded, endArrived);
      var t := ticks[0];
      if t.Arrive? {
        BufferChunk(t.chunk);
      } else if t.ArriveEnd? {
        BufferEnd();
      } else {
        assert [] + Waiting(ticks[1..]) == Waiting(ticks[1..]);
        ticks := ticks[1..];
      }
    }

    method BufferChunk(c: Chunk)
      requires InOrder() && ticks != [] && ticks[0] == Arrive(c) && !endArrived
      requires Waiting(ticks) == [c] + Waiting(ticks[1..]) && SourceOrder(ticks[1..], sourceEnded, endArrived)
      modifies this`ticks, this`chunks, this`arrived
      ensures InOrder() && ticks == old(ticks)[1..]
    {
      hide Chunks, Waiting, EndLast, SourceOrder;
      assert (arrived + [c]) + Waiting(ticks[1..]) == arrived + ([c] + Waiting(ticks[1..]));
      assert (Chunks(emitted) + chunks) + [c] == Chunks(emitted) + (chunks + [c]);
      arrived := arrived + [c];
      chunks := chunks + [c];
      ticks := ticks[1..];
    }

    method BufferEnd()
      requires InOrder() && ticks != [] && ticks[0] == ArriveEnd && !endArrived
      requires Waiting(ticks) == [] + Waiting(ticks[1..]) && SourceOrder(ticks[1..], sourceEnded, true)
      modifies this`ticks, this`ended, this`endArrived
      ensures InOrder() && ticks == old(ticks)[1..]
    {
      hide Chunks, Waiting, EndLast, SourceOrder;
      assert [] + Waiting(ticks[1..]) == Waiting(ticks[1..]);
      endArrived := true;
      ended := true;
      ticks := ticks[1..];
    }

    /** The event loop runs the oldest tick: an arrival is buffered and flushed, a late flush is just a flush. */
    method RunOne()
      requires Valid() && ticks != []
      modifies this
      ensures Valid() && source == old(source) && sourceEnded == old(sourceEnded) && old(emitted) <= emitted
    {
      hide InOrder;
      TakeTick();
      Flush();
    }

    method Outside(a: Action)
      requires Valid()
      modifies this
      ensures Valid() && source == old(source) && sourceEnded == old(sourceEnded) && old(emitted) <= emitted
    {
      hide InOrder;
      Perform(a);
    }

    method Take(step: Step)
      requires Valid()
      modifies this
      ensures Valid() && old(emitted) <= emitted
    {
      match step
      case SourceData(c) =>
        if !sourceEnded {
          ScheduleData(c);
        }
      case SourceEnd =>
        if !sourceEnded {
          ScheduleEnd();
        }
      case RunTick =>
        if ticks != [] {
          RunOne();
        }
      case Act(a) =>
        Outside(a);
    }

    /**
      * Any run: the chunks whose emission has begun are the source's first ones, in order and without repetition;
      * 'end' comes once, last, and after all of them; and once the ticks have run with a consumer present,
      * everything is out, however late the consumer came.
      */
    method Run(steps: seq<Step>)
      requires Valid()
      modifies this
      ensures Valid() && old(emitted) <= emitted
      ensures Chunks(emitted) <= source && EndLast(emitted)
      ensures End in emitted ==> sourceEnded && Chunks(emitted) == source
      ensures Gate() && ticks == [] ==> Chunks(emitted) == source && (sourceEnded <==> End in emitted)
    {
      hide InOrder;
      for i := 0 to |steps|
        invariant Valid() && old(emitted) <= emitted
      {
        Take(steps[i]);
      }
      Outcome();
    }

    lemma Outcome()
      requires Valid()
      ensures Chunks(emitted) <= source && EndLast(emitted)
      ensures End in emitted ==> sourceEnded && Chunks(emitted) == source
      ensures Gate() && ticks == [] ==> Chunks(emitted) == source && (sourceEnded <==> End in emitted)
    {
      assert source == Chunks(emitted) + (chunks + Waiting(ticks));
    }
  }

  /** The first tick leaves the queue. */
  lemma PopTick(ticks: seq<Tick>, sourceEnded: bool, endArrived: bool)
    requires SourceOrder(ticks, sourceEnded, endArrived) && ticks != []
    ensures Waiting(ticks) == (if ticks[0].Arrive? then [ticks[0].chunk] else []) + Waiting(ticks[1..])
    ensures SourceOrder(ticks[1..], sourceEnded, endArrived || ticks[0].ArriveEnd?)
    ensures ticks[0].ArriveEnd? || ticks[0].Arrive? ==> !endArrived
    ensures FlushLater in ticks[1..] ==> FlushLater in ticks
    ensures !ticks[0].FlushLater? ==> (FlushLater in ticks <==> FlushLater in ticks[1..])
  {
    WaitingFirst(ticks);
    var rest := ticks[1..];
    assert ArriveEnd in ticks <==> ticks[0] == ArriveEnd || ArriveEnd in rest;
    if ticks[0].ArriveEnd? {
      assert forall j | 0 <= j < |rest| :: rest[j] == ticks[j + 1] && !rest[j].Arrive? && !rest[j].ArriveEnd?;
      NoArrivals(rest);
    }
  }

  lemma {:induction false} NoArrivals(ticks: seq<Tick>)
    requires forall i | 0 <= i < |ticks| :: !ticks[i].Arrive?
    ensures Waiting(ticks) == []
    decreases |ticks|
  {
    if ticks != [] {
      NoArrivals(ticks[..|ticks| - 1]);
    }
  }

  /** The chunk and end ticks are the same; only flush ticks may have been added. */
  ghost predicate SameArrivals(a: seq<Tick>, b: seq<Tick>) {
    a <= b && forall i | |a| <= i < |b| :: b[i].FlushLater?
  }

  lemma LaterFlush(ticks: seq<Tick>, sourceEnded: bool, endArrived: bool)
    requires SourceOrder(ticks, sourceEnded, endArrived)
    ensures SourceOrder(ticks + [FlushLater], sourceEnded, endArrived)
    ensures Waiting(ticks + [FlushLater]) == Waiting(ticks)
  {
    WaitingAppend(ticks, FlushLater);
    assert Waiting(ticks) + [] == Waiting(ticks);
  }
}