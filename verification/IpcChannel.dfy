/** One end of the IPC channel as a step system: reader and writer threads, the tick queue, and listeners that call back. */
module IpcChannel {
  import opened Bytes
  import opened IpcFraming
  import opened Wrappers

  /** Serialization may fail on either side. The user code that it runs is part of the call that sends. */
  datatype Codec<!Msg> = Codec(mode: Mode, serialize: Msg -> Option<Bytes>, parse: Bytes -> Option<Msg>)

  /**
    * What a 'message' listener, or other code, may do to the channel. While a message is serialized its toJSON methods
    * and getters run: during is what these do, which happens only if the channel was connected at the call.
    */
  datatype Action<Msg> = DoSend(message: Msg, during: Script<Msg>, callback: bool) | DoDisconnect

  datatype Script<Msg> = Done | Then(first: Action<Msg>, rest: Script<Msg>)

  datatype Tick = Data(chunk: Bytes) | Eof | EmitDisconnect | EmitSent | EmitError

  /** Received(None) is a frame that did not parse: it is reported, not delivered. */
  datatype Event<+Msg> = Received(message: Option<Msg>) | Disconnected | Sent | Failed

  datatype Write = Write(data: Bytes, callback: bool)

  /** Crashed: a frame was written to the closed channel, which ends the process. */
  datatype Status = Open | Closed | Crashed

  /** A call that was made, and whether the channel was connected then. */
  datatype Call<Msg> = Call(action: Action<Msg>, connected: bool)

  /** What an action does: the status it leaves, the frames it queues, the ticks it schedules, and the calls it makes. */
  datatype Effect<Msg> = Effect(status: Status, writes: seq<Write>, ticks: seq<Tick>, calls: seq<Call<Msg>>)

  function EffectOf<Msg>(codec: Codec<Msg>, a: Action<Msg>, s: Status): Effect<Msg>
    decreases a
  {
    if s.Crashed? then Effect(s, [], [], [])
    else match a
      case DoDisconnect => Effect(Closed, [], [if s.Open? then EmitDisconnect else EmitError], [Call(a, s.Open?)])
      case DoSend(message, during, callback) =>
        if s.Closed? then Effect(Closed, [], [EmitError], [Call(a, false)])
        else
          var e := EffectAll(codec, during, Open);
          var payload := codec.serialize(message);
          Effect(
            if payload.Some? && e.status.Closed? then Crashed else e.status,
            if payload.Some? && e.status.Open? then e.writes + [Write(Encode(codec.mode, payload.value), callback)] else e.writes,
            e.ticks,
            [Call(a, true)] + e.calls)
  }

  function EffectAll<Msg>(codec: Codec<Msg>, script: Script<Msg>, s: Status): Effect<Msg>
    decreases script
  {
    match script
    case Done => Effect(s, [], [], [])
    case Then(first, rest) =>
      var e := EffectOf(codec, first, s);
      var e' := EffectAll(codec, rest, e.status);
      Effect(e'.status, e.writes + e'.writes, e.ticks + e'.ticks, e.calls + e'.calls)
  }

  /** A disconnect is among the actions, or among those that run while one of them serializes. */
  predicate Disconnects<Msg>(script: Script<Msg>) {
    match script
    case Done => false
    case Then(DoDisconnect, rest) => true
    case Then(DoSend(_, during, _), rest) => Disconnects(during) || Disconnects(rest)
  }

  /** An open channel stays open exactly if no disconnect is among the actions. */
  lemma {:induction false} StaysOpen<Msg>(codec: Codec<Msg>, script: Script<Msg>)
    ensures EffectAll(codec, script, Open).status.Open? <==> !Disconnects(script)
    decreases script
  {
    if script.Then? {
      if script.first.DoSend? {
        StaysOpen(codec, script.first.during);
      }
      var s := EffectOf(codec, script.first, Open).status;
      if s.Open? {
        StaysOpen(codec, script.rest);
      } else {
        NeverReopens(codec, script.rest, s);
      }
    }
  }

  /** A closed channel stays closed, and is not written to. */
  lemma {:induction false} NeverReopens<Msg>(codec: Codec<Msg>, script: Script<Msg>, s: Status)
    requires !s.Open?
    ensures EffectAll(codec, script, s).status == s && EffectAll(codec, script, s).writes == []
    decreases script
  {
    if script.Then? {
      NeverReopens(codec, script.rest, s);
    }
  }

  /** A send that found the channel open, whose message serializes, while a disconnect runs meanwhile. */
  predicate Fatal<Msg>(codec: Codec<Msg>, c: Call<Msg>) {
    c.connected && c.action.DoSend? && codec.serialize(c.action.message).Some? && Disconnects(c.action.during)
  }

  ghost predicate SomeFatal<Msg>(codec: Codec<Msg>, calls: seq<Call<Msg>>) {
    exists i | 0 <= i < |calls| :: Fatal(codec, calls[i])
  }

  lemma FatalConcat<Msg>(codec: Codec<Msg>, a: seq<Call<Msg>>, b: seq<Call<Msg>>)
    ensures SomeFatal(codec, a + b) <==> SomeFatal(codec, a) || SomeFatal(codec, b)
  {
    var c := a + b;
    assert forall i | 0 <= i < |a| :: c[i] == a[i];
    assert forall i | 0 <= i < |b| :: c[|a| + i] == b[i];
  }

  lemma FatalOne<Msg>(codec: Codec<Msg>, c: Call<Msg>)
    ensures SomeFatal(codec, [c]) <==> Fatal(codec, c)
  {
    assert [c][0] == c;
  }

  /** A frame is written to the closed channel exactly if one of the calls made is fatal. */
  lemma {:induction false} CrashExactly<Msg>(codec: Codec<Msg>, script: Script<Msg>, s: Status)
    requires !s.Crashed?
    ensures EffectAll(codec, script, s).status.Crashed? <==> SomeFatal(codec, EffectAll(codec, script, s).calls)
    decreases script, 0
  {
    hide SomeFatal, Fatal;
    match script
    case Done =>
      NoFatal(codec);
    case Then(first, rest) =>
      var e := EffectOf(codec, first, s);
      CrashOfOne(codec, first, s);
      if e.status.Crashed? {
        NeverReopens(codec, rest, Crashed);
        CrashedCallsNothing(codec, rest);
      } else {
        CrashExactly(codec, rest, e.status);
      }
      FatalConcat(codec, e.calls, EffectAll(codec, rest, e.status).calls);
  }

  lemma NoFatal<Msg>(codec: Codec<Msg>)
    ensures !SomeFatal(codec, [])
  {
  }

  lemma {:induction false} CrashedCallsNothing<Msg>(codec: Codec<Msg>, script: Script<Msg>)
    ensures EffectAll(codec, script, Crashed) == Effect(Crashed, [], [], [])
    decreases script
  {
    if script.Then? {
      CrashedCallsNothing(codec, script.rest);
    }
  }

  lemma {:induction false} CrashOfOne<Msg>(codec: Codec<Msg>, a: Action<Msg>, s: Status)
    requires !s.Crashed?
    ensures EffectOf(codec, a, s).status.Crashed? <==> SomeFatal(codec, EffectOf(codec, a, s).calls)
    decreases a, 1
  {
    hide SomeFatal;
    FatalOne(codec, Call(a, s.Open?));
    if a.DoSend? && s.Open? {
      var e := EffectAll(codec, a.during, Open);
      CrashExactly(codec, a.during, Open);
      StaysOpen(codec, a.during);
      FatalConcat(codec, [Call(a, true)], e.calls);
    }
  }

  /** process.send({ toJSON() { process.disconnect(); return 1; } }) on an open channel. */
  lemma DisconnectWhileSerializing<Msg>(codec: Codec<Msg>, message: Msg)
    requires codec.serialize(message).Some?
    ensures var e := EffectOf(codec, DoSend(message, Then(DoDisconnect, Done), false), Open);
      e.status.Crashed? && e.writes == [] && e.ticks == [EmitDisconnect]
  {
    assert EffectAll(codec, Done, Closed) == Effect(Closed, [], [], []);
  }

  /** On an open channel the actions do not lead to a write after the close. */
  predicate Calm<Msg>(codec: Codec<Msg>, script: Script<Msg>) {
    !EffectAll(codec, script, Open).status.Crashed?
  }

  /** Actions that do not crash an open channel crash none. */
  lemma CalmAnywhere<Msg>(codec: Codec<Msg>, script: Script<Msg>, s: Status)
    requires !s.Crashed? && Calm(codec, script)
    ensures !EffectAll(codec, script, s).status.Crashed?
  {
    if s.Closed? {
      NeverReopens(codec, script, s);
    }
  }

  // ---- what single calls, and code that does not disconnect, amount to ----

  /** A send queues its frame on an open channel, and on a closed one only an error; so does a second disconnect. */
  lemma SingleCalls<Msg>(codec: Codec<Msg>, message: Msg, callback: bool)
    ensures var a, payload := DoSend(message, Done, callback), codec.serialize(message);
      && EffectOf(codec, a, Closed) == Effect(Closed, [], [EmitError], [Call(a, false)])
      && (payload.None? ==> EffectOf(codec, a, Open) == Effect(Open, [], [], [Call(a, true)]))
      && (payload.Some? ==>
           EffectOf(codec, a, Open) == Effect(Open, [Write(Encode(codec.mode, payload.value), callback)], [], [Call(a, true)]))
    ensures var d: Action<Msg> := DoDisconnect;
      && EffectOf(codec, d, Open) == Effect(Closed, [], [EmitDisconnect], [Call(d, true)])
      && EffectOf(codec, d, Closed) == Effect(Closed, [], [EmitError], [Call(d, false)])
  {
    assert EffectAll(codec, Done, Open) == Effect(Open, [], [], []);
  }

  /** The frames of all sends whose message serializes; those sent during a serialization come before its own. */
  function FramesOf<Msg>(codec: Codec<Msg>, script: Script<Msg>): seq<Write> {
    match script
    case Done => []
    case Then(DoDisconnect, rest) => FramesOf(codec, rest)
    case Then(DoSend(message, during, callback), rest) =>
      FramesOf(codec, during)
      + (if codec.serialize(message).Some? then [Write(Encode(codec.mode, codec.serialize(message).value), callback)] else [])
      + FramesOf(codec, rest)
  }

  /** Code that does not disconnect queues all its frames, in order, and schedules nothing. */
  lemma {:induction false} FramesInOrder<Msg>(codec: Codec<Msg>, script: Script<Msg>)
    requires !Disconnects(script)
    ensures var e := EffectAll(codec, script, Open); e.status == Open && e.writes == FramesOf(codec, script) && e.ticks == []
    decreases script
  {
    if script.Then? {
      FramesInOrder(codec, script.first.during);
      FramesInOrder(codec, script.rest);
    }
  }

  // ---- readings of the queues ----

  function DataIn(ticks: seq<Tick>): Bytes {
    if ticks == [] then []
    else DataIn(ticks[..|ticks| - 1]) + (if ticks[|ticks| - 1].Data? then ticks[|ticks| - 1].chunk else [])
  }

  lemma {:induction false} DataFirst(ticks: seq<Tick>)
    requires ticks != []
    ensures DataIn(ticks) == (if ticks[0].Data? then ticks[0].chunk else []) + DataIn(ticks[1..])
    decreases |ticks|
  {
    var n := |ticks| - 1;
    if n > 0 {
      DataFirst(ticks[..n]);
      assert ticks[..n][1..] == ticks[1..][..n - 1];
      assert ticks[1..][n - 1] == ticks[n];
      var x := if ticks[0].Data? then ticks[0].chunk else [];
      var z := if ticks[n].Data? then ticks[n].chunk else [];
      assert (x + DataIn(ticks[1..][..n - 1])) + z == x + (DataIn(ticks[1..][..n - 1]) + z);
    } else {
      assert ticks[..0] == [] && ticks[1..] == [];
    }
  }

  lemma DataAppend(ticks: seq<Tick>, t: Tick)
    ensures DataIn(ticks + [t]) == DataIn(ticks) + (if t.Data? then t.chunk else [])
  {
    assert (ticks + [t])[..|ticks|] == ticks;
  }

  lemma {:induction false} NoData(ticks: seq<Tick>)
    requires forall i | 0 <= i < |ticks| :: !ticks[i].Data?
    ensures DataIn(ticks) == []
    decreases |ticks|
  {
    if ticks != [] {
      NoData(ticks[..|ticks| - 1]);
    }
  }

  function Outcomes<Msg>(codec: Codec<Msg>, frames: seq<Bytes>): seq<Option<Msg>> {
    seq(|frames|, i requires 0 <= i < |frames| => codec.parse(frames[i]))
  }

  function Messages<Msg>(events: seq<Event<Msg>>): seq<Option<Msg>> {
    if events == [] then []
    else
      var e := events[|events| - 1];
      Messages(events[..|events| - 1]) + if e.Received? then [e.message] else []
  }

  lemma MessagesAppend<Msg>(events: seq<Event<Msg>>, e: Event<Msg>)
    ensures Messages(events + [e]) == Messages(events) + if e.Received? then [e.message] else []
  {
    assert (events + [e])[..|events|] == events;
  }

  function Pieces(writes: seq<Write>): seq<Bytes> {
    seq(|writes|, i requires 0 <= i < |writes| => writes[i].data)
  }

  lemma LastPiece(writes: seq<Write>, w: Write)
    ensures Pieces(writes + [w]) == Pieces(writes) + [w.data]
  {
  }

  lemma NoPieces()
    ensures Pieces([]) == []
  {
  }

  lemma PiecesConcat(a: seq<Write>, b: seq<Write>)
    ensures Pieces(a + b) == Pieces(a) + Pieces(b)
  {
  }

  lemma FirstPiece(writes: seq<Write>)
    requires writes != []
    ensures Pieces(writes) == [writes[0].data] + Pieces(writes[1..])
  {
  }

  /** 'disconnect' comes once, after every message, whether already emitted or waiting in the queue. */
  ghost predicate DisconnectOnce<Msg>(connected: bool, ticks: seq<Tick>, events: seq<Event<Msg>>) {
    && (connected ==> EmitDisconnect !in ticks && Disconnected !in events)
    && (!connected ==> (EmitDisconnect in ticks) != (Disconnected in events))
    && (forall i, j | 0 <= i < j < |ticks| :: !(ticks[i].EmitDisconnect? && ticks[j].EmitDisconnect?))
    && (forall i, j | 0 <= i < j < |events| :: !(events[i].Disconnected? && (events[j].Received? || events[j].Disconnected?)))
  }

  /** Nothing was read after the end of the stream. */
  ghost predicate EofLast(readerDone: bool, ticks: seq<Tick>) {
    && (!readerDone ==> Eof !in ticks)
    && (forall i, j | 0 <= i < j < |ticks| && ticks[i].Eof? :: !ticks[j].Data?)
  }

  /** Ticks that carry neither data nor an end may be queued at any time. */
  lemma PlainTick<Msg>(connected: bool, readerDone: bool, ticks: seq<Tick>, events: seq<Event<Msg>>, t: Tick)
    requires t.EmitSent? || t.EmitError?
    requires DisconnectOnce(connected, ticks, events) && EofLast(readerDone, ticks)
    ensures DisconnectOnce(connected, ticks + [t], events) && EofLast(readerDone, ticks + [t])
    ensures DataIn(ticks + [t]) == DataIn(ticks)
    ensures (forall i | 0 <= i < |ticks| :: !ticks[i].Data?) ==> forall i | 0 <= i < |ticks + [t]| :: !(ticks + [t])[i].Data?
  {
    DataAppend(ticks, t);
    assert DataIn(ticks) + [] == DataIn(ticks);
  }

  /** The reader queues chunks, and at last the end. */
  lemma ReaderTick<Msg>(connected: bool, ticks: seq<Tick>, events: seq<Event<Msg>>, t: Tick)
    requires t.Data? || t.Eof?
    requires DisconnectOnce(connected, ticks, events) && EofLast(false, ticks)
    ensures DisconnectOnce(connected, ticks + [t], events) && EofLast(t.Eof?, ticks + [t])
    ensures DataIn(ticks + [t]) == DataIn(ticks) + if t.Data? then t.chunk else []
    ensures t.Eof? && (forall i | 0 <= i < |ticks| :: !ticks[i].Data?) ==>
      forall i | 0 <= i < |ticks + [t]| :: !(ticks + [t])[i].Data?
  {
    DataAppend(ticks, t);
  }

  lemma DisconnectTick<Msg>(readerDone: bool, ticks: seq<Tick>, events: seq<Event<Msg>>)
    requires DisconnectOnce(true, ticks, events) && EofLast(readerDone, ticks)
    ensures DisconnectOnce(false, ticks + [EmitDisconnect], events) && EofLast(readerDone, ticks + [EmitDisconnect])
    ensures DataIn(ticks + [EmitDisconnect]) == DataIn(ticks)
    ensures (forall i | 0 <= i < |ticks| :: !ticks[i].Data?)
      ==> forall i | 0 <= i < |ticks + [EmitDisconnect]| :: !(ticks + [EmitDisconnect])[i].Data?
  {
    DataAppend(ticks, EmitDisconnect);
    assert DataIn(ticks) + [] == DataIn(ticks);
    assert (ticks + [EmitDisconnect])[|ticks|] == EmitDisconnect;
  }

  /** The first tick leaves the queue. */
  lemma PopTick<Msg>(connected: bool, readerDone: bool, ticks: seq<Tick>, events: seq<Event<Msg>>)
    requires DisconnectOnce(connected, ticks, events) && EofLast(readerDone, ticks) && ticks != []
    ensures EofLast(readerDone, ticks[1..])
    ensures DataIn(ticks) == (if ticks[0].Data? then ticks[0].chunk else []) + DataIn(ticks[1..])
    ensures !ticks[0].EmitDisconnect? ==> DisconnectOnce(connected, ticks[1..], events)
    ensures ticks[0].EmitDisconnect? ==> DisconnectOnce(connected, ticks[1..], events + [Disconnected])
    ensures ticks[0].Eof? ==> readerDone && forall i | 0 <= i < |ticks[1..]| :: !ticks[1..][i].Data?
    ensures (forall i | 0 <= i < |ticks| :: !ticks[i].Data?) ==> forall i | 0 <= i < |ticks[1..]| :: !ticks[1..][i].Data?
  {
    DataFirst(ticks);
    var rest := ticks[1..];
    assert EmitDisconnect in ticks <==> ticks[0] == EmitDisconnect || EmitDisconnect in rest;
    assert Eof in rest ==> Eof in ticks;
    if ticks[0].EmitDisconnect? {
      assert forall j | 0 <= j < |rest| :: rest[j] == ticks[j + 1] && !rest[j].EmitDisconnect?;
      assert (events + [Disconnected])[|events|] == Disconnected;
    }
  }

  /** An event that is not 'disconnect' may be emitted while 'disconnect' has not been. */
  lemma MoreEvents<Msg>(connected: bool, ticks: seq<Tick>, events: seq<Event<Msg>>, e: Event<Msg>)
    requires DisconnectOnce(connected, ticks, events) && !e.Disconnected?
    requires e.Received? ==> Disconnected !in events
    ensures DisconnectOnce(connected, ticks, events + [e])
    ensures Disconnected in events + [e] <==> Disconnected in events
  {
  }

  class Channel<Msg> {
    const codec: Codec<Msg>
    // What the listeners do when the n-th message is emitted.
    const listener: nat -> Script<Msg>
    var connected: bool
    var pending: Bytes
    var writes: seq<Write>
    var writesClosed: bool
    var readerDone: bool
    var ticks: seq<Tick>
    var events: seq<Event<Msg>>
    var emitted: nat
    // A frame was written to the closed channel.
    var crashed: bool
    // External operations begun and not ended.
    var ops: int

    // All bytes read, those that onData has taken in, and whether disconnect() was called on this side.
    ghost var read: Bytes
    ghost var consumed: Bytes
    ghost var local: bool
    // Every frame handed to the writer, and those it has dealt with.
    ghost var sent: seq<Bytes>
    ghost var handled: seq<Bytes>
    // The calls of send and disconnect, from outside and from listeners.
    ghost var acted: seq<Call<Msg>>

    /** What holds between any two steps, and also while a listener runs. */
    ghost predicate Steady()
      reads this
    {
      Accounts() && consumed <= read && (!local ==> read == consumed + DataIn(ticks))
    }

    ghost predicate Accounts()
      reads this
    {
      && connected == !writesClosed && (local ==> !connected)
      && (crashed ==> local)
      && EofLast(readerDone, ticks)
      && DisconnectOnce(connected, ticks, events)
      && (!local && !connected ==> readerDone && forall i | 0 <= i < |ticks| :: !ticks[i].Data?)
      && ops == |writes| + (if crashed then 1 else 0)
      && handled + Pieces(writes) == sent
    }

    /** The messages emitted so far are those of the bytes taken in, and only the incomplete suffix is kept. */
    ghost predicate Delivered()
      reads this
    {
      && Messages(events) == Outcomes(codec, Parse(codec.mode, consumed).frames)
      && pending == Parse(codec.mode, consumed).rest
    }

    /** What the bytes still pending will add to the messages. */
    ghost predicate Delivering()
      reads this
    {
      && Messages(events) + Outcomes(codec, Parse(codec.mode, pending).frames) == Outcomes(codec, Parse(codec.mode, consumed).frames)
      && Parse(codec.mode, pending).rest == Parse(codec.mode, consumed).rest
    }

    ghost predicate Valid()
      reads this
    {
      Steady() && Traced() && (Delivered() || (crashed && Delivering()))
    }

    /** The channel has been written to after its close exactly if one of the calls made so far is fatal. */
    ghost predicate Traced()
      reads this`crashed, this`acted
    {
      crashed <==> SomeFatal(codec, acted)
    }

    /** What was done since keeps the trace. */
    twostate lemma StillTraced(new script: Script<Msg>)
      requires old(Traced()) && !old(crashed)
      requires Did(EffectAll(codec, script, old(Now())))
      ensures Traced()
    {
      hide SomeFatal, EffectAll;
      CrashExactly(codec, script, old(Now()));
      FatalConcat(codec, old(acted), EffectAll(codec, script, old(Now())).calls);
    }

    /** No listener writes to the channel after its close. */
    ghost predicate CalmListeners() {
      forall n: nat :: Calm(codec, listener(n))
    }

    function Now(): Status
      reads this`connected, this`crashed
    {
      if crashed then Crashed else if connected then Open else Closed
    }

    /** The state has changed by the effect. */
    twostate predicate Did(new e: Effect<Msg>)
      reads this
    {
      && Now() == e.status
      && writes == old(writes) + e.writes
      && sent == old(sent) + Pieces(e.writes)
      && ticks == old(ticks) + e.ticks
      && acted == old(acted) + e.calls
      && (connected ==> old(connected)) && local == (old(local) || (old(connected) && !connected))
    }

    constructor (codec: Codec<Msg>, listener: nat -> Script<Msg>)
      ensures Valid() && connected && !crashed && read == [] && sent == [] && ticks == [] && events == [] && !local
    {
      this.codec, this.listener := codec, listener;
      connected, pending, writes, writesClosed, readerDone, crashed := true, [], [], false, false, false;
      ticks, events, emitted, ops := [], [], 0, 0;
      read, consumed, local, sent, handled, acted := [], [], false, [], [], [];
      new;
      EmptyHasNoFrame(codec.mode);
      ParseNone(codec.mode, []);
    }

    /** The reader thread got a chunk. */
    method ReaderChunk(chunk: Bytes)
      requires Valid() && !crashed && !readerDone
      modifies this
      ensures Valid() && read == old(read) + chunk && ticks == old(ticks) + [Data(chunk)]
      ensures events == old(events) && sent == old(sent) && local == old(local) && !crashed
    {
      hide DisconnectOnce, EofLast, Messages, Parse, Outcomes, DataIn;
      ReaderTick(connected, ticks, events, Data(chunk));
      assert (consumed + DataIn(ticks)) + chunk == consumed + (DataIn(ticks) + chunk);
      ticks := ticks + [Data(chunk)];
      read := read + chunk;
    }

    /** The reader thread got the end of the stream or an error, and stops. */
    method ReaderEnd()
      requires Valid() && !crashed && !readerDone
      modifies this
      ensures Valid() && read == old(read) && readerDone && ticks == old(ticks) + [Eof]
      ensures events == old(events) && sent == old(sent) && local == old(local) && !crashed
    {
      hide DisconnectOnce, EofLast, Messages, Parse, Outcomes, DataIn;
      ReaderTick(connected, ticks, events, Eof);
      assert DataIn(ticks) + [] == DataIn(ticks);
      ticks := ticks + [Eof];
      readerDone := true;
    }

    /** The writer thread writes one frame; the callback of a write is a tick of its own. */
    method WriterStep()
      requires Valid() && !crashed && writes != []
      modifies this
      ensures Valid() && handled == old(handled) + [old(writes)[0].data]
      ensures ops == old(ops) - 1 && writes == old(writes)[1..]
      ensures ticks == old(ticks) + if old(writes)[0].callback then [EmitSent] else []
      ensures events == old(events) && sent == old(sent) && local == old(local) && read == old(read) && !crashed
    {
      hide DisconnectOnce, EofLast, Messages, Parse, Outcomes, DataIn;
      FirstPiece(writes);
      var w := writes[0];
      if w.callback {
        PlainTick(connected, readerDone, ticks, events, EmitSent);
        ticks := ticks + [EmitSent];
      }
      ops := ops - 1;
      assert handled + ([w.data] + Pieces(writes[1..])) == (handled + [w.data]) + Pieces(writes[1..]);
      handled := handled + [w.data];
      writes := writes[1..];
    }

    /**
      * send: on a closed channel only an error is scheduled. Otherwise the message is serialized, which may run user
      * code; then the frame is queued and keeps the loop alive, without another look at the channel.
      */
    method Send(a: Action<Msg>) returns (ok: bool)
      requires Steady() && !crashed && a.DoSend?
      modifies this`connected, this`writesClosed, this`ticks, this`local, this`ops, this`writes, this`sent, this`acted,
        this`crashed
      ensures Steady() && Did(EffectOf(codec, a, old(Now())))
      ensures ok <==> old(connected) && Now().Open? && codec.serialize(a.message).Some?
      decreases a, 0
    {
      hide Steady, EffectAll, Pieces;
      Log(Call(a, connected));
      NoPieces();
      if !connected {
        Refuse();
        return false;
      }
      Perform(a.during);
      ghost var e := EffectAll(codec, a.during, Open);
      InTurn(old(acted), [Call(a, true)], e.calls);
      var payload := codec.serialize(a.message);
      if crashed || payload.None? {
        return false;
      }
      var w := Write(Encode(codec.mode, payload.value), a.callback);
      LastPiece(e.writes, w);
      InTurn(old(writes), e.writes, [w]);
      InTurn(old(sent), Pieces(e.writes), [w.data]);
      ok := Enqueue(w);
    }

    ghost method Log(c: Call<Msg>)
      requires Steady()
      modifies this`acted
      ensures Steady() && acted == old(acted) + [c]
    {
      acted := acted + [c];
    }

    /** A call on the closed channel: an error is scheduled. */
    method Refuse()
      requires Steady()
      modifies this`ticks
      ensures Steady() && ticks == old(ticks) + [EmitError]
    {
      hide DisconnectOnce, EofLast, DataIn, Pieces;
      PlainTick(connected, readerDone, ticks, events, EmitError);
      ticks := ticks + [EmitError];
    }

    /** BeginExternalOp, and the write to the writer's queue, whatever has become of it. */
    method Enqueue(w: Write) returns (ok: bool)
      requires Steady() && !crashed && (connected || local)
      modifies this`ops, this`writes, this`sent, this`crashed
      ensures Steady() && ok == connected == !crashed
      ensures ok ==> writes == old(writes) + [w] && sent == old(sent) + [w.data]
      ensures !ok ==> writes == old(writes) && sent == old(sent)
    {
      hide DisconnectOnce, EofLast, DataIn, Pieces;
      ops := ops + 1;
      if writesClosed {
        crashed := true;
        return false;
      }
      LastPiece(writes, w);
      InTurn(handled, Pieces(writes), [w.data]);
      sent := sent + [w.data];
      writes := writes + [w];
      ok := true;
    }

    /** Code that uses the channel; after a crash nothing runs. */
    method Perform(script: Script<Msg>)
      requires Steady() && !crashed
      modifies this`connected, this`writesClosed, this`ticks, this`local, this`ops, this`writes, this`sent, this`acted,
        this`crashed
      ensures Steady() && Did(EffectAll(codec, script, old(Now())))
      decreases script, 0
    {
      hide Steady, EffectOf, Pieces;
      match script
      case Done =>
        NoPieces();
      case Then(first, rest) =>
        Act(first);
        ghost var e := EffectOf(codec, first, old(Now()));
        if crashed {
          CrashedCallsNothing(codec, rest);
          NoPieces();
          assert e.writes + [] == e.writes && e.ticks + [] == e.ticks && e.calls + [] == e.calls;
          return;
        }
        Perform(rest);
        ghost var e' := EffectAll(codec, rest, e.status);
        PiecesConcat(e.writes, e'.writes);
        InTurn(old(writes), e.writes, e'.writes);
        InTurn(old(sent), Pieces(e.writes), Pieces(e'.writes));
        InTurn(old(ticks), e.ticks, e'.ticks);
        InTurn(old(acted), e.calls, e'.calls);
    }

    method Act(a: Action<Msg>)
      requires Steady() && !crashed
      modifies this`connected, this`writesClosed, this`ticks, this`local, this`ops, this`writes, this`sent, this`acted,
        this`crashed
      ensures Steady() && Did(EffectOf(codec, a, old(Now())))
      decreases a, 1
    {
      hide Steady;
      if a.DoSend? {
        var ok := Send(a);
      } else {
        Disconnect();
      }
    }

    /** shutdown, with the reason recorded. */
    method Shutdown(byCall: bool)
      requires Steady() && (!byCall ==> readerDone && forall i | 0 <= i < |ticks| :: !ticks[i].Data?)
      modifies this`connected, this`writesClosed, this`ticks, this`local
      ensures Steady() && !connected
      ensures local == (old(local) || (byCall && old(connected)))
      ensures ticks == old(ticks) + if old(connected) then [EmitDisconnect] else []
    {
      hide DisconnectOnce, EofLast, DataIn, Pieces;
      if !connected {
        return;
      }
      DisconnectTick(readerDone, ticks, events);
      connected := false;
      writesClosed := true;
      local := local || byCall;
      ticks := ticks + [EmitDisconnect];
    }

    /** disconnect(). */
    method Disconnect()
      requires Steady() && !crashed
      modifies this`connected, this`writesClosed, this`ticks, this`local, this`acted
      ensures Steady() && local == (old(local) || old(connected))
      ensures Did(EffectOf(codec, DoDisconnect, old(Now())))
    {
      hide DisconnectOnce, EofLast, DataIn, Pieces;
      acted := acted + [Call(DoDisconnect, connected)];
      NoPieces();
      if !connected {
        Refuse();
        return;
      }
      Shutdown(true);
    }

    /** deliver, or the report of a frame that does not parse; listeners run before the next frame is looked at. */
    method Emit(message: Option<Msg>)
      requires Steady() && Traced() && !crashed && Disconnected !in events
      modifies this`events, this`emitted, this`connected, this`writesClosed, this`ticks, this`local, this`ops, this`writes,
        this`sent, this`acted, this`crashed
      ensures emitted == old(emitted) + if message.Some? then 1 else 0
      ensures Did(EffectAll(codec, if message.Some? then listener(emitted) else Done, old(Now())))
      ensures Traced() && (CalmListeners() ==> !crashed)
      ensures Steady() && events == old(events) + [Received(message)] && Disconnected !in events
    {
      hide DisconnectOnce, EofLast, DataIn, Pieces;
      MoreEvents(connected, ticks, events, Received(message));
      events := events + [Received(message)];
      if message.Some? {
        emitted := emitted + 1;
        Perform(listener(emitted));
        StillTraced(listener(emitted));
        if CalmListeners() {
          CalmAnywhere(codec, listener(emitted), old(Now()));
        }
      } else {
        NoPieces();
      }
    }

    /** onData, on a chunk just taken off the queue: emits every complete frame, even if a listener disconnects on the way. */
    method OnData(chunk: Bytes)
      requires Accounts() && Traced() && !crashed && Delivered() && (connected || local) && consumed <= read
      requires !local ==> read == consumed + (chunk + DataIn(ticks))
      modifies this
      ensures Valid() && read == old(read) && (CalmListeners() ==> !crashed)
      ensures consumed == if old(connected) then old(consumed) + chunk else old(consumed)
    {
      hide DisconnectOnce, EofLast, Parse, Messages, Outcomes, DataIn;
      if !connected {
        return;
      }
      StartDelivering(codec, events, consumed, pending, chunk);
      Connected(connected, ticks, events);
      assert (consumed + chunk) + DataIn(ticks) == consumed + (chunk + DataIn(ticks));
      pending := pending + chunk;
      consumed := consumed + chunk;
      EmitFrames();
    }

    method EmitFrames()
      requires Steady() && Traced() && !crashed && Delivering() && Disconnected !in events
      modifies this
      ensures Valid() && read == old(read) && consumed == old(consumed) && (CalmListeners() ==> !crashed)
    {
      hide Steady, Parse, Messages, Outcomes;
      while !crashed && First(codec.mode, pending).Some?
        invariant Steady() && Traced() && Delivering() && Disconnected !in events && (CalmListeners() ==> !crashed)
        invariant read == old(read) && consumed == old(consumed)
        decreases |pending|
      {
        var frame := First(codec.mode, pending).value;
        OneFrame(codec, events, pending, frame);
        TakeFrame(frame.taken);
        Emit(codec.parse(frame.payload));
      }
      if !crashed {
        LastFrame(codec, events, pending);
      }
    }

    method TakeFrame(n: nat)
      requires Steady() && !crashed && n <= |pending|
      modifies this`pending
      ensures Steady() && pending == old(pending)[n..]
    {
      pending := pending[n..];
    }

    /** The event loop runs the oldest tick. */
    method RunTick()
      requires Valid() && !crashed && ticks != []
      modifies this
      ensures Valid() && read == old(read) && (CalmListeners() ==> !crashed)
      ensures consumed == old(consumed) + if old(connected) && old(ticks)[0].Data? then old(ticks)[0].chunk else []
      ensures old(ticks)[0].Eof? ==> !connected && events == old(events)
      ensures old(ticks)[0].EmitDisconnect? ==> events == old(events) + [Disconnected]
      ensures old(ticks)[0].EmitSent? ==> events == old(events) + [Sent]
      ensures old(ticks)[0].EmitError? ==> events == old(events) + [Failed]
    {
      hide DisconnectOnce, EofLast, Parse, Messages, Outcomes, DataIn, Traced, Delivering, CalmListeners, Pieces;
      PopTick(connected, readerDone, ticks, events);
      assert forall x: Bytes :: [] + x == x;
      var t := ticks[0];
      ticks := ticks[1..];
      match t
      case Data(chunk) =>
        OnData(chunk);
      case Eof =>
        Shutdown(false);
      case EmitDisconnect =>
        MessagesAppend(events, Disconnected);
        events := events + [Disconnected];
      case EmitSent =>
        EmitPlain(Sent);
      case EmitError =>
        EmitPlain(Failed);
    }

    /** An event that carries no message. */
    method EmitPlain(e: Event<Msg>)
      requires Valid() && !crashed && (e.Sent? || e.Failed?)
      modifies this`events
      ensures Valid() && events == old(events) + [e]
    {
      hide DisconnectOnce, EofLast, Parse, Messages, Outcomes, DataIn;
      MoreEvents(connected, ticks, events, e);
      MessagesAppend(events, e);
      events := events + [e];
    }

    /**
      * Any schedule of the threads, the event loop and calls from outside: the messages emitted are the first ones of
      * those read, before a 'disconnect' caused by the peer they are all of them, and each frame sent is dealt with
      * once, in order. A frame is written to the closed channel exactly if one of the calls made was fatal.
      */
    method Run(steps: seq<Step<Msg>>)
      requires Valid()
      modifies this
      ensures Valid()
      ensures Messages(events) <= Outcomes(codec, Parse(codec.mode, read).frames)
      ensures !local && Disconnected in events ==> Messages(events) == Outcomes(codec, Parse(codec.mode, read).frames)
      ensures handled <= sent && ops == |sent| - |handled| + if crashed then 1 else 0
      ensures crashed <==> SomeFatal(codec, acted)
      ensures !old(crashed) && CalmListeners() && (forall i | 0 <= i < |steps| :: CalmStep(codec, steps[i])) ==> !crashed
    {
      hide Valid, SomeFatal, CalmStep;
      for i := 0 to |steps|
        invariant Valid()
        invariant !old(crashed) && CalmListeners() && (forall k | 0 <= k < i :: CalmStep(codec, steps[k])) ==> !crashed
      {
        OneStep(steps[i]);
      }
      EachSendEndsOnce();
      OnlyMessagesRead();
      if !local && Disconnected in events {
        AllBeforeDisconnect();
      }
    }

    method OneStep(step: Step<Msg>)
      requires Valid()
      modifies this
      ensures Valid() && (!old(crashed) && CalmListeners() && CalmStep(codec, step) ==> !crashed)
      ensures step.Use? && !old(crashed) ==> Did(EffectAll(codec, step.script, old(Now())))
    {
      hide DisconnectOnce, EofLast, Parse, Messages, Outcomes, DataIn, EffectAll;
      if crashed {
        return;
      }
      match step
      case ChunkArrives(chunk) =>
        if !readerDone {
          ReaderChunk(chunk);
        }
      case StreamEnds =>
        if !readerDone {
          ReaderEnd();
        }
      case WriterRuns =>
        if writes != [] {
          WriterStep();
        }
      case LoopRuns =>
        if ticks != [] {
          RunTick();
        }
      case Use(script) =>
        Perform(script);
        StillTraced(script);
        if CalmStep(codec, step) {
          CalmAnywhere(codec, script, old(Now()));
        }
    }

    /**
      * Once 'disconnect' has been emitted because the peer closed, every complete message among all bytes read
      * has been emitted before it, and nothing is emitted after it.
      */
    lemma AllBeforeDisconnect()
      requires Valid() && !local && Disconnected in events
      ensures Messages(events) == Outcomes(codec, Parse(codec.mode, read).frames)
      ensures pending == Parse(codec.mode, read).rest
      ensures forall i, j | 0 <= i < j < |events| && events[i].Disconnected? :: !events[j].Received? && !events[j].Disconnected?
    {
      NoData(ticks);
      assert consumed + [] == consumed;
    }

    /** Whoever closes the channel, what has been emitted is a prefix of the messages read. */
    lemma OnlyMessagesRead()
      requires Valid()
      ensures Messages(events) <= Outcomes(codec, Parse(codec.mode, read).frames)
    {
      hide Parse, Messages, Outcomes, Accounts;
      var later := read[|consumed|..];
      assert read == consumed + later;
      ParseContinues(codec.mode, consumed, later);
      OutcomesConcat(codec, Parse(codec.mode, consumed).frames, Parse(codec.mode, Parse(codec.mode, consumed).rest + later).frames);
    }

    /** If the peer sent these payloads, and all that was read has been taken in, exactly they have been emitted. */
    lemma NothingLost(payloads: seq<Bytes>, suffix: Bytes)
      requires Valid() && !local && DataIn(ticks) == []
      requires (forall i | 0 <= i < |payloads| :: Fits(codec.mode, payloads[i])) && First(codec.mode, suffix).None?
      requires read == EncodeAll(codec.mode, payloads) + suffix
      ensures Messages(events) == Outcomes(codec, payloads) && pending == suffix
    {
      ParseEncoded(codec.mode, payloads, suffix);
      assert consumed + [] == consumed;
    }

    /**
      * Each frame that was sent holds one external operation until the writer has dealt with it, in order; the write to
      * the closed channel has begun one too.
      */
    lemma EachSendEndsOnce()
      requires Valid()
      ensures handled <= sent && ops == |sent| - |handled| + if crashed then 1 else 0
      ensures Traced()
    {
    }
  }

  datatype Step<Msg> =
    | ChunkArrives(chunk: Bytes)
    | StreamEnds
    | WriterRuns
    | LoopRuns
    | Use(script: Script<Msg>)

  /** The code that runs in this step does not write to the channel after its close. */
  predicate CalmStep<Msg>(codec: Codec<Msg>, step: Step<Msg>) {
    step.Use? ==> Calm(codec, step.script)
  }

  lemma Connected<Msg>(connected: bool, ticks: seq<Tick>, events: seq<Event<Msg>>)
    requires DisconnectOnce(connected, ticks, events) && connected
    ensures Disconnected !in events
  {
  }

  lemma OutcomesConcat<Msg>(codec: Codec<Msg>, a: seq<Bytes>, b: seq<Bytes>)
    ensures Outcomes(codec, a + b) == Outcomes(codec, a) + Outcomes(codec, b)
  {
  }

  /** The bytes pending and a new chunk hold what is still to be emitted. */
  lemma StartDelivering<Msg>(codec: Codec<Msg>, events: seq<Event<Msg>>, consumed: Bytes, pending: Bytes, chunk: Bytes)
    requires Messages(events) == Outcomes(codec, Parse(codec.mode, consumed).frames)
    requires pending == Parse(codec.mode, consumed).rest
    ensures Messages(events) + Outcomes(codec, Parse(codec.mode, pending + chunk).frames)
      == Outcomes(codec, Parse(codec.mode, consumed + chunk).frames)
    ensures Parse(codec.mode, pending + chunk).rest == Parse(codec.mode, consumed + chunk).rest
  {
    hide Parse, Messages, Outcomes;
    ParseContinues(codec.mode, consumed, chunk);
    OutcomesConcat(codec, Parse(codec.mode, consumed).frames, Parse(codec.mode, pending + chunk).frames);
  }

  lemma OneFrame<Msg>(codec: Codec<Msg>, events: seq<Event<Msg>>, pending: Bytes, frame: Frame)
    requires First(codec.mode, pending) == Some(frame)
    ensures 0 < frame.taken <= |pending|
    ensures Messages(events + [Received(codec.parse(frame.payload))])
        + Outcomes(codec, Parse(codec.mode, pending[frame.taken..]).frames)
      == Messages(events) + Outcomes(codec, Parse(codec.mode, pending).frames)
    ensures Parse(codec.mode, pending[frame.taken..]).rest == Parse(codec.mode, pending).rest
  {
    hide *;
    ParseSome(codec.mode, pending, frame);
    MessagesAppend(events, Received(codec.parse(frame.payload)));
    FirstOutcome(codec, frame.payload, Parse(codec.mode, pending[frame.taken..]).frames);
    InTurn(Messages(events), [codec.parse(frame.payload)], Outcomes(codec, Parse(codec.mode, pending[frame.taken..]).frames));
  }

  lemma FirstOutcome<Msg>(codec: Codec<Msg>, payload: Bytes, frames: seq<Bytes>)
    ensures Outcomes(codec, [payload] + frames) == [codec.parse(payload)] + Outcomes(codec, frames)
  {
  }

  lemma InTurn<T>(a: seq<T>, b: seq<T>, c: seq<T>)
    ensures a + b + c == a + (b + c)
  {
  }

  lemma LastFrame<Msg>(codec: Codec<Msg>, events: seq<Event<Msg>>, pending: Bytes)
    requires First(codec.mode, pending).None?
    ensures Messages(events) + Outcomes(codec, Parse(codec.mode, pending).frames) == Messages(events)
    ensures Parse(codec.mode, pending).rest == pending
  {
    hide First, Messages;
    ParseNone(codec.mode, pending);
  }
}
