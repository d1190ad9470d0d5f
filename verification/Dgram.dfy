/** A UDP socket handle: its flags and external operation, and the receive loop that holds a datagram while reading is stopped. */
module Dgram {

  /**
    * Where the receive thread is. Holding: a datagram was read and waits until the handle reads again; Released: it has
    * left the lock and is about to queue it. Failing: it is about to queue an error.
    */
  datatype Receiver = NotStarted | Idle | InRead | Holding(data: int) | Released(data: int) | Failing | Exited

  /** Callbacks the receive thread has queued; datagrams are numbered. */
  datatype Tick = Message(data: int) | Failure

  datatype Step =
    | CallBind(allowed: bool)
    | CallRecvStart
    | CallRecvStop
    | CallRef
    | CallUnref
    | CallClose
    | ReceiverWakes
    | ReceiverReads(data: int)
    | ReceiverFails
    | ReceiverReleases
    | ReceiverQueues
    | LoopRuns

  function DataOf(ticks: seq<Tick>): seq<int> {
    if ticks == [] then []
    else DataOf(ticks[..|ticks| - 1]) + if ticks[|ticks| - 1].Message? then [ticks[|ticks| - 1].data] else []
  }

  lemma DataAppend(ticks: seq<Tick>, t: Tick)
    ensures DataOf(ticks + [t]) == DataOf(ticks) + if t.Message? then [t.data] else []
  {
    assert (ticks + [t])[..|ticks|] == ticks;
  }

  lemma {:induction false} DataFirst(ticks: seq<Tick>)
    requires ticks != []
    ensures DataOf(ticks) == (if ticks[0].Message? then [ticks[0].data] else []) + DataOf(ticks[1..])
    decreases |ticks|
  {
    var n := |ticks| - 1;
    if n > 0 {
      DataFirst(ticks[..n]);
      assert ticks[..n][1..] == ticks[1..][..n - 1];
    } else {
      assert ticks[..0] == [] && ticks[1..] == [];
    }
  }

  class Handle {
    var bound: bool
    var reading: bool
    var closed: bool
    var started: bool
    var refed: bool
    var opHeld: bool
    var begun: nat
    var ended: nat
    var receiver: Receiver
    var ticks: seq<Tick>
    var delivered: seq<int>

    // The datagrams taken off the socket, and what had been delivered when the handle was closed.
    ghost var received: seq<int>
    ghost var atClose: seq<int>

    function Held(): seq<int>
      reads this`receiver
    {
      if receiver.Holding? || receiver.Released? then [receiver.data] else []
    }

    ghost predicate Accounts()
      reads this
    {
      && opHeld == (refed && reading && !closed && bound)
      && begun == ended + (if opHeld then 1 else 0)
      && started == bound && (started <==> !receiver.NotStarted?)
    }

    /** Nothing received is lost, repeated or reordered while the handle is open, and nothing is delivered once it is closed. */
    ghost predicate Valid()
      reads this
    {
      && Accounts()
      && (!closed ==> received == delivered + DataOf(ticks) + Held() && !receiver.Exited?)
      && (closed ==> delivered == atClose && atClose <= received)
    }

    /** newDgramHandle: referenced, not yet bound or reading. */
    constructor ()
      ensures Valid() && !closed && received == []
    {
      bound, reading, closed, started, refed, opHeld := false, false, false, false, true, false;
      begun, ended, receiver, ticks, delivered, received, atClose := 0, 0, NotStarted, [], [], [], [];
    }

    /** updateOpLocked: the one place where operations are begun and ended. */
    method UpdateOp()
      requires begun == ended + (if opHeld then 1 else 0)
      modifies this`opHeld, this`begun, this`ended
      ensures opHeld == (refed && reading && !closed && bound)
      ensures begun == ended + (if opHeld then 1 else 0)
      ensures opHeld == old(opHeld) ==> begun == old(begun) && ended == old(ended)
    {
      var want := refed && reading && !closed && bound;
      if want == opHeld {
        return;
      }
      opHeld := want;
      if want {
        begun := begun + 1;
      } else {
        ended := ended + 1;
      }
    }

    /** bind: allowed says whether the address parses and the socket can be made. */
    method Bind(allowed: bool) returns (ok: bool)
      requires Valid()
      modifies this
      ensures Valid() && ok == (allowed && !old(closed) && !old(bound))
      ensures bound == (old(bound) || ok)
      ensures delivered == old(delivered) && received == old(received) && closed == old(closed)
    {
      if closed || bound || !allowed {
        return false;
      }
      bound := true;
      UpdateOp();
      if !started {
        started := true;
        receiver := Idle;
      }
      ok := true;
    }

    method RecvStart()
      requires Valid()
      modifies this`reading, this`opHeld, this`begun, this`ended
      ensures Valid() && reading
    {
      reading := true;
      UpdateOp();
    }

    method RecvStop()
      requires Valid()
      modifies this`reading, this`opHeld, this`begun, this`ended
      ensures Valid() && !reading && begun == ended
    {
      reading := false;
      UpdateOp();
    }

    method Ref()
      requires Valid()
      modifies this`refed, this`opHeld, this`begun, this`ended
      ensures Valid() && refed
    {
      refed := true;
      UpdateOp();
    }

    method Unref()
      requires Valid()
      modifies this`refed, this`opHeld, this`begun, this`ended
      ensures Valid() && !refed && begun == ended
    {
      refed := false;
      UpdateOp();
    }

    /** close: the operation is given back, and the waiting receiver is woken. */
    method Close()
      requires Valid()
      modifies this`closed, this`opHeld, this`begun, this`ended, this`atClose
      ensures Valid() && closed && begun == ended && delivered == old(delivered)
    {
      if closed {
        return;
      }
      assert received == delivered + (DataOf(ticks) + Held());
      closed := true;
      atClose := delivered;
      UpdateOp();
    }

    /** The top of recvLoop: it waits until the handle reads or is closed. */
    method ReceiverWake()
      requires Valid() && receiver.Idle?
      modifies this`receiver
      ensures Valid()
      ensures receiver == if closed then Exited else if reading then InRead else Idle
    {
      if closed {
        receiver := Exited;
      } else if reading {
        receiver := InRead;
      }
    }

    /** ReadFromUDP returns a datagram. */
    method ReceiverRead(data: int)
      requires Valid() && receiver.InRead?
      modifies this`receiver, this`received
      ensures Valid() && receiver == Holding(data) && received == old(received) + [data]
    {
      assert delivered + DataOf(ticks) + [] == delivered + DataOf(ticks);
      receiver := Holding(data);
      received := received + [data];
    }

    /** ReadFromUDP fails: if the handle is closed by now the loop ends. */
    method ReceiverFail()
      requires Valid() && receiver.InRead?
      modifies this`receiver
      ensures Valid() && receiver == if closed then Exited else Failing
    {
      receiver := if closed then Exited else Failing;
    }

    /** The error is queued. */
    method ReceiverReport()
      requires Valid() && receiver.Failing?
      modifies this`receiver, this`ticks
      ensures Valid() && receiver.Idle? && ticks == old(ticks) + [Failure]
    {
      DataAppend(ticks, Failure);
      assert DataOf(ticks) + [] == DataOf(ticks);
      ticks := ticks + [Failure];
      receiver := Idle;
    }

    /** Under the lock: a held datagram is let go only while the handle reads, or once it is closed. */
    method ReceiverRelease()
      requires Valid() && receiver.Holding?
      modifies this`receiver
      ensures Valid() && receiver == if closed || reading then Released(old(receiver).data) else old(receiver)
    {
      if closed || reading {
        receiver := Released(receiver.data);
      }
    }

    /** After the lock it is queued, even if reading was stopped or the handle was closed in between. */
    method ReceiverQueue()
      requires Valid() && receiver.Released?
      modifies this`receiver, this`ticks
      ensures Valid() && receiver.Idle? && ticks == old(ticks) + [Message(old(receiver).data)]
    {
      var data := receiver.data;
      DataAppend(ticks, Message(data));
      assert delivered + (DataOf(ticks) + [data]) + [] == delivered + DataOf(ticks) + [data];
      ticks := ticks + [Message(data)];
      receiver := Idle;
    }

    /** A queued callback runs: it delivers unless the handle has been closed. */
    method RunTick()
      requires Valid() && ticks != []
      modifies this`ticks, this`delivered
      ensures Valid() && ticks == old(ticks)[1..]
      ensures delivered == old(delivered) + if !closed && old(ticks)[0].Message? then [old(ticks)[0].data] else []
    {
      DataFirst(ticks);
      var t := ticks[0];
      var rest := DataOf(ticks[1..]);
      ticks := ticks[1..];
      if t.Message? {
        assert (delivered + [t.data]) + rest == delivered + ([t.data] + rest);
        if !closed {
          delivered := delivered + [t.data];
        }
      } else {
        assert [] + rest == rest;
      }
    }

    method Take(step: Step)
      requires Valid()
      modifies this
      ensures Valid()
      ensures old(closed) ==> closed && delivered == old(delivered)
    {
      hide DataOf;
      match step
      case CallBind(allowed) => var ok := Bind(allowed);
      case CallRecvStart => RecvStart();
      case CallRecvStop => RecvStop();
      case CallRef => Ref();
      case CallUnref => Unref();
      case CallClose => Close();
      case ReceiverWakes =>
        if receiver.Idle? {
          ReceiverWake();
        }
      case ReceiverReads(data) =>
        if receiver.InRead? {
          ReceiverRead(data);
        }
      case ReceiverFails =>
        if receiver.InRead? {
          ReceiverFail();
        }
      case ReceiverReleases =>
        if receiver.Holding? {
          ReceiverRelease();
        }
      case ReceiverQueues =>
        if receiver.Released? {
          ReceiverQueue();
        } else if receiver.Failing? {
          ReceiverReport();
        }
      case LoopRuns =>
        if ticks != [] {
          RunTick();
        }
    }

    /**
      * Any interleaving: an operation is open exactly while the handle is referenced, reading, open and bound; what
      * has been delivered is a prefix of what was received; and a closed handle delivers nothing more.
      */
    method Run(steps: seq<Step>)
      requires Valid()
      modifies this
      ensures Valid()
      ensures begun - ended == if refed && reading && !closed && bound then 1 else 0
      ensures delivered <= received
      ensures old(closed) ==> delivered == old(delivered)
    {
      hide DataOf;
      for i := 0 to |steps|
        invariant Valid()
        invariant old(closed) ==> closed && delivered == old(delivered)
      {
        Take(steps[i]);
      }
      assert !closed ==> received == delivered + (DataOf(ticks) + Held());
    }
  }
}
