/** A spawned child: pumps, the waiter, ref() and unref() as threads over one mutex-guarded handle and one tick queue. */
module ChildProcess {

  /** Ticks in the order they are queued, which is the order they run in. The last one emits 'exit' and then 'close'. */
  datatype Tick =
    | Data(pump: nat, chunk: seq<int>)
    | StreamError(pump: nat)
    | End(pump: nat)
    | ChildError
    | ExitAndClose(code: int)

  /** Failed: the read error is queued and 'end' is not yet. */
  datatype Pump = Reading | Failed | Ended | Done

  /**
    * The waiter: blocked on the pumps and the process; a failure to wait is queued; exit queued; handle marked;
    * operation ended; handle forgotten.
    */
  datatype Waiter = Waiting | WaitFailed | Queued | Marked(wasRefed: bool) | Finished | Forgotten

  datatype Step =
    | PumpReads(pump: nat, chunk: seq<int>)
    | PumpFails(pump: nat)
    | PumpEnds(pump: nat)
    | PumpSignals(pump: nat)
    | WaitFails
    | ProcessExits(code: int)
    | WaiterMarks
    | WaiterEnds
    | WaiterForgets
    | CallRef
    | CallUnref

  function Open(pumps: seq<Pump>): nat {
    if pumps == [] then 0 else Open(pumps[..|pumps| - 1]) + if pumps[|pumps| - 1].Done? then 0 else 1
  }

  lemma {:induction false} OpenNone(pumps: seq<Pump>)
    ensures Open(pumps) == 0 <==> forall i | 0 <= i < |pumps| :: pumps[i].Done?
    decreases |pumps|
  {
    if pumps != [] {
      OpenNone(pumps[..|pumps| - 1]);
    }
  }

  lemma {:induction false} OpenUpdate(pumps: seq<Pump>, i: nat, p: Pump)
    requires i < |pumps|
    ensures Open(pumps[i := p]) == Open(pumps) - (if pumps[i].Done? then 0 else 1) + (if p.Done? then 0 else 1)
    decreases |pumps|
  {
    var n := |pumps| - 1;
    if i < n {
      OpenUpdate(pumps[..n], i, p);
      assert pumps[i := p][..n] == pumps[..n][i := p];
    } else {
      assert pumps[i := p][..n] == pumps[..n];
    }
  }

  /** 'end' of a stream comes once, after all its data, and not before the pump has stopped reading. */
  ghost predicate StreamOrder(pumps: seq<Pump>, queue: seq<Tick>) {
    && (forall k | 0 <= k < |queue| && queue[k].End? :: queue[k].pump < |pumps| && Over(pumps[queue[k].pump]))
    && (forall p | 0 <= p < |pumps| && Over(pumps[p]) :: End(p) in queue)
    && (forall k, m | 0 <= k < m < |queue| && queue[k].End? :: !OfPump(queue[m], queue[k].pump))
  }

  /** The pump has left its loop. */
  predicate Over(p: Pump) {
    p.Ended? || p.Done?
  }

  predicate OfPump(t: Tick, p: nat) {
    (t.Data? || t.StreamError? || t.End?) && t.pump == p
  }

  /** 'exit' and 'close' are queued once, behind everything else. */
  ghost predicate ExitLast(waiter: Waiter, queue: seq<Tick>) {
    && (Blocked(waiter) ==> forall k | 0 <= k < |queue| :: !queue[k].ExitAndClose?)
    && (!Blocked(waiter) ==>
      && queue != [] && queue[|queue| - 1].ExitAndClose?
      && forall k | 0 <= k < |queue| - 1 :: !queue[k].ExitAndClose?)
  }

  /** The waiter has not queued 'exit'. */
  predicate Blocked(waiter: Waiter) {
    waiter.Waiting? || waiter.WaitFailed?
  }

  class SpawnedChild {
    var refed: bool
    var exited: bool
    var known: bool
    var begun: nat
    var ended: nat
    var waitGroup: nat
    var pumps: seq<Pump>
    var waiter: Waiter
    var queue: seq<Tick>

    /** The operations that are open: the child's own while it is referenced, until the waiter has given it back. */
    function Owed(): nat
      reads this
    {
      if waiter.Finished? || waiter.Forgotten? then 0 else if refed then 1 else 0
    }

    ghost predicate Valid()
      reads this
    {
      && waitGroup == Open(pumps)
      && (!waiter.Waiting? ==> forall i | 0 <= i < |pumps| :: pumps[i].Done?)
      && begun == ended + Owed()
      && (exited <==> waiter.Marked? || waiter.Finished? || waiter.Forgotten?)
      && (known <==> !waiter.Forgotten?)
      && (waiter.Marked? ==> waiter.wasRefed == refed)
      && StreamOrder(pumps, queue)
      && ExitLast(waiter, queue)
    }

    /** A child that has started: its operation is open, and every pump runs. */
    constructor (pumpCount: nat)
      ensures Valid() && queue == [] && |pumps| == pumpCount && begun == 1 && ended == 0
    {
      refed, exited, known, begun, ended := true, false, true, 1, 0;
      pumps, waitGroup, waiter, queue := seq(pumpCount, _ => Reading), pumpCount, Waiting, [];
      new;
      AllOpen(pumps);
    }

    /** pumpSpawnStream: a chunk. */
    method PumpRead(p: nat, chunk: seq<int>)
      requires Valid() && p < |pumps| && pumps[p].Reading?
      modifies this`queue
      ensures Valid() && queue == old(queue) + [Data(p, chunk)]
    {
      queue := queue + [Data(p, chunk)];
    }

    /** The pump's read failed: the error is queued first. */
    method PumpFail(p: nat)
      requires Valid() && p < |pumps| && pumps[p].Reading?
      modifies this`queue, this`pumps
      ensures Valid() && queue == old(queue) + [StreamError(p)] && pumps == old(pumps)[p := Failed]
    {
      queue := queue + [StreamError(p)];
      OpenUpdate(pumps, p, Failed);
      pumps := pumps[p := Failed];
    }

    /** At the end of the stream, or after an error, 'end' is queued and the loop is left. */
    method PumpStop(p: nat)
      requires Valid() && p < |pumps| && !Over(pumps[p])
      modifies this`queue, this`pumps
      ensures Valid() && queue == old(queue) + [End(p)] && pumps == old(pumps)[p := Ended]
    {
      hide Open;
      queue := queue + [End(p)];
      OpenUpdate(pumps, p, Ended);
      pumps := pumps[p := Ended];
      assert queue[|queue| - 1] == End(p);
    }

    /** The deferred Done of the wait group. */
    method PumpSignal(p: nat)
      requires Valid() && p < |pumps| && pumps[p].Ended?
      modifies this`waitGroup, this`pumps
      ensures Valid() && waitGroup == old(waitGroup) - 1 && pumps == old(pumps)[p := Done]
    {
      OpenUpdate(pumps, p, Done);
      waitGroup := waitGroup - 1;
      pumps := pumps[p := Done];
    }

    /** The process could not be waited for: the error is queued first. */
    method WaiterFails()
      requires Valid() && waiter.Waiting? && waitGroup == 0
      modifies this`queue, this`waiter
      ensures Valid() && waiter.WaitFailed? && queue == old(queue) + [ChildError]
    {
      OpenNone(pumps);
      queue := queue + [ChildError];
      waiter := WaitFailed;
    }

    /** waitSpawnProcess is past the wait group and the process: it queues 'exit' and 'close'. */
    method WaiterQueues(code: int)
      requires Valid() && Blocked(waiter) && waitGroup == 0
      modifies this`queue, this`waiter
      ensures Valid() && waiter.Queued? && queue == old(queue) + [ExitAndClose(code)]
    {
      OpenNone(pumps);
      queue := queue + [ExitAndClose(code)];
      waiter := Queued;
    }

    /** Under the lock: the handle is marked exited. */
    method WaiterMark()
      requires Valid() && waiter.Queued?
      modifies this`exited, this`waiter
      ensures Valid() && exited && waiter == Marked(refed)
    {
      waiter := Marked(refed);
      exited := true;
    }

    /** After the lock: the operation is ended if the handle was still referenced. */
    method WaiterEnd()
      requires Valid() && waiter.Marked?
      modifies this`ended, this`waiter
      ensures Valid() && begun == ended && waiter.Finished?
    {
      if waiter.wasRefed {
        ended := ended + 1;
      }
      waiter := Finished;
    }

    method WaiterForget()
      requires Valid() && waiter.Finished?
      modifies this`known, this`waiter
      ensures Valid() && !known && waiter.Forgotten?
    {
      known := false;
      waiter := Forgotten;
    }

    /** unref(): idempotent, and without effect once the child has exited. */
    method Unref()
      requires Valid()
      modifies this`refed, this`ended
      ensures Valid() && (exited ==> refed == old(refed) && ended == old(ended))
      ensures !exited ==> !refed
    {
      if known {
        if refed && !exited {
          refed := false;
          ended := ended + 1;
        }
      }
    }

    /** ref(). */
    method Ref()
      requires Valid()
      modifies this`refed, this`begun
      ensures Valid() && (exited ==> refed == old(refed) && begun == old(begun))
      ensures !exited ==> refed
    {
      if known {
        if !refed && !exited {
          refed := true;
          begun := begun + 1;
        }
      }
    }

    /** One step of one of the threads; a step whose thread is not there is skipped. */
    method Take(step: Step)
      requires Valid()
      modifies this
      ensures Valid() && old(queue) <= queue && |pumps| == |old(pumps)|
    {
      hide StreamOrder, ExitLast, Open;
      match step
      case PumpReads(p, chunk) =>
        if p < |pumps| && pumps[p].Reading? {
          PumpRead(p, chunk);
        }
      case PumpFails(p) =>
        if p < |pumps| && pumps[p].Reading? {
          PumpFail(p);
        }
      case PumpEnds(p) =>
        if p < |pumps| && !Over(pumps[p]) {
          PumpStop(p);
        }
      case PumpSignals(p) =>
        if p < |pumps| && pumps[p].Ended? {
          PumpSignal(p);
        }
      case WaitFails =>
        if waiter.Waiting? && waitGroup == 0 {
          WaiterFails();
        }
      case ProcessExits(code) =>
        if Blocked(waiter) && waitGroup == 0 {
          WaiterQueues(code);
        }
      case WaiterMarks =>
        if waiter.Queued? {
          WaiterMark();
        }
      case WaiterEnds =>
        if waiter.Marked? {
          WaiterEnd();
        }
      case WaiterForgets =>
        if waiter.Finished? {
          WaiterForget();
        }
      case CallRef =>
        Ref();
      case CallUnref =>
        Unref();
    }

    /**
      * Any interleaving: nothing is queued behind 'exit' and 'close', which come after the end of every stream,
      * and once the waiter has finished every operation that was begun has been ended.
      */
    method Run(steps: seq<Step>)
      requires Valid()
      modifies this
      ensures Valid() && |pumps| == |old(pumps)|
      ensures forall k | 0 <= k < |queue| && queue[k].ExitAndClose? ::
        && k == |queue| - 1
        && forall p | 0 <= p < |pumps| :: End(p) in queue[..k]
      ensures waiter.Finished? || waiter.Forgotten? ==> begun == ended
      ensures begun == ended || begun == ended + 1
    {
      for i := 0 to |steps|
        invariant Valid() && |pumps| == |old(pumps)|
      {
        Take(steps[i]);
      }
      EndsBeforeExit();
    }

    lemma EndsBeforeExit()
      requires Valid()
      ensures forall k | 0 <= k < |queue| && queue[k].ExitAndClose? ::
        && k == |queue| - 1
        && forall p | 0 <= p < |pumps| :: End(p) in queue[..k]
    {
      forall k, p | 0 <= k < |queue| && queue[k].ExitAndClose? && 0 <= p < |pumps|
        ensures k == |queue| - 1 && End(p) in queue[..k]
      {
        assert End(p) in queue;
        var m :| 0 <= m < |queue| && queue[m] == End(p);
        assert m < k && queue[..k][m] == End(p);
      }
    }
  }

  lemma {:induction false} AllOpen(pumps: seq<Pump>)
    requires forall i | 0 <= i < |pumps| :: pumps[i].Reading?
    ensures Open(pumps) == |pumps|
    decreases |pumps|
  {
    if pumps != [] {
      AllOpen(pumps[..|pumps| - 1]);
    }
  }
}
