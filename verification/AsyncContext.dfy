/**
  * The execution context of node:async_hooks: one mutable current frame, saved and restored around callbacks,
  * against a reference semantics in which every piece of code is handed its frame.
  */
module AsyncContext {

  datatype JsValue = Undefined | Value(n: int)

  /** An AsyncLocalStorage store map; a store of undefined behaves as the empty map. */
  type Storage = nat
  type Store = map<Storage, JsValue>

  datatype Frame = Frame(id: nat, trigger: nat, store: Store)

  /**
    * JavaScript as far as it uses the context. Slots are variables holding snapshots and resources. HostThread is no
    * code of the program: it is a host thread that schedules work at this moment, while the program runs.
    */
  datatype Program = Done | Then(first: Command, rest: Program)

  datatype Command =
    | GetStore(als: Storage)
    | GetIds
    | Run(als: Storage, value: JsValue, body: Program)
    | Exit(als: Storage, body: Program)
    | EnterWith(als: Storage, value: JsValue)
    | Disable(als: Storage)
    | TakeSnapshot(slot: nat)
    | RunSnapshot(slot: nat, body: Program)
    | NewResource(slot: nat)
    | RunInAsyncScope(slot: nat, body: Program)
    | Schedule(body: Program)
    | HostThread(body: Program)
    | Throw
    | Catch(body: Program)

  /** A callback the runtime has been given, with the frame it was wrapped in. */
  datatype Task = Task(frame: Frame, body: Program)

  /** What the program has observed. */
  datatype Entry = Got(als: Storage, value: JsValue) | Ids(id: nat, trigger: nat)

  /** Everything but the current frame. */
  datatype World = World(
    defaults: map<Storage, JsValue>,
    nextId: nat,
    disabled: set<Storage>,
    snapshots: map<nat, Store>,
    resources: map<nat, Frame>,
    pending: seq<Task>,
    log: seq<Entry>)

  // ---- the reference semantics: frames are passed explicitly ----

  datatype Outcome = Outcome(frame: Frame, world: World, threw: bool)

  function Lookup(als: Storage, store: Store, w: World): JsValue {
    if als in w.disabled then Undefined
    else if als in store then store[als]
    else if als in w.defaults then w.defaults[als]
    else Undefined
  }

  function Eval(p: Program, f: Frame, w: World): (o: Outcome)
    decreases p, 0
  {
    match p
    case Done => Outcome(f, w, false)
    case Then(first, rest) =>
      var o := EvalCommand(first, f, w);
      if o.threw then o else Eval(rest, o.frame, o.world)
  }

  /** A body runs in the frame it is given; the surrounding code keeps its own. */
  function Inside(body: Program, inner: Frame, f: Frame, w: World): (o: Outcome)
    decreases body, 1
  {
    var r := Eval(body, inner, w);
    Outcome(f, r.world, r.threw)
  }

  /** Work of a host thread: in the root context while the VM thread is parked, else in the frame it interrupts. */
  function HostFrame(parked: bool, id: nat, f: Frame): Frame {
    if parked then Frame(id, 1, map[]) else Frame(id, f.id, f.store)
  }

  function HostWork(body: Program, parked: bool, f: Frame, w: World): World {
    var id := w.nextId + 1;
    w.(nextId := id, pending := w.pending + [Task(HostFrame(parked, id, f), body)])
  }

  function EvalCommand(c: Command, f: Frame, w: World): (o: Outcome)
    decreases c, 0
  {
    match c
    case GetStore(als) => Outcome(f, w.(log := w.log + [Got(als, Lookup(als, f.store, w))]), false)
    case GetIds => Outcome(f, w.(log := w.log + [Ids(f.id, f.trigger)]), false)
    case Run(als, value, body) => Inside(body, f.(store := f.store[als := value]), f, w.(disabled := w.disabled - {als}))
    case Exit(als, body) => Inside(body, f.(store := f.store[als := Undefined]), f, w.(disabled := w.disabled - {als}))
    case EnterWith(als, value) => Outcome(f.(store := f.store[als := value]), w.(disabled := w.disabled - {als}), false)
    case Disable(als) => Outcome(f.(store := f.store - {als}), w.(disabled := w.disabled + {als}), false)
    case TakeSnapshot(slot) => Outcome(f, w.(snapshots := w.snapshots[slot := f.store]), false)
    case RunSnapshot(slot, body) =>
      if slot !in w.snapshots then Outcome(f, w, true)
      else Inside(body, f.(store := w.snapshots[slot]), f, w)
    case NewResource(slot) =>
      var id := w.nextId + 1;
      Outcome(f, w.(nextId := id, resources := w.resources[slot := Frame(id, f.id, f.store)]), false)
    case RunInAsyncScope(slot, body) =>
      if slot !in w.resources then Outcome(f, w, true)
      else Inside(body, w.resources[slot], f, w)
    case Schedule(body) =>
      var id := w.nextId + 1;
      Outcome(f, w.(nextId := id, pending := w.pending + [Task(Frame(id, f.id, f.store), body)]), false)
    case HostThread(body) => Outcome(f, HostWork(body, false, f, w), false)
    case Throw => Outcome(f, w, true)
    case Catch(body) =>
      var r := Eval(body, f, w);
      Outcome(r.frame, r.world, false)
  }

  /**
    * One turn of the event loop: a pending callback runs; the loop waits, and meanwhile host threads schedule work; or a
    * host thread schedules work while the loop itself is busy.
    */
  datatype Turn = RunTask(index: nat) | Wait(bodies: seq<Program>) | Interrupt(body: Program)

  function Take(pending: seq<Task>, i: nat): seq<Task>
    requires i < |pending|
  {
    pending[..i] + pending[i + 1..]
  }

  /** f is the frame of the loop itself. */
  function EvalTurn(t: Turn, f: Frame, w: World): World {
    match t
    case RunTask(i) =>
      if i >= |w.pending| then w
      else Eval(w.pending[i].body, w.pending[i].frame, w.(pending := Take(w.pending, i))).world
    case Wait(bodies) => EvalWait(bodies, f, w)
    case Interrupt(body) => HostWork(body, false, f, w)
  }

  function EvalWait(bodies: seq<Program>, f: Frame, w: World): World {
    if bodies == [] then w
    else HostWork(bodies[|bodies| - 1], true, f, EvalWait(bodies[..|bodies| - 1], f, w))
  }

  /** Any order of callbacks and waits: turns lists what the loop does. The frame of the loop itself never changes. */
  function EvalLoop(turns: seq<Turn>, f: Frame, w: World): World
    decreases |turns|
  {
    if turns == [] then w
    else EvalTurn(turns[|turns| - 1], f, EvalLoop(turns[..|turns| - 1], f, w))
  }

  // ---- the machine: one current frame, swapped and restored ----

  class Runtime {
    const defaults: map<Storage, JsValue>
    var cur: Frame
    var nextId: nat
    var disabled: set<Storage>
    var snapshots: map<nat, Store>
    var resources: map<nat, Frame>
    var pending: seq<Task>
    var log: seq<Entry>
    var parked: bool

    function TheWorld(): World
      reads this
    {
      World(defaults, nextId, disabled, snapshots, resources, pending, log)
    }

    constructor (defaults: map<Storage, JsValue>)
      ensures cur == Frame(1, 0, map[]) && !parked
      ensures TheWorld() == World(defaults, 1, {}, map[], map[], [], [])
    {
      this.defaults := defaults;
      cur, nextId := Frame(1, 0, map[]), 1;
      disabled, snapshots, resources, pending, log, parked := {}, map[], map[], [], [], false;
    }

    /** setStore: frames are immutable, so a changed copy becomes current. */
    method SetStore(store: Store)
      modifies this`cur
      ensures cur == old(cur).(store := store)
    {
      cur := cur.(store := store);
    }

    /** wrap: the frame in which a scheduled callback will run. */
    method Wrap(body: Program) returns (t: Task)
      modifies this`nextId
      ensures nextId == old(nextId) + 1
      ensures t == Task(HostFrame(parked, nextId, cur), body)
    {
      var store, trigger := cur.store, cur.id;
      if parked {
        store, trigger := map[], 1;
      }
      nextId := nextId + 1;
      t := Task(Frame(nextId, trigger, store), body);
    }

    method Exec(p: Program) returns (threw: bool)
      requires !parked
      modifies this
      ensures !parked
      ensures Outcome(cur, TheWorld(), threw) == Eval(p, old(cur), old(TheWorld()))
      decreases p, 0
    {
      match p
      case Done =>
        threw := false;
      case Then(first, rest) =>
        threw := ExecCommand(first);
        if !threw {
          threw := Exec(rest);
        }
    }

    /** AsyncLocalStorage.run: install a changed store, call, and put the previous store back whatever happens. */
    method RunWith(als: Storage, value: JsValue, body: Program) returns (threw: bool)
      requires !parked
      modifies this
      ensures !parked
      ensures Outcome(cur, TheWorld(), threw) == EvalCommand(Run(als, value, body), old(cur), old(TheWorld()))
      decreases body, 1
    {
      disabled := disabled - {als};
      var prev := cur.store;
      SetStore(prev[als := value]);
      FrameKept(body, cur, TheWorld());
      threw := Exec(body);
      SetStore(prev);
    }

    /** A function made by AsyncLocalStorage.snapshot: the captured store is current for the call. */
    method RestoreSnapshot(slot: nat, body: Program) returns (threw: bool)
      requires !parked
      modifies this
      ensures !parked
      ensures Outcome(cur, TheWorld(), threw) == EvalCommand(RunSnapshot(slot, body), old(cur), old(TheWorld()))
      decreases body, 1
    {
      if slot !in snapshots {
        return true;
      }
      var prev := cur.store;
      SetStore(snapshots[slot]);
      FrameKept(body, cur, TheWorld());
      threw := Exec(body);
      SetStore(prev);
    }

    /** AsyncResource.runInAsyncScope: the frame of the resource is current for the call. */
    method EnterResource(slot: nat, body: Program) returns (threw: bool)
      requires !parked
      modifies this
      ensures !parked
      ensures Outcome(cur, TheWorld(), threw) == EvalCommand(RunInAsyncScope(slot, body), old(cur), old(TheWorld()))
      decreases body, 1
    {
      if slot !in resources {
        return true;
      }
      var prev := cur;
      cur := resources[slot];
      threw := Exec(body);
      cur := prev;
    }

    method ExecCommand(c: Command) returns (threw: bool)
      requires !parked
      modifies this
      ensures !parked
      ensures Outcome(cur, TheWorld(), threw) == EvalCommand(c, old(cur), old(TheWorld()))
      decreases c, 0
    {
      threw := false;
      match c
      case GetStore(als) =>
        var value := Undefined;
        if als !in disabled {
          if als in cur.store {
            value := cur.store[als];
          } else if als in defaults {
            value := defaults[als];
          }
        }
        log := log + [Got(als, value)];
      case GetIds =>
        log := log + [Ids(cur.id, cur.trigger)];
      case Run(als, value, body) =>
        threw := RunWith(als, value, body);
      case Exit(als, body) =>
        threw := RunWith(als, Undefined, body);
      case EnterWith(als, value) =>
        disabled := disabled - {als};
        SetStore(cur.store[als := value]);
      case Disable(als) =>
        disabled := disabled + {als};
        if als in cur.store {
          SetStore(cur.store - {als});
        } else {
          assert cur.store - {als} == cur.store;
        }
      case TakeSnapshot(slot) =>
        snapshots := snapshots[slot := cur.store];
      case RunSnapshot(slot, body) =>
        threw := RestoreSnapshot(slot, body);
      case NewResource(slot) =>
        nextId := nextId + 1;
        resources := resources[slot := Frame(nextId, cur.id, cur.store)];
      case RunInAsyncScope(slot, body) =>
        threw := EnterResource(slot, body);
      case Schedule(body) =>
        var t := Wrap(body);
        pending := pending + [t];
      case HostThread(body) =>
        var t := Wrap(body);
        pending := pending + [t];
      case Throw =>
        threw := true;
      case Catch(body) =>
        threw := Exec(body);
        threw := false;
    }

    /** A wrapped callback: its frame becomes current for the call. */
    method RunPending(i: nat)
      requires !parked && i < |pending|
      modifies this
      ensures !parked && cur == old(cur)
      ensures TheWorld() == EvalTurn(RunTask(i), cur, old(TheWorld()))
    {
      var task := pending[i];
      pending := Take(pending, i);
      var prev := cur;
      cur := task.frame;
      var threw := Exec(task.body);
      cur := prev;
    }

    /** WaitForIdleProgress and WaitForExternalOp: the VM thread is parked while host threads schedule work. */
    method WaitParked(bodies: seq<Program>)
      requires !parked
      modifies this
      ensures !parked && cur == old(cur)
      ensures TheWorld() == EvalTurn(Wait(bodies), cur, old(TheWorld()))
    {
      parked := true;
      for k := 0 to |bodies|
        invariant parked && cur == old(cur)
        invariant TheWorld() == EvalWait(bodies[..k], cur, old(TheWorld()))
      {
        assert bodies[..k + 1][..k] == bodies[..k];
        var t := Wrap(bodies[k]);
        pending := pending + [t];
      }
      assert bodies[..|bodies|] == bodies;
      parked := false;
    }

    /** The event loop over any choice of turns: it computes what the reference loop computes. */
    method Loop(turns: seq<Turn>)
      requires !parked
      modifies this
      ensures !parked && cur == old(cur)
      ensures TheWorld() == EvalLoop(turns, cur, old(TheWorld()))
    {
      for n := 0 to |turns|
        invariant !parked && cur == old(cur)
        invariant TheWorld() == EvalLoop(turns[..n], cur, old(TheWorld()))
      {
        assert turns[..n + 1][..n] == turns[..n];
        match turns[n] {
          case RunTask(i) =>
            if i < |pending| {
              RunPending(i);
            }
          case Wait(bodies) =>
            WaitParked(bodies);
          case Interrupt(body) =>
            var t := Wrap(body);
            pending := pending + [t];
        }
      }
      assert turns[..|turns|] == turns;
    }
  }

  // ---- laws of the context ----

  /** Code keeps its ids: only the store of its frame can change. */
  lemma {:induction false} FrameKept(p: Program, f: Frame, w: World)
    ensures Eval(p, f, w).frame.id == f.id && Eval(p, f, w).frame.trigger == f.trigger
    decreases p
  {
    if p.Then? {
      var o := EvalCommand(p.first, f, w);
      CommandKept(p.first, f, w);
      if !o.threw {
        FrameKept(p.rest, o.frame, o.world);
      }
    }
  }

  lemma {:induction false} CommandKept(c: Command, f: Frame, w: World)
    ensures EvalCommand(c, f, w).frame.id == f.id && EvalCommand(c, f, w).frame.trigger == f.trigger
    decreases c
  {
    if c.Catch? {
      FrameKept(c.body, f, w);
    }
  }

  /** The storages that a program changes for the code after it: not those changed inside nested scopes or callbacks. */
  function ScopeWrites(p: Program): set<Storage>
    decreases p
  {
    match p
    case Done => {}
    case Then(first, rest) => CommandWrites(first) + ScopeWrites(rest)
  }

  function CommandWrites(c: Command): set<Storage>
    decreases c
  {
    match c
    case EnterWith(als, _) => {als}
    case Disable(als) => {als}
    case Catch(body) => ScopeWrites(body)
    case _ => {}
  }

  ghost predicate SameAt(a: Store, b: Store, als: Storage) {
    (als in a <==> als in b) && (als in a ==> a[als] == b[als])
  }

  /** enterWith reaches only the rest of its own scope: whatever nested scopes and callbacks do is undone on return. */
  lemma {:induction false} OnlyScopeWrites(p: Program, f: Frame, w: World, als: Storage)
    requires als !in ScopeWrites(p)
    ensures SameAt(Eval(p, f, w).frame.store, f.store, als)
    decreases p
  {
    if p.Then? {
      var o := EvalCommand(p.first, f, w);
      OnlyCommandWrites(p.first, f, w, als);
      if !o.threw {
        OnlyScopeWrites(p.rest, o.frame, o.world, als);
      }
    }
  }

  lemma {:induction false} OnlyCommandWrites(c: Command, f: Frame, w: World, als: Storage)
    requires als !in CommandWrites(c)
    ensures SameAt(EvalCommand(c, f, w).frame.store, f.store, als)
    decreases c
  {
    if c.Catch? {
      OnlyScopeWrites(c.body, f, w, als);
    }
  }

  /** What has been scheduled keeps its place and its captured frame while any code runs. */
  lemma {:induction false} OnlyAppends(p: Program, f: Frame, w: World)
    ensures w.pending <= Eval(p, f, w).world.pending
    decreases p, 0
  {
    if p.Then? {
      var o := EvalCommand(p.first, f, w);
      CommandAppends(p.first, f, w);
      if !o.threw {
        OnlyAppends(p.rest, o.frame, o.world);
      }
    }
  }

  lemma {:induction false} CommandAppends(c: Command, f: Frame, w: World)
    ensures w.pending <= EvalCommand(c, f, w).world.pending
    decreases c, 0
  {
    match c
    case Run(als, value, body) =>
      OnlyAppends(body, f.(store := f.store[als := value]), w.(disabled := w.disabled - {als}));
    case Exit(als, body) =>
      OnlyAppends(body, f.(store := f.store[als := Undefined]), w.(disabled := w.disabled - {als}));
    case RunSnapshot(slot, body) =>
      if slot in w.snapshots {
        OnlyAppends(body, f.(store := w.snapshots[slot]), w);
      }
    case RunInAsyncScope(slot, body) =>
      if slot in w.resources {
        OnlyAppends(body, w.resources[slot], w);
      }
    case Catch(body) => OnlyAppends(body, f, w);
    case _ =>
  }

  /** A callback scheduled by code in frame f waits with exactly f's store, whatever the code does to its context afterwards. */
  lemma ScheduledStore(body: Program, after: Program, f: Frame, w: World)
    ensures var o := Eval(Then(Schedule(body), after), f, w);
      && |w.pending| < |o.world.pending|
      && o.world.pending[|w.pending|] == Task(Frame(w.nextId + 1, f.id, f.store), body)
  {
    var o := EvalCommand(Schedule(body), f, w);
    OnlyAppends(after, o.frame, o.world);
    assert o.world.pending[|w.pending|] == Task(Frame(w.nextId + 1, f.id, f.store), body);
  }

  /** Work of a host thread starts in the root context if and only if the VM is parked or runs in that context itself. */
  lemma HostContext(body: Program, parked: bool, f: Frame, w: World)
    ensures var t := HostWork(body, parked, f, w).pending[|w.pending|];
      t.frame.trigger == 1 && t.frame.store == map[] <==> parked || (f.id == 1 && f.store == map[])
  {
    var after := HostWork(body, parked, f, w);
    assert after.pending[|w.pending|] == Task(HostFrame(parked, w.nextId + 1, f), body);
  }

  // ---- ids ----

  /** Every frame in the world was numbered once, and no number above nextId is in use. */
  ghost predicate FreshIds(w: World) {
    && (forall i | 0 <= i < |w.pending| :: 1 < w.pending[i].frame.id <= w.nextId)
    && (forall s | s in w.resources :: 1 < w.resources[s].id <= w.nextId)
    && (forall i, j | 0 <= i < j < |w.pending| :: w.pending[i].frame.id != w.pending[j].frame.id)
    && (forall i, s | 0 <= i < |w.pending| && s in w.resources :: w.pending[i].frame.id != w.resources[s].id)
    && (forall s, t | s in w.resources && t in w.resources && s != t :: w.resources[s].id != w.resources[t].id)
  }

  lemma PendingAdded(w: World, t: Task)
    requires FreshIds(w) && w.nextId >= 1 && t.frame.id == w.nextId + 1
    ensures FreshIds(w.(nextId := w.nextId + 1, pending := w.pending + [t]))
  {
  }

  lemma ResourceAdded(w: World, slot: nat, r: Frame)
    requires FreshIds(w) && w.nextId >= 1 && r.id == w.nextId + 1
    ensures FreshIds(w.(nextId := w.nextId + 1, resources := w.resources[slot := r]))
  {
  }

  lemma TaskTaken(w: World, i: nat)
    requires FreshIds(w) && i < |w.pending|
    ensures FreshIds(w.(pending := Take(w.pending, i)))
  {
    TakeIs(w.pending, i);
    hide Take;
  }

  lemma TakeIs(pending: seq<Task>, i: nat)
    requires i < |pending|
    ensures |Take(pending, i)| == |pending| - 1
    ensures forall k | 0 <= k < |pending| - 1 :: Take(pending, i)[k] == pending[if k < i then k else k + 1]
  {
  }

  lemma SameIds(w: World, w': World)
    requires FreshIds(w) && w'.nextId == w.nextId && w'.pending == w.pending && w'.resources == w.resources
    ensures FreshIds(w')
  {
  }

  lemma {:induction false} EvalFresh(p: Program, f: Frame, w: World)
    requires FreshIds(w) && w.nextId >= 1
    ensures FreshIds(Eval(p, f, w).world) && Eval(p, f, w).world.nextId >= w.nextId
    decreases p, 0
  {
    hide FreshIds, EvalCommand;
    if p.Then? {
      var o := EvalCommand(p.first, f, w);
      CommandFresh(p.first, f, w);
      if !o.threw {
        EvalFresh(p.rest, o.frame, o.world);
      }
    }
  }

  lemma InsideFresh(body: Program, inner: Frame, f: Frame, w: World)
    requires FreshIds(w) && w.nextId >= 1
    ensures FreshIds(Inside(body, inner, f, w).world) && Inside(body, inner, f, w).world.nextId >= w.nextId
    decreases body, 1
  {
    hide FreshIds, Eval;
    EvalFresh(body, inner, w);
  }

  lemma {:induction false} CommandFresh(c: Command, f: Frame, w: World)
    requires FreshIds(w) && w.nextId >= 1
    ensures FreshIds(EvalCommand(c, f, w).world) && EvalCommand(c, f, w).world.nextId >= w.nextId
    decreases c, 0
  {
    hide FreshIds, Eval, Inside;
    match c
    case Run(als, value, body) =>
      SameIds(w, w.(disabled := w.disabled - {als}));
      InsideFresh(body, f.(store := f.store[als := value]), f, w.(disabled := w.disabled - {als}));
    case Exit(als, body) =>
      SameIds(w, w.(disabled := w.disabled - {als}));
      InsideFresh(body, f.(store := f.store[als := Undefined]), f, w.(disabled := w.disabled - {als}));
    case RunSnapshot(slot, body) =>
      if slot in w.snapshots {
        InsideFresh(body, f.(store := w.snapshots[slot]), f, w);
      }
    case RunInAsyncScope(slot, body) =>
      if slot in w.resources {
        InsideFresh(body, w.resources[slot], f, w);
      }
    case Catch(body) => EvalFresh(body, f, w);
    case NewResource(slot) => ResourceAdded(w, slot, Frame(w.nextId + 1, f.id, f.store));
    case Schedule(body) => PendingAdded(w, Task(Frame(w.nextId + 1, f.id, f.store), body));
    case HostThread(body) => PendingAdded(w, Task(HostFrame(false, w.nextId + 1, f), body));
    case _ => SameIds(w, EvalCommand(c, f, w).world);
  }

  lemma {:induction false} WaitFresh(bodies: seq<Program>, f: Frame, w: World)
    requires FreshIds(w) && w.nextId >= 1
    ensures FreshIds(EvalWait(bodies, f, w)) && EvalWait(bodies, f, w).nextId >= w.nextId
    decreases |bodies|
  {
    hide FreshIds;
    if bodies != [] {
      var before := EvalWait(bodies[..|bodies| - 1], f, w);
      WaitFresh(bodies[..|bodies| - 1], f, w);
      PendingAdded(before, Task(HostFrame(true, before.nextId + 1, f), bodies[|bodies| - 1]));
    }
  }

  lemma TurnFresh(t: Turn, f: Frame, w: World)
    requires FreshIds(w) && w.nextId >= 1
    ensures FreshIds(EvalTurn(t, f, w)) && EvalTurn(t, f, w).nextId >= w.nextId
  {
    hide FreshIds, Eval;
    match t
    case RunTask(i) =>
      if i < |w.pending| {
        TaskTaken(w, i);
        EvalFresh(w.pending[i].body, w.pending[i].frame, w.(pending := Take(w.pending, i)));
      }
    case Wait(bodies) => WaitFresh(bodies, f, w);
    case Interrupt(body) => PendingAdded(w, Task(HostFrame(false, w.nextId + 1, f), body));
  }

  /** Over any run of the event loop no two pending callbacks or resources ever share an async id. */
  lemma {:induction false} LoopFresh(turns: seq<Turn>, f: Frame, w: World)
    requires FreshIds(w) && w.nextId >= 1
    ensures FreshIds(EvalLoop(turns, f, w)) && EvalLoop(turns, f, w).nextId >= w.nextId
    decreases |turns|
  {
    hide FreshIds, EvalTurn;
    if turns != [] {
      LoopFresh(turns[..|turns| - 1], f, w);
      TurnFresh(turns[|turns| - 1], f, EvalLoop(turns[..|turns| - 1], f, w));
    }
  }
}
