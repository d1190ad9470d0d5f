/** What code reads from its storages, in every scope: laws of the context that speak of the log only. */
module AsyncReads {
  import opened AsyncContext

  /** What getStore of the storage returns at this point, as the log shows it. */
  function Read(als: Storage, f: Frame, w: World): JsValue {
    var log := EvalCommand(GetStore(als), f, w).world.log;
    if log != [] && log[|log| - 1].Got? then log[|log| - 1].value else Undefined
  }

  /** getStore changes nothing and tells the value of the frame, or the default; of a disabled storage nothing is told. */
  lemma ReadIs(als: Storage, f: Frame, w: World)
    ensures EvalCommand(GetStore(als), f, w) == Outcome(f, w.(log := w.log + [Got(als, Read(als, f, w))]), false)
    ensures als in w.disabled ==> Read(als, f, w) == Undefined
    ensures als !in w.disabled && als in f.store ==> Read(als, f, w) == f.store[als]
    ensures als !in w.disabled && als !in f.store ==>
      Read(als, f, w) == if als in w.defaults then w.defaults[als] else Undefined
  {
  }

  // ---- the log only grows ----

  lemma {:induction false} LogGrows(p: Program, f: Frame, w: World)
    ensures w.log <= Eval(p, f, w).world.log
    decreases p, 0
  {
    if p.Then? {
      var o := EvalCommand(p.first, f, w);
      CommandLogs(p.first, f, w);
      if !o.threw {
        LogGrows(p.rest, o.frame, o.world);
      }
    }
  }

  lemma {:induction false} CommandLogs(c: Command, f: Frame, w: World)
    ensures w.log <= EvalCommand(c, f, w).world.log
    decreases c, 0
  {
    match c
    case Run(als, value, body) =>
      LogGrows(body, f.(store := f.store[als := value]), w.(disabled := w.disabled - {als}));
    case Exit(als, body) =>
      LogGrows(body, f.(store := f.store[als := Undefined]), w.(disabled := w.disabled - {als}));
    case RunSnapshot(slot, body) =>
      if slot in w.snapshots {
        LogGrows(body, f.(store := w.snapshots[slot]), w);
      }
    case RunInAsyncScope(slot, body) =>
      if slot in w.resources {
        LogGrows(body, w.resources[slot], w);
      }
    case Catch(body) => LogGrows(body, f, w);
    case _ =>
  }

  /** Code that begins with a getStore logs what it reads there first. */
  lemma FirstRead(als: Storage, rest: Program, f: Frame, w: World)
    ensures w.log + [Got(als, Read(als, f, w))] <= Eval(Then(GetStore(als), rest), f, w).world.log
  {
    var o := EvalCommand(GetStore(als), f, w);
    LogGrows(rest, o.frame, o.world);
  }

  lemma InTurn(c: Command, rest: Program, f: Frame, w: World)
    ensures var o := EvalCommand(c, f, w);
      Eval(Then(c, rest), f, w) == if o.threw then o else Eval(rest, o.frame, o.world)
  {
    hide EvalCommand;
  }

  lemma IdsThenRead(b: Storage, rest: Program, f: Frame, w: World)
    ensures var p := Then(GetIds, Then(GetStore(b), rest));
      w.log + [Ids(f.id, f.trigger)] + [Got(b, Read(b, f, w))] <= Eval(p, f, w).world.log
  {
    var noted := w.(log := w.log + [Ids(f.id, f.trigger)]);
    assert EvalCommand(GetIds, f, w) == Outcome(f, noted, false);
    assert Read(b, f, noted) == Read(b, f, w) by {
      ReadIs(b, f, w);
      ReadIs(b, f, noted);
    }
    hide EvalCommand, Eval, Read;
    InTurn(GetIds, Then(GetStore(b), rest), f, w);
    FirstRead(b, rest, f, noted);
  }

  // ---- run, exit and enterWith ----

  /** Inside run the storage has the value given, and every other storage the value it has outside. */
  lemma RunReads(als: Storage, value: JsValue, b: Storage, rest: Program, f: Frame, w: World)
    ensures var log := EvalCommand(Run(als, value, Then(GetStore(b), rest)), f, w).world.log;
      w.log + [Got(b, if b == als then value else Read(b, f, w))] <= log
  {
    FirstRead(b, rest, f.(store := f.store[als := value]), w.(disabled := w.disabled - {als}));
  }

  /** Inside exit the storage is undefined, and every other storage has the value it has outside. */
  lemma ExitReads(als: Storage, b: Storage, rest: Program, f: Frame, w: World)
    ensures var log := EvalCommand(Exit(als, Then(GetStore(b), rest)), f, w).world.log;
      w.log + [Got(b, if b == als then Undefined else Read(b, f, w))] <= log
  {
    FirstRead(b, rest, f.(store := f.store[als := Undefined]), w.(disabled := w.disabled - {als}));
  }

  /** After enterWith the storage has the value given, and every other storage the one it had. */
  lemma EnterWithReads(als: Storage, value: JsValue, b: Storage, rest: Program, f: Frame, w: World)
    ensures var log := Eval(Then(EnterWith(als, value), Then(GetStore(b), rest)), f, w).world.log;
      w.log + [Got(b, if b == als then value else Read(b, f, w))] <= log
  {
    FirstRead(b, rest, f.(store := f.store[als := value]), w.(disabled := w.disabled - {als}));
  }

  /** After disable the storage is undefined, and every other storage has the value it had. */
  lemma DisableReads(als: Storage, b: Storage, rest: Program, f: Frame, w: World)
    ensures var log := Eval(Then(Disable(als), Then(GetStore(b), rest)), f, w).world.log;
      w.log + [Got(b, if b == als then Undefined else Read(b, f, w))] <= log
  {
    FirstRead(b, rest, f.(store := f.store - {als}), w.(disabled := w.disabled + {als}));
  }

  /** Nested run calls of different storages: a.run(x, () => b.run(y, () => a.getStore())) reads x. */
  lemma NestedRuns(a: Storage, x: JsValue, b: Storage, y: JsValue, f: Frame, w: World)
    requires a != b
    ensures w.log + [Got(a, x)] <= EvalCommand(Run(a, x, Then(Run(b, y, Then(GetStore(a), Done)), Done)), f, w).world.log
  {
    var outer := f.(store := f.store[a := x]);
    var w1 := w.(disabled := w.disabled - {a});
    var body := Then(GetStore(a), Done);
    RunReads(b, y, a, Done, outer, w1);
    ReadIs(a, outer, w1);
    InTurn(Run(b, y, body), Done, outer, w1);
    var o := EvalCommand(Run(b, y, body), outer, w1);
    LogGrows(Done, o.frame, o.world);
    hide Eval, Read;
  }

  // ---- snapshots and resources ----

  /** Code in which this snapshot variable, or this resource variable, is assigned. */
  predicate Assigns(p: Program, slot: nat, resource: bool)
    decreases p
  {
    match p
    case Done => false
    case Then(first, rest) => CommandAssigns(first, slot, resource) || Assigns(rest, slot, resource)
  }

  predicate CommandAssigns(c: Command, slot: nat, resource: bool)
    decreases c
  {
    match c
    case TakeSnapshot(s) => !resource && s == slot
    case NewResource(s) => resource && s == slot
    case Run(_, _, body) => Assigns(body, slot, resource)
    case Exit(_, body) => Assigns(body, slot, resource)
    case RunSnapshot(_, body) => Assigns(body, slot, resource)
    case RunInAsyncScope(_, body) => Assigns(body, slot, resource)
    case Catch(body) => Assigns(body, slot, resource)
    case _ => false
  }

  ghost predicate KeepsSlot(w: World, w': World, slot: nat, resource: bool) {
    && (resource && slot in w.resources ==> slot in w'.resources && w'.resources[slot] == w.resources[slot])
    && (!resource && slot in w.snapshots ==> slot in w'.snapshots && w'.snapshots[slot] == w.snapshots[slot])
    && w'.defaults == w.defaults
  }

  lemma {:induction false} SlotKept(p: Program, f: Frame, w: World, slot: nat, resource: bool)
    requires !Assigns(p, slot, resource)
    ensures KeepsSlot(w, Eval(p, f, w).world, slot, resource)
    decreases p, 0
  {
    if p.Then? {
      var o := EvalCommand(p.first, f, w);
      CommandKeepsSlot(p.first, f, w, slot, resource);
      if !o.threw {
        SlotKept(p.rest, o.frame, o.world, slot, resource);
      }
    }
  }

  lemma {:induction false} CommandKeepsSlot(c: Command, f: Frame, w: World, slot: nat, resource: bool)
    requires !CommandAssigns(c, slot, resource)
    ensures KeepsSlot(w, EvalCommand(c, f, w).world, slot, resource)
    decreases c, 0
  {
    match c
    case Run(als, value, body) =>
      SlotKept(body, f.(store := f.store[als := value]), w.(disabled := w.disabled - {als}), slot, resource);
    case Exit(als, body) =>
      SlotKept(body, f.(store := f.store[als := Undefined]), w.(disabled := w.disabled - {als}), slot, resource);
    case RunSnapshot(s, body) =>
      if s in w.snapshots {
        SlotKept(body, f.(store := w.snapshots[s]), w, slot, resource);
      }
    case RunInAsyncScope(s, body) =>
      if s in w.resources {
        SlotKept(body, w.resources[s], w, slot, resource);
      }
    case Catch(body) => SlotKept(body, f, w, slot, resource);
    case _ =>
  }

  /**
    * A snapshot, called anywhere later while its variable still holds it: every storage reads what it read when the
    * snapshot was taken, unless it has been disabled since, or was then.
    */
  lemma SnapshotReads(slot: nat, between: Program, b: Storage, rest: Program, f: Frame, w: World, f': Frame)
    requires !Assigns(between, slot, false)
    ensures var taken := EvalCommand(TakeSnapshot(slot), f, w);
      var later := Eval(between, taken.frame, taken.world).world;
      var log := EvalCommand(RunSnapshot(slot, Then(GetStore(b), rest)), f', later).world.log;
      && (b in later.disabled ==> later.log + [Got(b, Undefined)] <= log)
      && (b !in later.disabled && b !in w.disabled ==> later.log + [Got(b, Read(b, f, w))] <= log)
  {
    var taken := EvalCommand(TakeSnapshot(slot), f, w);
    SlotKept(between, taken.frame, taken.world, slot, false);
    var later := Eval(between, taken.frame, taken.world).world;
    FirstRead(b, rest, f'.(store := f.store), later);
    ReadIs(b, f, w);
    ReadIs(b, f'.(store := f.store), later);
  }

  /** The same for the scope of a resource, whose code also sees the id of the resource and of the code that made it. */
  lemma ResourceReads(slot: nat, between: Program, b: Storage, rest: Program, f: Frame, w: World, f': Frame)
    requires !Assigns(between, slot, true)
    ensures var made := EvalCommand(NewResource(slot), f, w);
      var later := Eval(between, made.frame, made.world).world;
      var log := EvalCommand(RunInAsyncScope(slot, Then(GetIds, Then(GetStore(b), rest))), f', later).world.log;
      var ids := later.log + [Ids(w.nextId + 1, f.id)];
      && (b in later.disabled ==> ids + [Got(b, Undefined)] <= log)
      && (b !in later.disabled && b !in w.disabled ==> ids + [Got(b, Read(b, f, w))] <= log)
  {
    var made := EvalCommand(NewResource(slot), f, w);
    SlotKept(between, made.frame, made.world, slot, true);
    var later := Eval(between, made.frame, made.world).world;
    var inner := Frame(w.nextId + 1, f.id, f.store);
    ReadIs(b, f, w);
    ReadIs(b, inner, later);
    IdsThenRead(b, rest, inner, later);
  }

  // ---- callbacks ----

  /** A callback reads, for every storage that is not disabled, what the code that scheduled it read. */
  lemma CallbackReads(b: Storage, rest: Program, f: Frame, w: World, after: Program, i: nat, loop: Frame, w': World)
    requires i < |w'.pending| && w'.defaults == w.defaults
    requires var o := EvalCommand(Schedule(Then(GetIds, Then(GetStore(b), rest))), f, w);
      |o.world.pending| == |w.pending| + 1 && w'.pending[i] == o.world.pending[|w.pending|]
    ensures var ids := w'.log + [Ids(w.nextId + 1, f.id)];
      var log := EvalTurn(RunTask(i), loop, w').log;
      && (b in w'.disabled ==> ids + [Got(b, Undefined)] <= log)
      && (b !in w'.disabled && b !in w.disabled ==> ids + [Got(b, Read(b, f, w))] <= log)
  {
    var inner := Frame(w.nextId + 1, f.id, f.store);
    var begun := w'.(pending := Take(w'.pending, i));
    ReadIs(b, f, w);
    ReadIs(b, inner, begun);
    assert w'.pending[i] == Task(inner, Then(GetIds, Then(GetStore(b), rest)));
    hide Eval, EvalCommand, Read, Take;
    IdsThenRead(b, rest, inner, begun);
  }

  /** Work that host threads schedule while the VM is parked queues up in order, each with a new id and the root context. */
  lemma {:induction false} WaitQueues(bodies: seq<Program>, f: Frame, w: World)
    ensures var after := EvalTurn(Wait(bodies), f, w);
      && after.nextId == w.nextId + |bodies| && after.log == w.log
      && |after.pending| == |w.pending| + |bodies| && w.pending <= after.pending
      && forall k | 0 <= k < |bodies| :: after.pending[|w.pending| + k] == Task(Frame(w.nextId + 1 + k, 1, map[]), bodies[k])
    decreases |bodies|
  {
    if bodies != [] {
      WaitQueues(bodies[..|bodies| - 1], f, w);
    }
  }

  // ---- exceptions ----

  /** What stands behind a throw does not run; behind a catch the program goes on, with the context the code has left. */
  lemma ThrowStops(body: Program, rest: Program, f: Frame, w: World)
    ensures Eval(Then(Throw, rest), f, w) == Outcome(f, w, true)
    ensures var o := Eval(body, f, w);
      Eval(Then(Catch(body), rest), f, w) == Eval(rest, o.frame, o.world)
  {
    var o := Eval(body, f, w);
    assert EvalCommand(Throw, f, w) == Outcome(f, w, true);
    assert EvalCommand(Catch(body), f, w) == Outcome(o.frame, o.world, false);
    hide Eval, EvalCommand;
    InTurn(Throw, rest, f, w);
    InTurn(Catch(body), rest, f, w);
  }

  /** A throw in a scope leaves it, and the code outside, with its own frame. */
  lemma ScopesPassThrows(c: Command, f: Frame, w: World)
    requires c.Run? || c.Exit? || c.RunSnapshot? || c.RunInAsyncScope?
    ensures EvalCommand(c, f, w).frame == f
    ensures c.body == Then(Throw, Done) ==> EvalCommand(c, f, w).threw
  {
  }
}
