/** The async iterator of events.on(): events queue up for next(), or next() calls queue up for events. */
module EventIterator {
  import opened Wrappers

  /** The state of the promise returned by one call of next(). */
  datatype Outcome<+V, +E> = Pending | Yielded(value: V) | Rejected(error: E) | Finished

  /**
    * Calls of the iterator, and emissions of the emitter. An emission calls the listeners that are on when it begins, so
    * the iterator's handler is called even if it has been taken off meanwhile; before is what the listeners in front of
    * it do. What those behind it do are steps of their own.
    */
  datatype Step<V, E> =
    | Emit(value: V, before: Script<V, E>)
    | EmitError(error: E, before: Script<V, E>)
    | EmitClose(name: nat, before: Script<V, E>)
    | CallNext
    | CallReturn
    | CallThrow(error: E)

  datatype Script<V, E> = Done | Then(first: Step<V, E>, rest: Script<V, E>)

  // ---- what a script does to an iterator whose listeners are on, with so many close events ----

  /** It takes the listeners off. */
  predicate Ends<V, E>(script: Script<V, E>, closes: nat) {
    script.Then? && (EndsStep(script.first, closes) || Ends(script.rest, closes))
  }

  predicate EndsStep<V, E>(step: Step<V, E>, closes: nat) {
    match step
    case Emit(_, before) => Ends(before, closes)
    case EmitError(_, _) => true
    case EmitClose(name, before) => name < closes || Ends(before, closes)
    case CallNext => false
    case CallReturn => true
    case CallThrow(_) => true
  }

  /** The events that reach the iterator: those whose emission began while the listeners were on. */
  function Reaching<V, E>(script: Script<V, E>, closes: nat): seq<V> {
    if script.Done? then []
    else ReachingStep(script.first, closes) + if EndsStep(script.first, closes) then [] else Reaching(script.rest, closes)
  }

  function ReachingStep<V, E>(step: Step<V, E>, closes: nat): seq<V> {
    match step
    case Emit(v, before) => Reaching(before, closes) + [v]
    case EmitError(_, before) => Reaching(before, closes)
    case EmitClose(_, before) => Reaching(before, closes)
    case _ => []
  }

  /** One of these events comes when a listener in front has already ended the iteration. */
  predicate Late<V, E>(script: Script<V, E>, closes: nat) {
    script.Then? && (LateStep(script.first, closes) || (!EndsStep(script.first, closes) && Late(script.rest, closes)))
  }

  predicate LateStep<V, E>(step: Step<V, E>, closes: nat) {
    match step
    case Emit(_, before) => Ends(before, closes)
    case EmitError(_, before) => Late(before, closes)
    case EmitClose(_, before) => Late(before, closes)
    case _ => false
  }

  /** Where an event is late the iteration ends. */
  lemma {:induction false} LateEnds<V, E>(script: Script<V, E>, closes: nat)
    ensures Late(script, closes) ==> Ends(script, closes)
  {
    if script.Then? {
      if script.first.EmitClose? {
        LateEnds(script.first.before, closes);
      }
      assert LateStep(script.first, closes) ==> EndsStep(script.first, closes);
      LateEnds(script.rest, closes);
    }
  }

  /** All steps in the order in which they are over: what the listeners in front do comes before the emission. */
  function Flat<V, E>(script: Script<V, E>): seq<Step<V, E>> {
    if script.Done? then [] else FlatStep(script.first) + Flat(script.rest)
  }

  function FlatStep<V, E>(step: Step<V, E>): seq<Step<V, E>> {
    match step
    case Emit(_, before) => Flat(before) + [step]
    case EmitError(_, before) => Flat(before) + [step]
    case EmitClose(_, before) => Flat(before) + [step]
    case _ => [step]
  }

  /** return(), throw(), an error and a close event end an iteration. */
  predicate Ending<V, E>(step: Step<V, E>, closes: nat) {
    step.CallReturn? || step.CallThrow? || step.EmitError? || (step.EmitClose? && step.name < closes)
  }

  /** The events among the steps. */
  function Events<V, E>(steps: seq<Step<V, E>>): seq<V> {
    if steps == [] then []
    else Events(steps[..|steps| - 1]) + if steps[|steps| - 1].Emit? then [steps[|steps| - 1].value] else []
  }

  lemma {:induction false} EventsConcat<V, E>(a: seq<Step<V, E>>, b: seq<Step<V, E>>)
    ensures Events(a + b) == Events(a) + Events(b)
    decreases |b|
  {
    if b == [] {
      assert a + b == a && Events(a) + [] == Events(a);
    } else {
      var last := b[|b| - 1];
      EventsConcat(a, b[..|b| - 1]);
      assert (a + b)[..|a + b| - 1] == a + b[..|b| - 1] && (a + b)[|a + b| - 1] == last;
      var e := if last.Emit? then [last.value] else [];
      assert (Events(a) + Events(b[..|b| - 1])) + e == Events(a) + (Events(b[..|b| - 1]) + e);
    }
  }

  lemma EventsOne<V, E>(step: Step<V, E>)
    ensures Events([step]) == if step.Emit? then [step.value] else []
  {
    assert [step][..0] == [];
  }

  /** Code takes the listeners off exactly if one of its steps, however deep, ends an iteration. */
  lemma {:induction false} EndsExactly<V, E>(script: Script<V, E>, closes: nat)
    ensures Ends(script, closes) <==> exists s | s in Flat(script) :: Ending(s, closes)
    decreases script
  {
    if script.Then? {
      StepEndsExactly(script.first, closes);
      EndsExactly(script.rest, closes);
      EndingConcat(FlatStep(script.first), Flat(script.rest), closes);
    }
  }

  lemma {:induction false} StepEndsExactly<V, E>(step: Step<V, E>, closes: nat)
    ensures EndsStep(step, closes) <==> exists s | s in FlatStep(step) :: Ending(s, closes)
    decreases step
  {
    EndingOne(step, closes);
    if step.Emit? || step.EmitError? || step.EmitClose? {
      EndsExactly(step.before, closes);
      EndingConcat(Flat(step.before), [step], closes);
    }
  }

  lemma EndingOne<V, E>(step: Step<V, E>, closes: nat)
    ensures (exists s | s in [step] :: Ending(s, closes)) <==> Ending(step, closes)
  {
    hide Ending;
    assert step in [step];
  }

  lemma EndingConcat<V, E>(a: seq<Step<V, E>>, b: seq<Step<V, E>>, closes: nat)
    ensures (exists s | s in a + b :: Ending(s, closes))
      <==> (exists s | s in a :: Ending(s, closes)) || (exists s | s in b :: Ending(s, closes))
  {
    hide Ending;
    forall s | s in a || s in b
      ensures s in a + b
    {
    }
  }

  /** Without an ending every event reaches the iterator, in the order of the emissions, and none is late. */
  lemma {:induction false} AllReach<V, E>(script: Script<V, E>, closes: nat)
    requires !Ends(script, closes)
    ensures Reaching(script, closes) == Events(Flat(script)) && !Late(script, closes)
    decreases script
  {
    if script.Then? {
      StepReaches(script.first, closes);
      AllReach(script.rest, closes);
      EventsConcat(FlatStep(script.first), Flat(script.rest));
    }
  }

  lemma {:induction false} StepReaches<V, E>(step: Step<V, E>, closes: nat)
    requires !EndsStep(step, closes)
    ensures ReachingStep(step, closes) == Events(FlatStep(step)) && !LateStep(step, closes)
    decreases step
  {
    EventsOne(step);
    if step.Emit? || step.EmitClose? {
      AllReach(step.before, closes);
      EventsConcat(Flat(step.before), [step]);
      assert Events(Flat(step.before)) + [] == Events(Flat(step.before));
    }
  }

  /** What comes behind a step that ends the iteration reaches it no more. */
  lemma NothingReachesBehind<V, E>(step: Step<V, E>, rest: Script<V, E>, closes: nat)
    requires EndsStep(step, closes)
    ensures Reaching(Then(step, rest), closes) == Reaching(Then(step, Done), closes)
    ensures step.Emit? ==>
      var reaching := Reaching(Then(step, rest), closes);
      reaching != [] && reaching[|reaching| - 1] == step.value && Late(Then(step, rest), closes)
  {
  }

  /** The errors that it emits or throws. */
  predicate Raises<V, E(==)>(script: Script<V, E>, e: E) {
    script.Then? && (RaisesStep(script.first, e) || Raises(script.rest, e))
  }

  predicate RaisesStep<V, E(==)>(step: Step<V, E>, e: E) {
    match step
    case Emit(_, before) => Raises(before, e)
    case EmitError(x, before) => x == e || Raises(before, e)
    case EmitClose(_, before) => Raises(before, e)
    case CallThrow(x) => x == e
    case _ => false
  }

  function Nexts<V, E>(script: Script<V, E>): nat {
    if script.Done? then 0 else NextsStep(script.first) + Nexts(script.rest)
  }

  function NextsStep<V, E>(step: Step<V, E>): nat {
    match step
    case Emit(_, before) => Nexts(before)
    case EmitError(_, before) => Nexts(before)
    case EmitClose(_, before) => Nexts(before)
    case CallNext => 1
    case _ => 0
  }

  // ---- the outcomes ----

  /** The values handed out, in the order of the next() calls. */
  function Values<V, E>(outcomes: seq<Outcome<V, E>>): seq<V> {
    if outcomes == [] then []
    else
      var last := outcomes[|outcomes| - 1];
      Values(outcomes[..|outcomes| - 1]) + if last.Yielded? then [last.value] else []
  }

  lemma ValuesAppend<V, E>(outcomes: seq<Outcome<V, E>>, o: Outcome<V, E>)
    ensures Values(outcomes + [o]) == Values(outcomes) + if o.Yielded? then [o.value] else []
  {
    assert (outcomes + [o])[..|outcomes|] == outcomes;
  }

  lemma {:induction false} NoValues<V, E>(outcomes: seq<Outcome<V, E>>, n: nat)
    requires n <= |outcomes| && forall i | n <= i < |outcomes| :: !outcomes[i].Yielded?
    ensures Values(outcomes) == Values(outcomes[..n])
    decreases |outcomes|
  {
    if n < |outcomes| {
      NoValues(outcomes[..|outcomes| - 1], n);
      assert outcomes[..|outcomes| - 1][..n] == outcomes[..n];
    } else {
      assert outcomes[..n] == outcomes;
    }
  }

  /** The oldest waiting call is settled, and the ones behind it are still waiting. */
  lemma Settle<V, E>(outcomes: seq<Outcome<V, E>>, n: nat, o: Outcome<V, E>)
    requires n < |outcomes| && forall i | n <= i < |outcomes| :: outcomes[i].Pending?
    ensures Values(outcomes[n := o]) == Values(outcomes) + if o.Yielded? then [o.value] else []
  {
    var after := outcomes[n := o];
    NoValues(outcomes, n);
    NoValues(after, n + 1);
    assert after[..n + 1] == outcomes[..n] + [o];
    ValuesAppend(outcomes[..n], o);
  }

  predicate Over<V, E>(o: Outcome<V, E>) {
    o.Rejected? || o.Finished?
  }

  /** The first call that was rejected or told that it is over. */
  function Told<V, E>(outcomes: seq<Outcome<V, E>>): Option<Outcome<V, E>> {
    if outcomes == [] then None
    else
      Later(Told(outcomes[..|outcomes| - 1]), outcomes[|outcomes| - 1])
  }

  function Later<V, E>(told: Option<Outcome<V, E>>, o: Outcome<V, E>): Option<Outcome<V, E>> {
    if told.None? && Over(o) then Some(o) else told
  }

  lemma ToldAppend<V, E>(outcomes: seq<Outcome<V, E>>, o: Outcome<V, E>)
    ensures Told(outcomes + [o]) == Later(Told(outcomes), o)
  {
    assert (outcomes + [o])[..|outcomes|] == outcomes;
  }

  lemma {:induction false} ToldIsFirst<V, E>(outcomes: seq<Outcome<V, E>>)
    ensures Told(outcomes).None? ==> forall i | 0 <= i < |outcomes| :: !Over(outcomes[i])
    ensures Told(outcomes).Some? ==>
      exists i | 0 <= i < |outcomes| :: Over(outcomes[i]) && Told(outcomes) == Some(outcomes[i])
        && forall j | 0 <= j < i :: !Over(outcomes[j])
    decreases |outcomes|
  {
    if outcomes != [] {
      var n := |outcomes| - 1;
      ToldIsFirst(outcomes[..n]);
      assert forall i | 0 <= i < n :: outcomes[..n][i] == outcomes[i];
      if Told(outcomes[..n]).Some? {
        var i :| 0 <= i < n && Over(outcomes[..n][i]) && Told(outcomes[..n]) == Some(outcomes[..n][i])
          && forall j | 0 <= j < i :: !Over(outcomes[..n][j]);
        assert Over(outcomes[i]) && Told(outcomes) == Some(outcomes[i]);
      } else if Over(outcomes[n]) {
        assert Told(outcomes) == Some(outcomes[n]);
      }
    }
  }

  lemma {:induction false} NotTold<V, E>(outcomes: seq<Outcome<V, E>>, n: nat)
    requires n <= |outcomes| && forall i | n <= i < |outcomes| :: !Over(outcomes[i])
    ensures Told(outcomes) == Told(outcomes[..n])
    decreases |outcomes|
  {
    if n < |outcomes| {
      NotTold(outcomes[..|outcomes| - 1], n);
      assert outcomes[..|outcomes| - 1][..n] == outcomes[..n];
    } else {
      assert outcomes[..n] == outcomes;
    }
  }

  lemma SettleTold<V, E>(outcomes: seq<Outcome<V, E>>, n: nat, o: Outcome<V, E>)
    requires n < |outcomes| && forall i | n <= i < |outcomes| :: outcomes[i].Pending?
    ensures Told(outcomes[n := o]) == Later(Told(outcomes), o)
  {
    var after := outcomes[n := o];
    NotTold(outcomes, n);
    NotTold(after, n + 1);
    assert after[..n + 1] == outcomes[..n] + [o];
    ToldAppend(outcomes[..n], o);
  }

  /** No value comes behind an error or the end. */
  ghost predicate ValuesLead<V, E>(outcomes: seq<Outcome<V, E>>) {
    forall i, j | 0 <= i < j < |outcomes| && Over(outcomes[i]) :: !outcomes[j].Yielded?
  }

  /** The waiting calls are the last ones, oldest first, and no other call is unsettled. */
  ghost predicate WaitingLast<V, E>(outcomes: seq<Outcome<V, E>>, promises: seq<nat>) {
    && |promises| <= |outcomes|
    && (forall k | 0 <= k < |promises| :: promises[k] == |outcomes| - |promises| + k)
    && (forall i | 0 <= i < |outcomes| :: outcomes[i].Pending? <==> i >= |outcomes| - |promises|)
  }

  /** Every call that is still waiting is told that it is over. */
  function AllFinished<V, E>(outcomes: seq<Outcome<V, E>>): (after: seq<Outcome<V, E>>)
    ensures |after| == |outcomes|
    ensures forall i | 0 <= i < |outcomes| :: after[i] == if outcomes[i].Pending? then Finished else outcomes[i]
  {
    seq(|outcomes|, i requires 0 <= i < |outcomes| => if outcomes[i].Pending? then Finished else outcomes[i])
  }

  lemma FinishOne<V, E>(outcomes: seq<Outcome<V, E>>, promises: seq<nat>)
    requires WaitingLast(outcomes, promises) && promises != []
    ensures promises[0] < |outcomes| && AllFinished(outcomes[promises[0] := Finished]) == AllFinished(outcomes)
  {
  }

  lemma NoneWaiting<V, E>(outcomes: seq<Outcome<V, E>>, promises: seq<nat>)
    requires WaitingLast(outcomes, promises) && promises == []
    ensures AllFinished(outcomes) == outcomes
  {
  }

  /** Settling the oldest waiting call. */
  lemma SettleOldest<V, E>(outcomes: seq<Outcome<V, E>>, promises: seq<nat>, o: Outcome<V, E>)
    requires WaitingLast(outcomes, promises) && promises != [] && !o.Pending?
    ensures promises[0] < |outcomes|
    ensures var after := outcomes[promises[0] := o];
      && WaitingLast(after, promises[1..])
      && Values(after) == Values(outcomes) + (if o.Yielded? then [o.value] else [])
      && Told(after) == Later(Told(outcomes), o)
      && (ValuesLead(outcomes) && (o.Yielded? ==> Told(outcomes).None?) ==> ValuesLead(after))
  {
    hide Values, Told;
    Settle(outcomes, promises[0], o);
    SettleTold(outcomes, promises[0], o);
    ToldIsFirst(outcomes);
  }

  /** A further call that is settled at once. */
  lemma NewOutcome<V, E>(outcomes: seq<Outcome<V, E>>, o: Outcome<V, E>)
    requires WaitingLast(outcomes, []) && !o.Pending?
    ensures var after := outcomes + [o];
      && WaitingLast(after, [])
      && Values(after) == Values(outcomes) + (if o.Yielded? then [o.value] else [])
      && Told(after) == Later(Told(outcomes), o)
      && (ValuesLead(outcomes) && (o.Yielded? ==> Told(outcomes).None?) ==> ValuesLead(after))
  {
    hide Values, Told;
    ValuesAppend(outcomes, o);
    ToldAppend(outcomes, o);
    ToldIsFirst(outcomes);
  }

  /** A further call that waits. */
  lemma NewWaiting<V, E>(outcomes: seq<Outcome<V, E>>, promises: seq<nat>)
    requires WaitingLast(outcomes, promises)
    ensures var after := outcomes + [Pending];
      && WaitingLast(after, promises + [|outcomes|])
      && Values(after) == Values(outcomes)
      && Told(after) == Told(outcomes)
      && (ValuesLead(outcomes) ==> ValuesLead(after))
  {
    hide Values, Told;
    ValuesAppend(outcomes, Pending);
    ToldAppend(outcomes, Pending);
    assert Values(outcomes) + [] == Values(outcomes);
  }

  class Iterator<V(==), E(==)> {
    // How many close events there are, and what 'removeListener' listeners do when the n-th listener is taken off.
    const closes: nat
    const onRemoval: nat -> Script<V, E>

    var unconsumedEvents: seq<V>
    var unconsumedPromises: seq<nat>
    var error: Option<E>
    var finished: bool
    // How many of the listeners are off the emitter; they go in this order: event, error, close events.
    var removed: nat
    var outcomes: seq<Outcome<V, E>>

    // The events the handler has received, and whether one came when listeners were already off; the last error that
    // was reported before a call was rejected or told that it is over.
    ghost var accepted: seq<V>
    ghost var late: bool
    ghost var failure: Option<E>

    /** Never both kept events and waiting calls; the values handed out and kept are the events accepted, in order. */
    ghost predicate Queues()
      reads this
    {
      && removed <= 2 + closes
      && (unconsumedEvents == [] || unconsumedPromises == [])
      && (error.Some? ==> unconsumedPromises == [])
      && WaitingLast(outcomes, unconsumedPromises)
      && Values(outcomes) + unconsumedEvents == accepted
      && (!late ==> ValuesLead(outcomes) && (unconsumedEvents != [] ==> Told(outcomes).None?))
      && ErrorFirst()
    }

    /** The first call to hear of the end is rejected with the failure if there is one, and otherwise told that it is over. */
    ghost predicate ErrorFirst()
      reads this
    {
      match Told(outcomes)
      case None => error == failure
      case Some(o) => if failure.Some? then o == Rejected(failure.value) else o == Finished
    }

    /** What holds whenever code of the user runs, also while the listeners are taken off. */
    ghost predicate Valid()
      reads this
    {
      && Queues()
      && (finished ==> unconsumedPromises == [] && removed == 2 + closes)
      && (removed == 0 ==> Told(outcomes).None? && error.None?)
    }

    /** The emitter has no 'removeListener' listeners. */
    ghost predicate Quiet() {
      forall n: nat :: onRemoval(n).Done?
    }

    /** A 'removeListener' listener emits or throws this error. */
    ghost predicate RaisedOnRemoval(e: E) {
      exists n: nat :: Raises(onRemoval(n), e)
    }

    constructor (closes: nat, onRemoval: nat -> Script<V, E>)
      ensures this.closes == closes && this.onRemoval == onRemoval
      ensures Valid() && accepted == [] && outcomes == [] && removed == 0 && failure.None? && !late
    {
      this.closes, this.onRemoval := closes, onRemoval;
      unconsumedEvents, unconsumedPromises, error, finished, removed, outcomes := [], [], None, false, 0, [];
      accepted, late, failure := [], false, None;
    }

    /** eventHandler: the oldest waiting next() gets the event, or it is kept; whether the iteration is over is not asked. */
    method EventHandler(v: V)
      requires Valid()
      modifies this`unconsumedEvents, this`unconsumedPromises, this`outcomes, this`accepted, this`late
      ensures Valid() && accepted == old(accepted) + [v] && late == (old(late) || removed > 0)
      ensures old(unconsumedPromises) == [] ==> outcomes == old(outcomes) && unconsumedEvents == old(unconsumedEvents) + [v]
      ensures old(unconsumedPromises) != [] ==>
        && old(unconsumedPromises)[0] < |old(outcomes)|
        && outcomes == old(outcomes)[old(unconsumedPromises)[0] := Yielded(v)]
        && unconsumedPromises == old(unconsumedPromises)[1..] && unconsumedEvents == []
      ensures Told(outcomes) == Told(old(outcomes))
    {
      hide WaitingLast, Values, ValuesLead, Told;
      late := late || removed > 0;
      if |unconsumedPromises| > 0 {
        SettleOldest(outcomes, unconsumedPromises, Yielded(v));
        assert Values(outcomes) + [] == Values(outcomes);
        outcomes := outcomes[unconsumedPromises[0] := Yielded(v)];
        unconsumedPromises := unconsumedPromises[1..];
        accepted := accepted + [v];
        assert Values(outcomes) + [] == accepted;
      } else {
        assert Values(outcomes) + (unconsumedEvents + [v]) == (Values(outcomes) + unconsumedEvents) + [v];
        unconsumedEvents := unconsumedEvents + [v];
        accepted := accepted + [v];
      }
    }

    /** The calls that wait and the values handed out: fewer of them only if a call has heard of the end. */
    ghost function Served(): int
      reads this
    {
      |unconsumedPromises| + |accepted| - |unconsumedEvents|
    }

    /** What user code that runs meanwhile may have changed. */
    twostate predicate Meanwhile()
      reads this
    {
      && removed >= old(removed) && (removed > old(removed) ==> finished) && (old(finished) ==> finished)
      && (Told(old(outcomes)).Some? ==> Told(outcomes) == Told(old(outcomes)) && failure == old(failure))
      && (Told(outcomes).Some? || Served() >= old(Served()))
    }

    /** closeHandler: the listeners go, and every waiting next() is told that it is over. */
    method CloseHandler()
      requires Queues() && (finished ==> unconsumedPromises == [] && removed == 2 + closes)
      modifies this
      ensures Valid() && finished && accepted == old(accepted) && late == old(late) && Meanwhile()
      ensures failure == old(failure) || (failure.Some? && RaisedOnRemoval(failure.value))
      ensures Quiet() ==> outcomes == AllFinished(old(outcomes)) && error == old(error)
      ensures Quiet() ==> |outcomes| == |old(outcomes)|
      decreases 2 + closes - removed, 0, 1
    {
      hide WaitingLast, Values, ValuesLead, Told, AllFinished;
      RemoveAll();
      finished := true;
      label L:
      while |unconsumedPromises| > 0
        invariant Queues() && Meanwhile() && finished && removed == 2 + closes
        invariant accepted == old(accepted) && late == old(late) && failure == old@L(failure) && error == old@L(error)
        invariant AllFinished(outcomes) == AllFinished(old@L(outcomes))
        decreases |unconsumedPromises|
      {
        FinishOne(outcomes, unconsumedPromises);
        SettleOldest(outcomes, unconsumedPromises, Finished);
        assert Values(outcomes) + [] == Values(outcomes);
        outcomes := outcomes[unconsumedPromises[0] := Finished];
        unconsumedPromises := unconsumedPromises[1..];
      }
      NoneWaiting(outcomes, unconsumedPromises);
    }

    /** removeAll: after each removal the 'removeListener' listeners run, which may use the iterator again. */
    method RemoveAll()
      requires Queues() && (finished ==> unconsumedPromises == [] && removed == 2 + closes)
      modifies this
      ensures Valid() && removed == 2 + closes && accepted == old(accepted) && late == old(late)
      ensures (old(finished) ==> finished) && (removed > old(removed) || finished == old(finished))
      ensures Told(old(outcomes)).Some? ==> Told(outcomes) == Told(old(outcomes)) && failure == old(failure)
      ensures Told(outcomes).Some? || Served() >= old(Served())
      ensures failure == old(failure) || (failure.Some? && RaisedOnRemoval(failure.value))
      ensures Quiet() ==> outcomes == old(outcomes) && error == old(error) && unconsumedPromises == old(unconsumedPromises)
      decreases 2 + closes - removed, 0, 0
    {
      hide WaitingLast, Values, ValuesLead, Told;
      while removed < 2 + closes
        invariant Queues() && (finished ==> unconsumedPromises == [] && removed == 2 + closes)
        invariant removed >= old(removed) && (old(finished) ==> finished)
        invariant removed > old(removed) || finished == old(finished)
        invariant accepted == old(accepted) && late == old(late)
        invariant Told(old(outcomes)).Some? ==> Told(outcomes) == Told(old(outcomes)) && failure == old(failure)
        invariant Told(outcomes).Some? || Served() >= old(Served())
        invariant failure == old(failure) || (failure.Some? && RaisedOnRemoval(failure.value))
        invariant Quiet() ==> outcomes == old(outcomes) && error == old(error) && unconsumedPromises == old(unconsumedPromises)
        decreases 2 + closes - removed
      {
        removed := removed + 1;
        Perform(onRemoval(removed - 1));
      }
    }

    /** errorHandler, from the emitter, the abort signal or throw(). */
    method ErrorHandler(e: E)
      requires Valid()
      modifies this
      ensures Valid() && finished && accepted == old(accepted) && late == old(late) && Meanwhile()
      ensures failure == old(failure) || (failure.Some? && (failure.value == e || RaisedOnRemoval(failure.value)))
      ensures Told(old(outcomes)).None? && Quiet() ==> failure == Some(e)
      ensures Quiet() ==> |outcomes| == |old(outcomes)|
      ensures Quiet() && old(unconsumedPromises) == [] ==> outcomes == old(outcomes) && error == Some(e)
      ensures Quiet() && old(unconsumedPromises) != [] ==>
        && error == old(error) && old(unconsumedPromises)[0] < |old(outcomes)|
        && outcomes == AllFinished(old(outcomes)[old(unconsumedPromises)[0] := Rejected(e)])
      decreases 2 + closes - removed, 0, 2
    {
      hide WaitingLast, Values, ValuesLead, Told;
      if Told(outcomes).None? {
        failure := Some(e);
      }
      if |unconsumedPromises| == 0 {
        error := Some(e);
        NoneWaiting(outcomes, unconsumedPromises);
      } else {
        SettleOldest(outcomes, unconsumedPromises, Rejected(e));
        assert Values(outcomes) + [] == Values(outcomes);
        outcomes := outcomes[unconsumedPromises[0] := Rejected(e)];
        unconsumedPromises := unconsumedPromises[1..];
      }
      CloseHandler();
    }

    /** next(): a kept event, then a kept error, then the end; otherwise it waits. */
    method Next() returns (k: nat)
      requires Valid()
      modifies this`unconsumedEvents, this`unconsumedPromises, this`outcomes, this`error
      ensures Valid() && k == |old(outcomes)|
      ensures outcomes == old(outcomes) + [
        if old(unconsumedEvents) != [] then Yielded(old(unconsumedEvents)[0])
        else if old(error).Some? then Rejected(old(error).value)
        else if finished then Finished else Pending]
      ensures unconsumedEvents == if old(unconsumedEvents) != [] then old(unconsumedEvents)[1..] else []
      ensures unconsumedPromises == old(unconsumedPromises) + if outcomes[k].Pending? then [k] else []
      ensures Told(old(outcomes)).Some? ==> Told(outcomes) == Told(old(outcomes))
    {
      hide WaitingLast, Values, ValuesLead, Told;
      k := |outcomes|;
      assert Values(outcomes) + [] == Values(outcomes);
      if |unconsumedEvents| > 0 {
        var v := unconsumedEvents[0];
        NewOutcome(outcomes, Yielded(v));
        assert (Values(outcomes) + [v]) + unconsumedEvents[1..] == Values(outcomes) + ([v] + unconsumedEvents[1..]);
        unconsumedEvents := unconsumedEvents[1..];
        outcomes := outcomes + [Yielded(v)];
        return;
      }
      if error.Some? {
        NewOutcome(outcomes, Rejected(error.value));
        outcomes := outcomes + [Rejected(error.value)];
        error := None;
        return;
      }
      if finished {
        NewOutcome(outcomes, Finished);
        outcomes := outcomes + [Finished];
        return;
      }
      NewWaiting(outcomes, unconsumedPromises);
      unconsumedPromises := unconsumedPromises + [k];
      outcomes := outcomes + [Pending];
    }

    /** What a script or step has done. */
    twostate predicate Accounted(new reaching: seq<V>, ends: bool, lates: bool, nexts: nat)
      reads this
    {
      && Meanwhile()
      && accepted == old(accepted) + (if old(removed) == 0 then reaching else [])
      && (old(removed) == 0 ==> (removed > 0 <==> ends))
      && (late <==> old(late) || (old(removed) == 0 && lates))
      && (Quiet() ==> |outcomes| == |old(outcomes)| + nexts)
    }

    /** Any code that uses the emitter and the iterator. */
    method Perform(script: Script<V, E>)
      requires Valid()
      modifies this
      ensures Valid()
      ensures Accounted(Reaching(script, closes), Ends(script, closes), Late(script, closes), Nexts(script))
      ensures failure == old(failure) || (failure.Some? && (Raises(script, failure.value) || RaisedOnRemoval(failure.value)))
      ensures script.Done? ==> outcomes == old(outcomes) && error == old(error) && unconsumedPromises == old(unconsumedPromises)
      decreases 2 + closes - removed, 1, script
    {
      hide Queues, Told, RaisedOnRemoval;
      if script.Then? {
        Take(script.first);
        Perform(script.rest);
      }
    }

    /** One call or emission; an emission reaches the handlers that were on when it began. */
    method Take(step: Step<V, E>)
      requires Valid()
      modifies this
      ensures Valid()
      ensures Accounted(ReachingStep(step, closes), EndsStep(step, closes), LateStep(step, closes), NextsStep(step))
      ensures failure == old(failure) || (failure.Some? && (RaisesStep(step, failure.value) || RaisedOnRemoval(failure.value)))
      ensures step.Emit? && old(removed) == 0 && LateStep(step, closes) ==>
        unconsumedEvents != [] && unconsumedEvents[|unconsumedEvents| - 1] == step.value
      decreases 2 + closes - removed, 1, step, 1
    {
      hide Queues, Told, RaisedOnRemoval, Quiet;
      match step
      case Emit(_, _) =>
        TakeEvent(step);
      case EmitError(_, _) =>
        TakeError(step);
      case EmitClose(_, _) =>
        TakeClose(step);
      case CallNext =>
        var k := Next();
      case CallReturn =>
        CloseHandler();
      case CallThrow(e) =>
        ErrorHandler(e);
    }

    /** The only call has heard of an end that is no error, and the only event is kept. */
    lemma OnlyCall(v: V)
      requires Valid() && failure.None? && |outcomes| == 1 && Told(outcomes).Some? && accepted == [v]
      ensures outcomes == [Finished] && unconsumedEvents == [v]
    {
      assert outcomes[..0] == [] && outcomes == [outcomes[0]];
      assert Told(outcomes) == Later(Told(outcomes[..0]), outcomes[0]);
      assert Values(outcomes) == Values(outcomes[..0]) + [];
    }

    lemma QuietRaisesNothing()
      requires forall n: nat :: onRemoval(n).Done?
      ensures Quiet() && forall e :: !RaisedOnRemoval(e)
    {
    }

    lemma Ended()
      requires Valid() && finished
      ensures unconsumedPromises == [] && removed > 0
    {
    }

    method TakeEvent(step: Step<V, E>)
      requires step.Emit?
      requires Valid()
      modifies this
      ensures Valid()
      ensures Accounted(ReachingStep(step, closes), EndsStep(step, closes), LateStep(step, closes), NextsStep(step))
      ensures failure == old(failure) || (failure.Some? && (RaisesStep(step, failure.value) || RaisedOnRemoval(failure.value)))
      ensures old(removed) == 0 && LateStep(step, closes) ==>
        unconsumedEvents != [] && unconsumedEvents[|unconsumedEvents| - 1] == step.value
      decreases 2 + closes - removed, 1, step, 0
    {
      hide Queues, Told, RaisedOnRemoval, Quiet;
      var on := removed == 0;
      LateEnds(step.before, closes);
      Perform(step.before);
      if on {
        ghost var reaching := Reaching(step.before, closes);
        if finished {
          Ended();
        }
        EventHandler(step.value);
        assert (old(accepted) + reaching) + [step.value] == old(accepted) + (reaching + [step.value]);
      }
    }

    method TakeError(step: Step<V, E>)
      requires step.EmitError?
      requires Valid()
      modifies this
      ensures Valid()
      ensures Accounted(ReachingStep(step, closes), EndsStep(step, closes), LateStep(step, closes), NextsStep(step))
      ensures failure == old(failure) || (failure.Some? && (RaisesStep(step, failure.value) || RaisedOnRemoval(failure.value)))
      decreases 2 + closes - removed, 1, step, 0
    {
      hide Queues, Told, RaisedOnRemoval, Quiet;
      var on := removed <= 1;
      Perform(step.before);
      if on {
        ErrorHandler(step.error);
      }
    }

    method TakeClose(step: Step<V, E>)
      requires step.EmitClose?
      requires Valid()
      modifies this
      ensures Valid()
      ensures Accounted(ReachingStep(step, closes), EndsStep(step, closes), LateStep(step, closes), NextsStep(step))
      ensures failure == old(failure) || (failure.Some? && (RaisesStep(step, failure.value) || RaisedOnRemoval(failure.value)))
      decreases 2 + closes - removed, 1, step, 0
    {
      hide Queues, Told, RaisedOnRemoval, Quiet;
      var on := step.name < closes && removed <= 2 + step.name;
      Perform(step.before);
      if on {
        CloseHandler();
      }
    }
  }

  /**
    * Any run of a new iterator: the values handed out and kept are the events whose emission began while the listeners
    * were on, in the order in which they reached the handler, each once; events and calls never wait at once; the
    * iteration is over exactly if something ended it, and then no call waits; the first call to hear of the end is
    * rejected if an error was reported before; and unless an event came late no value follows an error or the end.
    */
  method Run<V(==), E(==)>(script: Script<V, E>, closes: nat, onRemoval: nat -> Script<V, E>) returns (it: Iterator<V, E>)
    ensures fresh(it) && it.closes == closes && it.onRemoval == onRemoval && it.Valid()
    ensures Values(it.outcomes) + it.unconsumedEvents == Reaching(script, closes)
    ensures it.unconsumedEvents == [] || it.unconsumedPromises == []
    ensures it.finished <==> Ends(script, closes)
    ensures it.finished ==> forall i | 0 <= i < |it.outcomes| :: !it.outcomes[i].Pending?
    ensures it.late <==> Late(script, closes)
    ensures !it.late ==> ValuesLead(it.outcomes)
    ensures it.ErrorFirst()
    ensures it.failure.Some? ==> Raises(script, it.failure.value) || it.RaisedOnRemoval(it.failure.value)
    ensures it.Quiet() ==> |it.outcomes| == Nexts(script)
  {
    it := new Iterator(closes, onRemoval);
    it.Perform(script);
  }

  lemma ReturnInFront<V, E>(v: V, step: Step<V, E>)
    requires step == Emit(v, Then(CallReturn, Done))
    ensures ReachingStep(step, 0) == [v] && EndsStep(step, 0) && LateStep(step, 0) && NextsStep(step) == 0
    ensures forall e :: !RaisesStep(step, e)
  {
    assert Reaching(step.before, 0) == [];
  }

  /** A new iterator whose next() has been called once. */
  method OneWaits<V(==), E(==)>(onRemoval: nat -> Script<V, E>) returns (it: Iterator<V, E>)
    ensures fresh(it) && it.closes == 0 && it.onRemoval == onRemoval && it.Valid()
    ensures it.outcomes == [Pending] && it.unconsumedPromises == [0] && it.unconsumedEvents == [] && it.accepted == []
    ensures it.removed == 0 && it.failure.None?
  {
    it := new Iterator(0, onRemoval);
    var first := it.Next();
  }

  /** return() in a listener that was added before the iterator: it.next(); emitter.emit(v); it.next(). */
  method ValueAfterTheEnd<V(==), E(==)>(v: V, onRemoval: nat -> Script<V, E>) returns (it: Iterator<V, E>)
    requires forall n: nat :: onRemoval(n).Done?
    ensures fresh(it) && it.outcomes == [Finished, Yielded(v)] && !ValuesLead(it.outcomes)
  {
    it := OneWaits(onRemoval);
    it.QuietRaisesNothing();
    hide Iterator.Queues, Told, Values, ValuesLead, WaitingLast, Iterator.ErrorFirst, Iterator.Quiet, Iterator.RaisedOnRemoval;
    hide ReachingStep, EndsStep, LateStep, NextsStep, RaisesStep;
    var step: Step<V, E> := Emit(v, Then(CallReturn, Done));
    ReturnInFront(v, step);
    it.Take(step);
    it.OnlyCall(v);
    var second := it.Next();
    EndThenValue<V, E>(v);
  }

  lemma EndThenValue<V, E>(v: V)
    ensures !ValuesLead<V, E>([Finished, Yielded(v)])
  {
    var outcomes: seq<Outcome<V, E>> := [Finished, Yielded(v)];
    assert Over(outcomes[0]) && outcomes[1].Yielded?;
  }

  /**
    * When values lead in every run that contains this emission: exactly if no listener in front of the iterator's ends
    * the iteration. Otherwise enough calls that wait, the emission, and one call more hand out a value behind the end.
    */
  method LeadsExactly<V(==), E(==)>(v: V, before: Script<V, E>, closes: nat, onRemoval: nat -> Script<V, E>)
      returns (it: Iterator<V, E>)
    ensures fresh(it) && it.closes == closes && it.onRemoval == onRemoval
    ensures ValuesLead(it.outcomes) <==> !Ends(before, closes)
  {
    hide Told, Values, Iterator.RaisedOnRemoval, Iterator.Quiet, Iterator.ErrorFirst;
    it := new Iterator(closes, onRemoval);
    var n := |Reaching(before, closes)| + 1;
    for i := 0 to n
      invariant it.Valid() && it.removed == 0 && it.accepted == [] && !it.late && fresh(it)
      invariant |it.unconsumedPromises| == i && !it.finished
    {
      var k := it.Next();
    }
    it.Take(Emit(v, before));
    LateEnds(before, closes);
    ghost var outcomes := it.outcomes;
    ToldIsFirst(outcomes);
    var k := it.Next();
    if Ends(before, closes) {
      assert it.outcomes[k].Yielded?;
      assert forall i | 0 <= i < |outcomes| :: it.outcomes[i] == outcomes[i];
    }
  }
}
