/** keepAlive: a hold on the event loop that can be referenced, unreferenced and released for good. */
module KeepAlive {

  datatype Call = Ref | Unref | Release

  /** Whether the hold is taken after a history of calls: the last ref or unref decides, until the first release. */
  function Taken(persistent: bool, calls: seq<Call>): bool {
    if Release in calls then false
    else if calls == [] then persistent
    else calls[|calls| - 1] == Ref
  }

  /** A release takes the hold for good; before one the last of ref and unref decides, and at first the option. */
  lemma LastCallDecides(persistent: bool, calls: seq<Call>, c: Call)
    ensures Taken(persistent, []) == persistent
    ensures Release in calls ==> !Taken(persistent, calls + [c])
    ensures Release !in calls ==> (Taken(persistent, calls + [c]) <==> c == Ref)
  {
  }

  class Hold {
    var refed: bool
    var closed: bool
    // Calls of BeginExternalOp and EndExternalOp made for this hold.
    var begun: nat
    var ended: nat

    ghost const persistent: bool
    ghost var calls: seq<Call>

    /** One external operation is open exactly while the hold is taken. */
    ghost predicate Valid()
      reads this
    {
      && begun == ended + (if refed then 1 else 0)
      && refed == Taken(persistent, calls)
      && closed == (Release in calls)
    }

    /** newKeepAlive. */
    constructor (persistent: bool)
      ensures Valid() && calls == [] && this.persistent == persistent
    {
      this.persistent := persistent;
      refed, closed, begun, ended, calls := persistent, false, if persistent then 1 else 0, 0, [];
    }

    method DoRef()
      requires Valid()
      modifies this
      ensures Valid() && calls == old(calls) + [Ref] && ended == old(ended)
    {
      if !refed && !closed {
        refed := true;
        begun := begun + 1;
      }
      calls := calls + [Ref];
    }

    method DoUnref()
      requires Valid()
      modifies this
      ensures Valid() && calls == old(calls) + [Unref] && begun == old(begun)
    {
      if refed && !closed {
        refed := false;
        ended := ended + 1;
      }
      calls := calls + [Unref];
    }

    /** release: true on the first call only; afterwards nothing is held and no call counts any more. */
    method DoRelease() returns (first: bool)
      requires Valid()
      modifies this
      ensures Valid() && calls == old(calls) + [Release] && begun == ended == old(begun)
      ensures first <==> Release !in old(calls)
    {
      first := !closed;
      if !closed {
        closed := true;
        if refed {
          refed := false;
          ended := ended + 1;
        }
      }
      calls := calls + [Release];
    }

    /** Any sequence of calls: the open operations are those of the history, and a released hold has ended every one it began. */
    method Apply(more: seq<Call>)
      requires Valid()
      modifies this
      ensures Valid() && calls == old(calls) + more
      ensures begun - ended == if Taken(persistent, old(calls) + more) then 1 else 0
      ensures Release in old(calls) ==> begun == old(begun) && ended == old(ended)
    {
      for i := 0 to |more|
        invariant Valid() && calls == old(calls) + more[..i]
        invariant Release in old(calls) ==> begun == old(begun) && ended == old(ended)
      {
        match more[i] {
          case Ref => DoRef();
          case Unref => DoUnref();
          case Release => var first := DoRelease();
        }
        assert old(calls) + more[..i + 1] == old(calls) + more[..i] + [more[i]];
      }
      assert more[..|more|] == more;
    }
  }
}
