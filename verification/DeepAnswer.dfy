/** What the strict deep comparison answers, for all acyclic values: as deep equality, but with greedy matching. */
module DeepAnswer {
  import opened DeepValues
  import opened GreedyMatching

  // ---- sizes ----

  ghost function Size(v: Value): nat
    decreases v
  {
    if v.Prim? then 0
    else 1 + SizeList(v, v.members, |v.members|) + SizeList(v, v.values, |v.values|) + SizeProps(v, v.props.Keys)
  }

  ghost function SizeList(v: Value, list: seq<Value>, n: nat): nat
    requires v.Obj? && (list == v.members || list == v.values) && n <= |list|
    decreases v, 0, n
  {
    if n == 0 then 0 else SizeList(v, list, n - 1) + Size(list[n - 1])
  }

  ghost function SizeProps(v: Value, ks: set<Key>): nat
    requires v.Obj? && ks <= v.props.Keys
    decreases v, 0, |ks|
  {
    if ks == {} then 0
    else
      var k := SomeKey(ks);
      SizeProps(v, ks - {k}) + Size(v.props[k].value)
  }

  ghost function SomeKey(ks: set<Key>): (k: Key)
    requires ks != {}
    ensures k in ks
  {
    var k :| k in ks; k
  }

  lemma {:induction false} ListMember(v: Value, list: seq<Value>, n: nat, i: nat)
    requires v.Obj? && (list == v.members || list == v.values) && i < n <= |list|
    ensures Size(list[i]) <= SizeList(v, list, n)
    decreases n
  {
    if i < n - 1 {
      ListMember(v, list, n - 1, i);
    }
  }

  lemma {:induction false} PropMember(v: Value, ks: set<Key>, k: Key)
    requires v.Obj? && ks <= v.props.Keys && k in ks
    ensures Size(v.props[k].value) <= SizeProps(v, ks)
    decreases |ks|
  {
    if k != SomeKey(ks) {
      PropMember(v, ks - {SomeKey(ks)}, k);
    }
  }

  lemma MemberIsSmaller(v: Value, i: nat)
    requires v.Obj?
    ensures i < |v.members| ==> Size(v.members[i]) < Size(v)
    ensures i < |v.values| ==> Size(v.values[i]) < Size(v)
  {
    if i < |v.members| {
      ListMember(v, v.members, |v.members|, i);
    }
    if i < |v.values| {
      ListMember(v, v.values, |v.values|, i);
    }
  }

  lemma PropIsSmaller(v: Value, k: Key)
    requires v.Obj?
    ensures Size(Get(v, k)) < Size(v)
  {
    if k in v.props {
      PropMember(v, v.props.Keys, k);
    }
  }

  // ---- the answer ----

  /** The answer of the comparison: whether the heads agree, the listed keys are accepted and the members are. */
  ghost predicate Accepts(u: Value, v: Value)
    decreases Size(u) + Size(v), 5
  {
    u == v || (u.Obj? && v.Obj? && HeadsAgree(u, v) && KeysAccepted(u, v) && MembersAccepted(u, v))
  }

  ghost predicate KeysAccepted(u: Value, v: Value)
    requires u.Obj? && v.Obj?
    decreases Size(u) + Size(v), 4
  {
    forall k | k in ComparedKeys(u) :: ValueAccepted(u, v, k)
  }

  ghost predicate ValueAccepted(u: Value, v: Value, k: Key)
    requires u.Obj? && v.Obj?
    decreases Size(u) + Size(v), 0
  {
    PropIsSmaller(u, k);
    PropIsSmaller(v, k);
    Accepts(Get(u, k), Get(v, k))
  }

  /** Sets and Maps are traversed in insertion order. */
  ghost predicate MembersAccepted(u: Value, v: Value)
    requires u.Obj? && v.Obj?
    decreases Size(u) + Size(v), 4
  {
    Collection(u) ==> Outcome(u, v, ObjectsBelow(u.members, |u.members|), ObjectsBelow(v.members, |v.members|))
  }

  /** The positions of the objects among the first n members, in order. */
  function ObjectsBelow(members: seq<Value>, n: nat): seq<nat>
    requires n <= |members|
  {
    if n == 0 then []
    else ObjectsBelow(members, n - 1) + if members[n - 1].Obj? then [n - 1] else []
  }

  /**
    * What becomes of two collections whose objects come in these orders: primitives must be found on the other side;
    * then, if there is an object on this side, each one of the other side takes the first that is left and accepted.
    */
  ghost predicate Outcome(u: Value, v: Value, rows: seq<nat>, cols: seq<nat>)
    requires u.Obj? && v.Obj?
    decreases Size(u) + Size(v), 3
  {
    PrimitivesFound(u, v) && (rows == [] || GreedyRun(rows, cols, Accepted(u, v)))
  }

  ghost predicate PrimitivesFound(u: Value, v: Value)
    requires u.Obj? && v.Obj?
    decreases Size(u) + Size(v), 2
  {
    forall i | 0 <= i < |u.members| && u.members[i].Prim? :: PrimitiveFound(u, v, i)
  }

  ghost predicate PrimitiveFound(u: Value, v: Value, i: nat)
    requires u.Obj? && v.Obj?
    decreases Size(u) + Size(v), 1
  {
    i < |u.members| && exists j | 0 <= j < |v.members| && v.members[j] == u.members[i] :: MemberAccepted(u, v, i, j)
  }

  ghost function Accepted(u: Value, v: Value): (nat, nat) -> bool
    requires u.Obj? && v.Obj?
    decreases Size(u) + Size(v), 1
  {
    (i: nat, j: nat) => MemberAccepted(u, v, i, j)
  }

  /**
    * The comparison the code makes of u's member or entry i and v's j. A primitive is looked up in v and the values of
    * the two entries are compared; an object of v is compared with the one of u, in this order, and so are the values.
    */
  ghost predicate MemberAccepted(u: Value, v: Value, i: nat, j: nat)
    requires u.Obj? && v.Obj?
    decreases Size(u) + Size(v), 0
  {
    MemberIsSmaller(u, i);
    MemberIsSmaller(v, j);
    && i < |u.members| && j < |v.members|
    && (Shape(u).Map? ==> i < |u.values| && j < |v.values|)
    && if u.members[i].Prim? then
         u.members[i] == v.members[j] && (Shape(u).Map? ==> Accepts(u.values[i], v.values[j]))
       else
         Accepts(v.members[j], u.members[i]) && (Shape(u).Map? ==> Accepts(v.values[j], u.values[i]))
  }

  lemma MembersAcceptedIs(a: Value, b: Value)
    requires a.Obj? && b.Obj? && (Shape(a).Set? || Shape(a).Map?)
    ensures var rows, cols := ObjectsBelow(a.members, |a.members|), ObjectsBelow(b.members, |b.members|);
      MembersAccepted(a, b) <==> PrimitivesFound(a, b) && (rows == [] || GreedyRun(rows, cols, Accepted(a, b)))
  {
    hide PrimitivesFound, GreedyRun, Accepted, ObjectsBelow;
  }

  lemma AcceptsIs(u: Value, v: Value)
    requires u.Obj? && v.Obj? && u != v
    ensures Accepts(u, v) <==> HeadsAgree(u, v) && KeysAccepted(u, v) && MembersAccepted(u, v)
  {
    hide HeadsAgree, KeysAccepted, MembersAccepted;
  }

  /** A primitive is accepted for itself only. */
  lemma PrimitiveAccepted(x: Value, y: Value)
    requires x.Prim?
    ensures Accepts(x, y) <==> x == y
  {
  }

  // ---- which values there are ----

  /** Well-formed all the way down. */
  ghost predicate Sound(v: Value)
    decreases v
  {
    v.Obj? ==>
      && WellFormed(v)
      && (forall k | k in v.props :: Sound(v.props[k].value))
      && (forall i | 0 <= i < |v.members| :: Sound(v.members[i]))
      && (forall i | 0 <= i < |v.values| :: Sound(v.values[i]))
  }
}
