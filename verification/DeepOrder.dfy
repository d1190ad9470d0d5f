/** When the answer of the comparison is deep equality, and when it does not depend on the order of Sets and Maps. */
module DeepOrder {
  import opened DeepAnswer
  import opened DeepArrays
  import opened DeepExact
  import opened DeepLaws
  import opened DeepValues
  import opened GreedyMatching
  import opened Matching

  // ---- the members of collections ----

  function Objects(v: Value): set<nat>
    requires v.Obj?
  {
    ObjectsAmong(v.members, |v.members|)
  }

  function Primitives(v: Value): set<nat>
    requires v.Obj?
  {
    set i | i in Range(|v.members|) && v.members[i].Prim?
  }

  /** The members of u and v can be paired one to one by the comparison that the code makes of them. */
  ghost predicate Paired(u: Value, v: Value)
    requires u.Obj? && v.Obj?
  {
    Matchable(Range(|u.members|), Range(|v.members|), Accepted(u, v))
  }

  /** Two collections that passed the checks of objectComparisonStart. */
  ghost predicate SameCollections(u: Value, v: Value) {
    && u.Obj? && v.Obj? && Collection(u) && v.kind == u.kind && |u.members| == |v.members|
    && WellFormed(u) && WellFormed(v)
  }

  lemma Split(v: Value)
    requires v.Obj?
    ensures Primitives(v) !! Objects(v) && Primitives(v) + Objects(v) == Range(|v.members|)
    ensures |Primitives(v)| + |Objects(v)| == |v.members|
  {
    assert Primitives(v) + Objects(v) == Range(|v.members|);
    DisjointSum(Primitives(v), Objects(v));
  }

  function ObjectsAmong(members: seq<Value>, n: nat): set<nat>
    requires n <= |members|
  {
    set i | i in Range(n) && members[i].Obj?
  }

  lemma {:induction false} ObjectsListed(members: seq<Value>, n: nat)
    requires n <= |members|
    ensures Lists(ObjectsBelow(members, n), ObjectsAmong(members, n))
  {
    hide *;
    if n == 0 {
      EmptyListed(members);
    } else {
      ObjectsListed(members, n - 1);
      OneMore(members, n - 1);
      if members[n - 1].Obj? {
        Appended(ObjectsBelow(members, n - 1), ObjectsAmong(members, n - 1), n - 1);
      }
    }
  }

  lemma OneMore(members: seq<Value>, n: nat)
    requires n < |members|
    ensures n !in ObjectsAmong(members, n)
    ensures ObjectsAmong(members, n + 1) == if members[n].Obj? then ObjectsAmong(members, n) + {n} else ObjectsAmong(members, n)
    ensures ObjectsBelow(members, n + 1) == if members[n].Obj? then ObjectsBelow(members, n) + [n] else ObjectsBelow(members, n)
  {
    hide ObjectsBelow, Range;
    OneBelow(members, n);
  }

  lemma OneBelow(members: seq<Value>, n: nat)
    requires n < |members|
    ensures ObjectsBelow(members, n + 1) == if members[n].Obj? then ObjectsBelow(members, n) + [n] else ObjectsBelow(members, n)
  {
    assert ObjectsBelow(members, n) + [] == ObjectsBelow(members, n);
  }

  lemma EmptyListed(members: seq<Value>)
    ensures Lists(ObjectsBelow(members, 0), ObjectsAmong(members, 0))
  {
    assert ObjectsAmong(members, 0) == {};
  }

  lemma Appended(list: seq<nat>, X: set<nat>, x: nat)
    requires Lists(list, X) && x !in X
    ensures Lists(list + [x], X + {x})
  {
  }

  lemma ObjectLists(v: Value)
    requires v.Obj?
    ensures Lists(ObjectsBelow(v.members, |v.members|), Objects(v))
  {
    hide Lists;
    ObjectsListed(v.members, |v.members|);
  }

  /** A primitive and an object are never accepted, and primitives meet one to one. */
  lemma PrimitivesApart(u: Value, v: Value)
    requires SameCollections(u, v)
    ensures Apart(Primitives(u), Objects(u), Primitives(v), Objects(v), Accepted(u, v))
    ensures OneToOne(Primitives(u), Primitives(v), Accepted(u, v))
  {
    hide Shape, WellFormed, Accepts, Size;
    forall i: nat, j: nat | MemberAccepted(u, v, i, j)
      ensures i < |u.members| && j < |v.members| && (u.members[i].Prim? <==> v.members[j].Prim?)
      ensures u.members[i].Prim? ==> u.members[i] == v.members[j]
    {
      if v.members[j].Prim? {
        PrimitiveAccepted(v.members[j], u.members[i]);
      }
    }
    DistinctMembers(u);
    DistinctMembers(v);
  }

  lemma DistinctMembers(v: Value)
    requires v.Obj? && WellFormed(v)
    ensures forall i: nat, j: nat | i < |v.members| && j < |v.members| && v.members[i] == v.members[j] :: i == j
  {
  }

  lemma FoundIsTotal(u: Value, v: Value)
    requires SameCollections(u, v)
    ensures PrimitivesFound(u, v) <==> Total(Primitives(u), Primitives(v), Accepted(u, v))
  {
    hide Shape, WellFormed, Collection, Accepts, Size;
    if PrimitivesFound(u, v) {
      forall i | i in Primitives(u)
        ensures exists j | j in Primitives(v) :: Accepted(u, v)(i, j)
      {
        assert PrimitiveFound(u, v, i);
        var j :| 0 <= j < |v.members| && v.members[j] == u.members[i] && MemberAccepted(u, v, i, j);
        assert j in Primitives(v) && Accepted(u, v)(i, j);
      }
    }
    if Total(Primitives(u), Primitives(v), Accepted(u, v)) {
      forall i | 0 <= i < |u.members| && u.members[i].Prim?
        ensures PrimitiveFound(u, v, i)
      {
        assert i in Primitives(u);
        var j :| j in Primitives(v) && Accepted(u, v)(i, j);
        assert MemberAccepted(u, v, i, j);
      }
    }
  }

  // ---- the order of iteration ----

  /** In whatever orders the objects come, the outcome is whether the members can be paired. */
  ghost predicate AnyOrder(u: Value, v: Value)
    requires u.Obj? && v.Obj?
  {
    forall rows, cols | Lists(rows, Objects(u)) && Lists(cols, Objects(v)) :: Outcome(u, v, rows, cols) <==> Paired(u, v)
  }

  /**
    * The outcome for two Sets or Maps is whether their members can be paired, in any order of iteration, if and only if
    * they cannot be paired or the comparison of the members is difunctional.
    */
  lemma OrderExactly(u: Value, v: Value)
    requires SameCollections(u, v)
    ensures AnyOrder(u, v) <==> (Paired(u, v) ==> Difunctional(Range(|u.members|), Range(|v.members|), Accepted(u, v)))
  {
    hide SameCollections, Apart, OneToOne, Total, Matchable, Difunctional, PrimitivesFound, Objects, Primitives, Lists, GreedyRun,
      OrderFree;
    CollectionSizes(u, v);
    Split(u);
    Split(v);
    PrimitivesApart(u, v);
    FoundIsTotal(u, v);
    var r := Accepted(u, v);
    PartsMatch(Primitives(u), Objects(u), Primitives(v), Objects(v), r);
    PartsDifunctional(Primitives(u), Objects(u), Primitives(v), Objects(v), r);
    GreedyExactly(Objects(u), Objects(v), r);
    if Objects(u) == {} {
      NoObjects(u, v);
    } else if PrimitivesFound(u, v) {
      OutcomesAreRuns(u, v);
    } else {
      NotFound(u, v);
    }
  }

  lemma CollectionSizes(u: Value, v: Value)
    requires SameCollections(u, v)
    ensures u.Obj? && v.Obj? && |u.members| == |v.members|
  {
  }

  lemma NotFound(u: Value, v: Value)
    requires u.Obj? && v.Obj? && !PrimitivesFound(u, v) && !Paired(u, v)
    ensures AnyOrder(u, v)
  {
    hide Lists, Paired, PrimitivesFound;
  }

  lemma OutcomesAreRuns(u: Value, v: Value)
    requires u.Obj? && v.Obj? && PrimitivesFound(u, v) && Objects(u) != {}
    requires Paired(u, v) <==> Matchable(Objects(u), Objects(v), Accepted(u, v))
    ensures AnyOrder(u, v) <==> OrderFree(Objects(u), Objects(v), Accepted(u, v))
  {
    hide Paired, PrimitivesFound, Objects, Matchable, GreedyRun, Accepted;
    assert forall rows | Lists(rows, Objects(u)) :: rows != [] by {
      var x :| x in Objects(u);
      assert forall rows | Lists(rows, Objects(u)) :: x in rows;
    }
    hide Lists;
  }

  lemma NoObjects(u: Value, v: Value)
    requires SameCollections(u, v) && Objects(u) == {}
    requires OneToOne(Primitives(u), Primitives(v), Accepted(u, v))
    requires PrimitivesFound(u, v) <==> Total(Primitives(u), Primitives(v), Accepted(u, v))
    requires Paired(u, v) <==> PrimitivesFound(u, v) && Matchable(Objects(u), Objects(v), Accepted(u, v))
    ensures AnyOrder(u, v) && Difunctional(Objects(u), Objects(v), Accepted(u, v))
  {
    hide Lists, Paired, PrimitivesFound, Matchable, Total, OneToOne, Accepted, GreedyRun;
    Split(u);
    Split(v);
    if PrimitivesFound(u, v) {
      var f, g, image := Images(Primitives(u), Primitives(v), Accepted(u, v));
      SmallerSubset(image, Primitives(v));
      assert Objects(v) == {};
      EmptyMatchable(Accepted(u, v));
    }
    forall rows, cols | Lists(rows, Objects(u)) && Lists(cols, Objects(v))
      ensures Outcome(u, v, rows, cols) <==> Paired(u, v)
    {
      NothingListed(rows);
    }
  }

  lemma NothingListed(rows: seq<nat>)
    requires Lists(rows, {})
    ensures rows == []
  {
    if rows != [] {
      SomethingListed(rows, {});
    }
  }

  lemma SomethingListed(rows: seq<nat>, X: set<nat>)
    requires Lists(rows, X) && rows != []
    ensures X != {}
  {
    assert rows[0] in X;
  }

  // ---- where the answer is deep equality ----

  /** Well-formed, and everything in a Set or Map is tidy; outside of these there may be anything. */
  ghost predicate Fit(v: Value)
    decreases v
  {
    v.Obj? ==>
      && WellFormed(v)
      && (forall k | k in v.props :: Fit(v.props[k].value))
      && (Collection(v) ==> forall i | 0 <= i < |v.members| :: Tidy(v.members[i]))
      && (Collection(v) ==> forall i | 0 <= i < |v.values| :: Tidy(v.values[i]))
  }

  lemma {:induction false} TidyIsFit(v: Value)
    requires TidyBelow(v)
    ensures Fit(v)
    decreases v
  {
    if v.Obj? {
      BelowIs(v);
      forall k | k in v.props
        ensures Fit(v.props[k].value)
      {
        TidyIsFit(v.props[k].value);
      }
    }
  }

  lemma BelowIs(v: Value)
    requires v.Obj? && TidyBelow(v)
    ensures WellFormed(v)
    ensures forall k | k in v.props :: Tidy(v.props[k].value) && TidyBelow(v.props[k].value)
    ensures forall i | 0 <= i < |v.members| :: Tidy(v.members[i])
    ensures forall i | 0 <= i < |v.values| :: Tidy(v.values[i])
  {
  }

  lemma FitParts(v: Value)
    requires v.Obj? && Fit(v)
    ensures WellFormed(v)
    ensures forall k :: Fit(Get(v, k))
    ensures Collection(v) ==> TidyContents(v)
  {
    hide Collection, WellFormed;
  }

  /** Deep equality is what the comparison answers, on values whose collections hold only tidy ones. */
  lemma {:induction false} AcceptsIsEqual(u: Value, v: Value)
    requires Fit(u) && Fit(v)
    ensures Accepts(u, v) <==> Equal(u, v)
    decreases Size(u) + Size(v), 3
  {
    hide Fit, HeadsAgree, KeysAccepted, KeysEqual, MembersAccepted, MembersEqual, Size;
    if u.Obj? && v.Obj? && HeadsAgree(u, v) {
      KeysAcceptedIsEqual(u, v);
      if Collection(u) {
        MembersAcceptedIsEqual(u, v);
      } else {
        NoMembers(u, v);
      }
    }
  }

  lemma NoMembers(u: Value, v: Value)
    requires u.Obj? && v.Obj? && !Collection(u)
    ensures MembersAccepted(u, v) && MembersEqual(u, v)
  {
  }

  lemma KeysAcceptedIsEqual(u: Value, v: Value)
    requires u.Obj? && v.Obj? && Fit(u) && Fit(v)
    ensures KeysAccepted(u, v) <==> KeysEqual(u, v)
    decreases Size(u) + Size(v), 2
  {
    hide Fit, ComparedKeys, Accepts, Equal, Size;
    FitParts(u);
    FitParts(v);
    forall k | k in ComparedKeys(u)
      ensures ValueAccepted(u, v, k) <==> Equal(u.props[k].value, Get(v, k))
    {
      PropIsSmaller(u, k);
      PropIsSmaller(v, k);
      AcceptsIsEqual(Get(u, k), Get(v, k));
    }
  }

  lemma CollectionsAgree(u: Value, v: Value)
    requires u.Obj? && v.Obj? && HeadsAgree(u, v) && Collection(u) && WellFormed(u) && WellFormed(v)
    ensures SameCollections(u, v) && Collection(v) && Shape(v) == Shape(u)
    ensures Shape(u).Map? ==> |u.values| == |u.members| && |v.values| == |v.members|
  {
    hide SymbolsAgree, StringKeys;
  }

  lemma MembersAcceptedIsEqual(u: Value, v: Value)
    requires u.Obj? && v.Obj? && Fit(u) && Fit(v) && HeadsAgree(u, v) && Collection(u)
    ensures MembersAccepted(u, v) <==> MembersEqual(u, v)
    decreases Size(u) + Size(v), 2
  {
    hide *;
    FitParts(u);
    FitParts(v);
    CollectionsAgree(u, v);
    TidyContentsIs(u);
    TidyContentsIs(v);
    forall i: nat, j: nat | i < |u.members| && j < |v.members|
      ensures MemberAccepted(u, v, i, j) <==> PairEqual(u, v, i, j)
    {
      MemberAcceptedIsEqual(u, v, i, j);
    }
    SameAsRelated(u, v);
    RelatedIsDifunctional(u, v);
    OrderExactly(u, v);
    InsertionOrder(u, v);
    MembersEqualIs(u, v);
  }

  lemma InsertionOrder(u: Value, v: Value)
    requires u.Obj? && v.Obj? && Collection(u) && AnyOrder(u, v)
    ensures MembersAccepted(u, v) <==> Paired(u, v)
  {
    hide Outcome, Paired, Lists, Objects;
    ObjectLists(u);
    ObjectLists(v);
  }

  /** One member against one: for tidy ones the order of the arguments does not matter. */
  lemma MemberAcceptedIsEqual(u: Value, v: Value, i: nat, j: nat)
    requires u.Obj? && v.Obj? && i < |u.members| && j < |v.members| && Collection(u)
    requires Shape(u).Map? ==> |u.values| == |u.members| && |v.values| == |v.members|
    requires Tidy(u.members[i]) && Tidy(v.members[j])
    requires Shape(u).Map? ==> Tidy(u.values[i]) && Tidy(v.values[j])
    ensures MemberAccepted(u, v, i, j) <==> PairEqual(u, v, i, j)
    decreases Size(u) + Size(v), 1
  {
    hide Tidy, Size, Accepts, Equal, Shape, Collection;
    MemberIsSmaller(u, i);
    MemberIsSmaller(v, j);
    if u.members[i].Prim? {
      PrimitiveEqual(u.members[i], v.members[j]);
      if Shape(u).Map? {
        TidyAcceptsIsEqual(u.values[i], v.values[j]);
      }
    } else {
      TidyAcceptsIsEqual(v.members[j], u.members[i]);
      if Shape(u).Map? {
        TidyAcceptsIsEqual(v.values[j], u.values[i]);
      }
    }
  }

  lemma TidyAcceptsIsEqual(x: Value, y: Value)
    requires Tidy(x) && Tidy(y)
    ensures Accepts(x, y) <==> Equal(x, y)
    ensures Accepts(x, y) <==> Equal(y, x)
    decreases Size(x) + Size(y), 4
  {
    hide Accepts, Equal, Size;
    TidyIsFit(x);
    TidyIsFit(y);
    AcceptsIsEqual(x, y);
    EqualBothWays(x, y);
  }

  lemma EqualBothWays(x: Value, y: Value)
    requires Tidy(x) && Tidy(y)
    ensures Equal(x, y) <==> Equal(y, x)
  {
    hide Equal, Tidy;
    if Equal(x, y) {
      Symmetric(x, y);
    }
    if Equal(y, x) {
      Symmetric(y, x);
    }
  }

  /** A primitive equals nothing but itself. */
  lemma PrimitiveEqual(x: Value, y: Value)
    requires x.Prim?
    ensures Equal(x, y) <==> x == y
  {
  }

  // ---- members one to one ----

  /** Which members, and for a Map entries, of two collections are equal. */
  ghost function Related(u: Value, v: Value): (nat, nat) -> bool
    requires u.Obj? && v.Obj?
  {
    (i: nat, j: nat) => PairEqual(u, v, i, j)
  }

  lemma SameAsRelated(u: Value, v: Value)
    requires u.Obj? && v.Obj?
    requires forall i: nat, j: nat | i < |u.members| && j < |v.members| :: MemberAccepted(u, v, i, j) <==> PairEqual(u, v, i, j)
    ensures Paired(u, v) <==> Matchable(Range(|u.members|), Range(|v.members|), Related(u, v))
    ensures Difunctional(Range(|u.members|), Range(|v.members|), Accepted(u, v))
      <==> Difunctional(Range(|u.members|), Range(|v.members|), Related(u, v))
  {
    hide MemberAccepted, PairEqual, Matchable, Difunctional;
    SameRelation(Range(|u.members|), Range(|v.members|), Accepted(u, v), Related(u, v));
  }

  lemma MembersEqualIs(u: Value, v: Value)
    requires u.Obj? && v.Obj? && Collection(u)
    ensures MembersEqual(u, v) <==> Matchable(Range(|u.members|), Range(|v.members|), Related(u, v))
  {
    hide PairEqual, Bijection, Shape, Collection, Matchable, MembersEqual;
    if MembersEqual(u, v) {
      MembersGiveMatch(u, v);
    }
    if Matchable(Range(|u.members|), Range(|v.members|), Related(u, v)) {
      MatchGivesMembers(u, v);
    }
  }

  lemma MembersGiveMatch(u: Value, v: Value)
    requires u.Obj? && v.Obj? && Collection(u) && MembersEqual(u, v)
    ensures Matchable(Range(|u.members|), Range(|v.members|), Related(u, v))
  {
    hide PairEqual, Bijection, Collection;
    var f, g :| MembersMatch(u, v, f, g);
    MatchIsBijection(u, v, f, g);
    assert Matches(f, g, Range(|u.members|), Range(|v.members|), Related(u, v));
  }

  lemma MatchGivesMembers(u: Value, v: Value)
    requires u.Obj? && v.Obj? && Matchable(Range(|u.members|), Range(|v.members|), Related(u, v))
    ensures MembersEqual(u, v)
  {
    hide PairEqual, Bijection, Collection;
    var f, g :| Matches(f, g, Range(|u.members|), Range(|v.members|), Related(u, v));
    IsMatch(u, v, f, g);
  }

  ghost predicate TidyContents(v: Value)
    requires v.Obj?
  {
    && (forall i | 0 <= i < |v.members| :: Tidy(v.members[i]))
    && (forall i | 0 <= i < |v.values| :: Tidy(v.values[i]))
  }

  lemma RelatedIsDifunctional(u: Value, v: Value)
    requires u.Obj? && v.Obj? && TidyContents(u) && TidyContents(v)
    ensures Difunctional(Range(|u.members|), Range(|v.members|), Related(u, v))
  {
    hide TidyContents, PairEqual, Shape;
    forall i: nat, i': nat, j: nat, j': nat | PairEqual(u, v, i, j) && PairEqual(u, v, i', j) && PairEqual(u, v, i, j')
      ensures PairEqual(u, v, i', j')
    {
      PairsAround(u, v, i, i', j, j');
    }
  }

  lemma PairsAround(u: Value, v: Value, i: nat, i': nat, j: nat, j': nat)
    requires u.Obj? && v.Obj? && TidyContents(u) && TidyContents(v)
    requires PairEqual(u, v, i, j) && PairEqual(u, v, i', j) && PairEqual(u, v, i, j')
    ensures PairEqual(u, v, i', j')
  {
    hide Tidy, Equal, Shape;
    Around(u.members[i'], v.members[j], u.members[i], v.members[j']);
    if Shape(u).Map? {
      Around(u.values[i'], v.values[j], u.values[i], v.values[j']);
    }
  }

  lemma Around(x: Value, y: Value, x': Value, y': Value)
    requires Tidy(x) && Tidy(y) && Tidy(x') && Tidy(y')
    requires Equal(x, y) && Equal(x', y) && Equal(x', y')
    ensures Equal(x, y')
  {
    hide Equal, Tidy;
    Symmetric(x', y);
    Transitive(x, y, x');
    Transitive(x, x', y');
  }

  lemma TidyContentsIs(v: Value)
    requires v.Obj? && TidyContents(v)
    ensures forall i | 0 <= i < |v.members| :: Tidy(v.members[i])
    ensures forall i | 0 <= i < |v.values| :: Tidy(v.values[i])
  {
  }

  // ---- consequences and a failing input ----

  ghost predicate SameBothWays(u: Value, v: Value) {
    Accepts(u, v) <==> Accepts(v, u)
  }

  /** With tidy insides, the answers are the same in both orders of the arguments exactly at objects that are regular or lonely. */
  lemma SymmetryOfAnswers(u: Value)
    requires u.Obj? && TidyBelow(u)
    ensures (forall v | Tidy(v) :: SameBothWays(u, v)) <==> Regular(u) || Lonely(u)
  {
    hide TidyBelow, Tidy, Equal, Accepts, Regular;
    TidyIsFit(u);
    forall v | Tidy(v)
      ensures Accepts(u, v) <==> Equal(u, v)
      ensures Accepts(v, u) <==> Equal(v, u)
    {
      TidyIsBelow(v);
      TidyIsFit(v);
      AcceptsIsEqual(u, v);
      AcceptsIsEqual(v, u);
    }
    SymmetryExactly(u);
    if Regular(u) || Lonely(u) {
      assert forall v | Tidy(v) :: Equal(u, v) <==> Equal(v, u);
    } else {
      var v :| Tidy(v) && !(Equal(u, v) <==> Equal(v, u));
      assert !SameBothWays(u, v);
    }
  }

  lemma TidyIsBelow(v: Value)
    requires Tidy(v)
    ensures TidyBelow(v)
  {
  }

  function InvalidDate(id: nat): Value {
    Obj(id, 0, "Date", Date(Invalid), [], map[], [], [])
  }

  /** new Date(NaN) twice: tidy, each a copy of the other, but not deeply equal, and the answer is no. */
  lemma InvalidDatesDiffer()
    ensures var u, v := InvalidDate(1), InvalidDate(2);
      Tidy(u) && Tidy(v) && Clone(u, v) && !Equal(u, v) && !Accepts(u, v) && Accepts(u, u)
  {
    var u, v := InvalidDate(1), InvalidDate(2);
    LonelyUnequal(u, v);
    assert OwnSymbols(u) == EnumerableSymbols(u) && OwnSymbols(v) == EnumerableSymbols(v);
    hide Accepts, Equal;
    TidyIsFit(u);
    TidyIsFit(v);
    AcceptsIsEqual(u, v);
    SameAccepted(u);
  }

  lemma SameAccepted(u: Value)
    ensures Accepts(u, u)
  {
  }

  function WithUndefined(id: nat): Value {
    ArrayWith(id, Name("x"), Prop(true, Prim(Undefined)))
  }

  function WithOne(id: nat): Value {
    ArrayWith(id, Name("y"), Prop(true, Prim(Num(Finite(1.0)))))
  }

  function SetOf(id: nat, x: Value, y: Value): Value {
    Obj(id, 0, "Set", Set, [], map[], [x, y], [])
  }

  /**
    * Set{[] with y: 1, [] with x: undefined} and Set{[] with x: undefined, [] with y: 1}: the members can be paired, and
    * with the first Set filled the other way round the answer is yes, but it is no.
    */
  lemma OrderMatters()
    ensures var b := SetOf(6, WithUndefined(1), WithOne(2));
      var a, a' := SetOf(5, WithOne(3), WithUndefined(4)), SetOf(5, WithUndefined(4), WithOne(3));
      Paired(a, b) && !Accepts(a, b) && Accepts(a', b) && Sound(a) && Sound(a') && Sound(b)
  {
    OneKeySound(1, Name("x"), Prop(true, Prim(Undefined)));
    OneKeySound(4, Name("x"), Prop(true, Prim(Undefined)));
    OneKeySound(2, Name("y"), Prop(true, Prim(Num(Finite(1.0)))));
    OneKeySound(3, Name("y"), Prop(true, Prim(Num(Finite(1.0)))));
    hide Accepts, Sound, Paired;
    SoundSet(6, WithUndefined(1), WithOne(2));
    SoundSet(5, WithOne(3), WithUndefined(4));
    SoundSet(5, WithUndefined(4), WithOne(3));
    FourAnswers();
    TwoByTwo(WithOne(3), WithUndefined(4), WithUndefined(1), WithOne(2));
    TwoByTwo(WithUndefined(4), WithOne(3), WithUndefined(1), WithOne(2));
  }

  lemma FourAnswers()
    ensures Accepts(WithUndefined(1), WithUndefined(4)) && Accepts(WithUndefined(1), WithOne(3))
    ensures Accepts(WithOne(2), WithOne(3)) && !Accepts(WithOne(2), WithUndefined(4))
  {
    hide Accepts;
    var x, y := Name("x"), Name("y");
    var p, q := Prop(true, Prim(Undefined)), Prop(true, Prim(Num(Finite(1.0))));
    OneKeyAnswer(1, x, p, 4, x, p);
    OneKeyAnswer(1, x, p, 3, y, q);
    OneKeyAnswer(2, y, q, 3, y, q);
    OneKeyAnswer(2, y, q, 4, x, p);
  }

  lemma OneKeyAnswer(i: nat, x: Key, p: Prop, j: nat, y: Key, q: Prop)
    requires x.Name? && y.Name? && x.name != "size" && y.name != "size"
    requires p.enumerable && q.enumerable && p.value.Prim? && q.value.Prim? && i != j
    ensures Accepts(ArrayWith(i, x, p), ArrayWith(j, y, q)) <==> (if x == y then q.value == p.value else p.value == Prim(Undefined))
  {
    var u, v := ArrayWith(i, x, p), ArrayWith(j, y, q);
    OneKeyHeads(i, x, p, j, y, q);
    OneKeyCompared(i, x, p, v);
    OneKeyTidy(i, x, p);
    OneKeyTidy(j, y, q);
    hide *;
    TidyIsFit(u);
    TidyIsFit(v);
    AcceptsIsEqual(u, v);
    if KeysEqual(u, v) {
      EqualFrom(u, v);
    } else {
      UnequalFrom(u, v);
    }
  }

  lemma OneKeySound(i: nat, x: Key, p: Prop)
    requires x.Name? && x.name != "size" && p.value.Prim?
    ensures Sound(ArrayWith(i, x, p))
  {
  }

  /** A Set of two objects against another one. */
  lemma TwoByTwo(x: Value, y: Value, x': Value, y': Value)
    requires x.Obj? && y.Obj? && x'.Obj? && y'.Obj? && x != y && x' != y'
    ensures Accepts(SetOf(5, x, y), SetOf(6, x', y'))
      <==> if Accepts(x', x) then Accepts(y', y) else Accepts(x', y) && Accepts(y', x)
    ensures Accepts(x', y) && Accepts(y', x) ==> Paired(SetOf(5, x, y), SetOf(6, x', y'))
  {
    hide *;
    var a, b := SetOf(5, x, y), SetOf(6, x', y');
    TwoMembers(5, x, y);
    TwoMembers(6, x', y');
    SetHeads(x, y, x', y');
    SetAnswer(a, b);
    TwoRuns(Accepted(a, b));
    MemberAnswers(x, y, x', y');
    CrossPairing(a, b);
  }

  lemma TwoMembers(id: nat, x: Value, y: Value)
    requires x.Obj? && y.Obj?
    ensures var v := SetOf(id, x, y);
      v.Obj? && v.id == id && v.members == [x, y] && v.members[0].Obj? && v.members[1].Obj? && ObjectsBelow(v.members, |v.members|) == [0, 1] && Shape(v) == Set
  {
    assert ObjectsBelow([x, y], 2) == ObjectsBelow([x, y], 1) + [1];
  }

  lemma SetHeads(x: Value, y: Value, x': Value, y': Value)
    ensures HeadsAgree(SetOf(5, x, y), SetOf(6, x', y')) && KeysAccepted(SetOf(5, x, y), SetOf(6, x', y'))
  {
    assert ComparedKeys(SetOf(5, x, y)) == {};
  }

  lemma SetAnswer(a: Value, b: Value)
    requires a.Obj? && b.Obj? && a.id != b.id && HeadsAgree(a, b) && KeysAccepted(a, b) && Shape(a).Set?
    requires |a.members| == 2 && a.members[0].Obj? && a.members[1].Obj?
    requires ObjectsBelow(a.members, |a.members|) == [0, 1] && ObjectsBelow(b.members, |b.members|) == [0, 1]
    ensures Accepts(a, b) <==> GreedyRun([0, 1], [0, 1], Accepted(a, b))
  {
    hide HeadsAgree, KeysAccepted, MembersAccepted, GreedyRun, Accepted, ObjectsBelow, Accepts;
    AcceptsIs(a, b);
    MembersAcceptedIs(a, b);
    assert PrimitivesFound(a, b);
  }

  lemma TwoRuns(r: (nat, nat) -> bool)
    ensures GreedyRun([0, 1], [0, 1], r) <==> if r(0, 0) then r(1, 1) else r(1, 0) && r(0, 1)
  {
    assert [0, 1][1..] == [1];
    if r(0, 0) {
      assert FirstRow([0, 1], 0, r) == 0;
      assert Without([0, 1], 0) == [1];
      OneRun(1, r);
    } else if r(1, 0) {
      assert FirstRow([0, 1], 0, r) == 1;
      assert Without([0, 1], 1) == [0];
      OneRun(0, r);
    }
  }

  lemma OneRun(i: nat, r: (nat, nat) -> bool)
    ensures GreedyRun([i], [1], r) <==> r(i, 1)
  {
    if r(i, 1) {
      assert FirstRow([i], 1, r) == 0;
      assert Without([i], 0) == [];
    }
  }

  lemma MemberAnswers(x: Value, y: Value, x': Value, y': Value)
    requires x.Obj? && y.Obj?
    ensures var a, b := SetOf(5, x, y), SetOf(6, x', y');
      && (Accepted(a, b)(0, 0) <==> Accepts(x', x)) && (Accepted(a, b)(1, 0) <==> Accepts(x', y))
      && (Accepted(a, b)(0, 1) <==> Accepts(y', x)) && (Accepted(a, b)(1, 1) <==> Accepts(y', y))
  {
    hide Accepts, Size;
  }

  lemma CrossPairing(a: Value, b: Value)
    requires a.Obj? && b.Obj? && |a.members| == 2 && |b.members| == 2
    ensures Accepted(a, b)(1, 0) && Accepted(a, b)(0, 1) ==> Paired(a, b)
  {
    hide Accepted;
    var f := map[0 := 1, 1 := 0];
    if Accepted(a, b)(1, 0) && Accepted(a, b)(0, 1) {
      assert Matches(f, f, Range(2), Range(2), Accepted(a, b));
    }
  }

  lemma SoundSet(id: nat, x: Value, y: Value)
    requires Sound(x) && Sound(y) && x.Obj? && y.Obj? && x != y
    ensures Sound(SetOf(id, x, y))
  {
  }
}
