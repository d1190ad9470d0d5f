/** One-to-one matchings between two index sets, and why greedy matching finds them. */
module Matching {

  /** f and g are inverse to each other between X and Y. */
  ghost predicate Bijection(f: map<nat, nat>, g: map<nat, nat>, X: set<nat>, Y: set<nat>) {
    && (forall i | i in X :: i in f && f[i] in Y && f[i] in g && g[f[i]] == i)
    && (forall j | j in Y :: j in g && g[j] in X && g[j] in f && f[g[j]] == j)
  }

  /** The indices below n. */
  function Range(n: nat): (r: set<nat>)
    ensures forall i: nat :: i in r <==> i < n
    ensures |r| == n
  {
    if n == 0 then {} else Range(n - 1) + {n - 1}
  }

  /** Some one-to-one matching of X with Y uses related pairs only. */
  ghost predicate Matchable(X: set<nat>, Y: set<nat>, r: (nat, nat) -> bool) {
    exists f, g :: Matches(f, g, X, Y, r)
  }

  ghost predicate Matches(f: map<nat, nat>, g: map<nat, nat>, X: set<nat>, Y: set<nat>, r: (nat, nat) -> bool) {
    Bijection(f, g, X, Y) && forall i | i in X :: r(i, f[i])
  }

  /** Two rows with a common column agree on every column: what an equivalence gives. */
  ghost predicate Difunctional(X: set<nat>, Y: set<nat>, r: (nat, nat) -> bool) {
    forall i, i', j, j' | i in X && i' in X && j in Y && j' in Y && r(i, j) && r(i', j) && r(i, j') :: r(i', j')
  }

  lemma EmptyMatchable(r: (nat, nat) -> bool)
    ensures Matchable({}, {}, r)
  {
    assert Matches(map[], map[], {}, {}, r);
  }

  /** A column that no row is related to cannot be matched. */
  lemma NoPartner(X: set<nat>, Y: set<nat>, r: (nat, nat) -> bool, j: nat)
    requires j in Y && forall i | i in X :: !r(i, j)
    ensures !Matchable(X, Y, r)
  {
    forall f, g | Bijection(f, g, X, Y)
      ensures !Matches(f, g, X, Y, r)
    {
      assert g[j] in X;
    }
  }

  /** A row that is related to no column cannot be matched. */
  lemma RowWithoutPartner(X: set<nat>, Y: set<nat>, r: (nat, nat) -> bool, i: nat)
    requires i in X && forall j | j in Y :: !r(i, j)
    ensures !Matchable(X, Y, r)
  {
  }

  lemma AddPair(f: map<nat, nat>, g: map<nat, nat>, X: set<nat>, Y: set<nat>, i: nat, j: nat)
    requires Bijection(f, g, X, Y) && i !in X && j !in Y
    ensures Bijection(f[i := j], g[j := i], X + {i}, Y + {j})
  {
  }

  lemma RemovePair(f: map<nat, nat>, g: map<nat, nat>, X: set<nat>, Y: set<nat>, i: nat)
    requires Bijection(f, g, X, Y) && i in X
    ensures Bijection(f, g, X - {i}, Y - {f[i]})
  {
  }

  /** Two rows of a bijection swap their columns. */
  lemma SwapRows(f: map<nat, nat>, g: map<nat, nat>, X: set<nat>, Y: set<nat>, i: nat, i': nat)
    requires Bijection(f, g, X, Y) && i in X && i' in X
    ensures Bijection(f[i := f[i']][i' := f[i]], g[f[i] := i'][f[i'] := i], X, Y)
  {
  }

  /** Taking any related pair out of a difunctional relation loses nothing: greedy choices are safe. */
  lemma Exchange(X: set<nat>, Y: set<nat>, r: (nat, nat) -> bool, i: nat, j: nat)
    requires Difunctional(X, Y, r) && i in X && j in Y && r(i, j)
    ensures Matchable(X, Y, r) <==> Matchable(X - {i}, Y - {j}, r)
  {
    hide Difunctional, Matches;
    if Matchable(X - {i}, Y - {j}, r) {
      var f, g :| Matches(f, g, X - {i}, Y - {j}, r);
      PutBack(X, Y, r, i, j, f, g);
    }
    if Matchable(X, Y, r) {
      var f, g :| Matches(f, g, X, Y, r);
      TakeOut(X, Y, r, i, j, f, g);
    }
  }

  lemma PutBack(X: set<nat>, Y: set<nat>, r: (nat, nat) -> bool, i: nat, j: nat, f: map<nat, nat>, g: map<nat, nat>)
    requires i in X && j in Y && r(i, j)
    requires Matches(f, g, X - {i}, Y - {j}, r)
    ensures Matchable(X, Y, r)
  {
    AddPair(f, g, X - {i}, Y - {j}, i, j);
    assert X - {i} + {i} == X && Y - {j} + {j} == Y;
    var f' := f[i := j];
    assert Matches(f', g[j := i], X, Y, r);
  }

  lemma TakeOut(X: set<nat>, Y: set<nat>, r: (nat, nat) -> bool, i: nat, j: nat, f: map<nat, nat>, g: map<nat, nat>)
    requires Difunctional(X, Y, r) && i in X && j in Y && r(i, j)
    requires Matches(f, g, X, Y, r)
    ensures Matchable(X - {i}, Y - {j}, r)
  {
    var i' := g[j];
    assert r(i', j) && r(i, f[i]) && r(i', f[i]);
    SwapRows(f, g, X, Y, i, i');
    var f', g' := f[i := f[i']][i' := f[i]], g[f[i] := i'][f[i'] := i];
    RemovePair(f', g', X, Y, i);
    assert Matches(f', g', X - {i}, Y - {j}, r);
  }

  // ---- inverses and composites ----

  lemma Inverse(f: map<nat, nat>, g: map<nat, nat>, X: set<nat>, Y: set<nat>)
    requires Bijection(f, g, X, Y)
    ensures Bijection(g, f, Y, X)
  {
  }

  lemma Compose(f: map<nat, nat>, g: map<nat, nat>, X: set<nat>, Y: set<nat>,
                f': map<nat, nat>, g': map<nat, nat>, Z: set<nat>)
    returns (h: map<nat, nat>, k: map<nat, nat>)
    requires Bijection(f, g, X, Y) && Bijection(f', g', Y, Z)
    ensures Bijection(h, k, X, Z)
    ensures forall i | i in X :: i in h && i in f && f[i] in f' && h[i] == f'[f[i]]
  {
    h, k := map i | i in X :: f'[f[i]], map z | z in Z :: g[g'[z]];
  }

  lemma Identity(X: set<nat>)
    ensures Bijection(map i | i in X :: i, map i | i in X :: i, X, X)
  {
  }

  /** A bijection preserves size. */
  lemma {:induction false} SameSize(f: map<nat, nat>, g: map<nat, nat>, X: set<nat>, Y: set<nat>)
    requires Bijection(f, g, X, Y)
    ensures |X| == |Y|
    decreases |X|
  {
    if X != {} {
      var i :| i in X;
      RemovePair(f, g, X, Y, i);
      SameSize(f, g, X - {i}, Y - {f[i]});
    } else {
      assert Y == {};
    }
  }

  // ---- relations with a one-to-one part ----

  /** r relates P-indices to P-indices only, and O-indices to O-indices. */
  ghost predicate Apart(PX: set<nat>, OX: set<nat>, PY: set<nat>, OY: set<nat>, r: (nat, nat) -> bool) {
    forall i, j | i in PX + OX && j in PY + OY && r(i, j) :: i in PX <==> j in PY
  }

  ghost predicate OneToOne(X: set<nat>, Y: set<nat>, r: (nat, nat) -> bool) {
    forall i, i', j, j' | i in X && i' in X && j in Y && j' in Y && r(i, j) && r(i', j') :: i == i' <==> j == j'
  }

  /** Every row is related to some column. */
  ghost predicate Total(X: set<nat>, Y: set<nat>, r: (nat, nat) -> bool) {
    forall i | i in X :: exists j | j in Y :: r(i, j)
  }

  /** With a one-to-one part set apart, a matching is one of the rest, provided every row of that part has its column. */
  lemma PartsMatch(PX: set<nat>, OX: set<nat>, PY: set<nat>, OY: set<nat>, r: (nat, nat) -> bool)
    requires PX !! OX && PY !! OY && Apart(PX, OX, PY, OY, r) && OneToOne(PX, PY, r) && |PX| + |OX| == |PY| + |OY|
    ensures Matchable(PX + OX, PY + OY, r) <==> Total(PX, PY, r) && Matchable(OX, OY, r)
  {
    hide Apart, OneToOne, Total, Matches;
    if Matchable(PX + OX, PY + OY, r) {
      var f, g :| Matches(f, g, PX + OX, PY + OY, r);
      MatchParts(PX, OX, PY, OY, r, f, g);
    }
    if Total(PX, PY, r) && Matchable(OX, OY, r) {
      var f, g :| Matches(f, g, OX, OY, r);
      MatchesIs(f, g, OX, OY, r);
      SameSize(f, g, OX, OY);
      var p, q := TotalMatches(PX, PY, r);
      JoinParts(PX, OX, PY, OY, r, f, g, p, q);
    }
  }

  lemma MatchesIs(f: map<nat, nat>, g: map<nat, nat>, X: set<nat>, Y: set<nat>, r: (nat, nat) -> bool)
    requires Matches(f, g, X, Y, r)
    ensures Bijection(f, g, X, Y)
  {
  }

  lemma MatchParts(PX: set<nat>, OX: set<nat>, PY: set<nat>, OY: set<nat>, r: (nat, nat) -> bool,
                   f: map<nat, nat>, g: map<nat, nat>)
    requires PX !! OX && PY !! OY && Apart(PX, OX, PY, OY, r) && Matches(f, g, PX + OX, PY + OY, r)
    ensures Total(PX, PY, r) && Matchable(OX, OY, r)
  {
    forall i | i in PX
      ensures exists j | j in PY :: r(i, j)
    {
      assert i in PX + OX && f[i] in PY + OY && r(i, f[i]);
    }
    forall j | j in OY
      ensures g[j] in OX
    {
      assert j in PY + OY && g[j] in PX + OX && r(g[j], f[g[j]]);
    }
    forall i | i in OX
      ensures f[i] in OY && r(i, f[i])
    {
      assert i in PX + OX && f[i] in PY + OY && r(i, f[i]);
    }
    assert Matches(f, g, OX, OY, r);
  }

  ghost function Column(Y: set<nat>, r: (nat, nat) -> bool, i: nat): nat {
    if exists j | j in Y :: r(i, j) then var j :| j in Y && r(i, j); j else 0
  }

  ghost function Row(X: set<nat>, r: (nat, nat) -> bool, j: nat): nat {
    if exists i | i in X :: r(i, j) then var i :| i in X && r(i, j); i else 0
  }

  /** The columns that the rows of a one-to-one part have. */
  lemma Images(X: set<nat>, Y: set<nat>, r: (nat, nat) -> bool)
    returns (f: map<nat, nat>, g: map<nat, nat>, image: set<nat>)
    requires OneToOne(X, Y, r) && Total(X, Y, r)
    ensures Matches(f, g, X, image, r) && image <= Y && |X| == |image|
  {
    hide OneToOne, Total, Column, Row;
    f := map i | i in X :: Column(Y, r, i);
    image := set i | i in X :: f[i];
    g := map j | j in image :: Row(X, r, j);
    forall i | i in X
      ensures f[i] in Y && r(i, f[i]) && f[i] in image && g[f[i]] == i
    {
      ImagePair(X, Y, r, i);
      assert f[i] in image;
    }
    assert Bijection(f, g, X, image);
    SameSize(f, g, X, image);
  }

  lemma ImagePair(X: set<nat>, Y: set<nat>, r: (nat, nat) -> bool, i: nat)
    requires OneToOne(X, Y, r) && Total(X, Y, r) && i in X
    ensures var j := Column(Y, r, i); j in Y && r(i, j) && Row(X, r, j) == i
  {
    var j := Column(Y, r, i);
    assert exists j' | j' in Y :: r(i, j');
    var i' := Row(X, r, j);
    assert i' in X && r(i', j);
  }

  /** If the sizes agree these are all the columns. */
  lemma TotalMatches(X: set<nat>, Y: set<nat>, r: (nat, nat) -> bool) returns (f: map<nat, nat>, g: map<nat, nat>)
    requires OneToOne(X, Y, r) && Total(X, Y, r) && |X| == |Y|
    ensures Matches(f, g, X, Y, r)
  {
    hide OneToOne, Total, Matches;
    var image;
    f, g, image := Images(X, Y, r);
    SubsetOfSameSize(image, Y);
  }

  lemma SubsetOfSameSize<T>(a: set<T>, b: set<T>)
    requires a <= b && |a| == |b|
    ensures a == b
  {
    if x :| x in b && x !in a {
      SmallerSubset(a, b - {x});
      assert false;
    }
  }

  lemma SmallerSubset<T>(a: set<T>, b: set<T>)
    requires a <= b
    ensures |a| <= |b|
    decreases a
  {
    if a != {} {
      var x :| x in a;
      SmallerSubset(a - {x}, b - {x});
    }
  }

  lemma JoinParts(PX: set<nat>, OX: set<nat>, PY: set<nat>, OY: set<nat>, r: (nat, nat) -> bool,
                  f: map<nat, nat>, g: map<nat, nat>, p: map<nat, nat>, q: map<nat, nat>)
    requires PX !! OX && PY !! OY && Matches(f, g, OX, OY, r) && Matches(p, q, PX, PY, r)
    ensures Matchable(PX + OX, PY + OY, r)
  {
    var h := map i | i in PX + OX :: if i in PX then p[i] else f[i];
    var k := map j | j in PY + OY :: if j in PY then q[j] else g[j];
    assert Bijection(h, k, PX + OX, PY + OY);
    assert Matches(h, k, PX + OX, PY + OY, r);
  }

  /** A one-to-one part never spoils difunctionality. */
  lemma PartsDifunctional(PX: set<nat>, OX: set<nat>, PY: set<nat>, OY: set<nat>, r: (nat, nat) -> bool)
    requires PX !! OX && PY !! OY && Apart(PX, OX, PY, OY, r) && OneToOne(PX, PY, r)
    ensures Difunctional(PX + OX, PY + OY, r) <==> Difunctional(OX, OY, r)
  {
    if Difunctional(OX, OY, r) {
      forall i, i', j, j' | i in PX + OX && i' in PX + OX && j in PY + OY && j' in PY + OY && r(i, j) && r(i', j) && r(i, j')
        ensures r(i', j')
      {
        assert i in PX <==> j in PY;
        assert i' in PX <==> j in PY;
        assert i in PX <==> j' in PY;
        if i in PX {
          assert i == i' <==> j == j;
        }
      }
    }
    if Difunctional(PX + OX, PY + OY, r) {
      forall i, i', j, j' | i in OX && i' in OX && j in OY && j' in OY && r(i, j) && r(i', j) && r(i, j')
        ensures r(i', j')
      {
        assert i in PX + OX && i' in PX + OX && j in PY + OY && j' in PY + OY;
      }
    }
  }

  /** Only the values of the relation matter. */
  lemma SameRelation(X: set<nat>, Y: set<nat>, r: (nat, nat) -> bool, s: (nat, nat) -> bool)
    requires forall i, j | i in X && j in Y :: r(i, j) <==> s(i, j)
    ensures Matchable(X, Y, r) <==> Matchable(X, Y, s)
    ensures Difunctional(X, Y, r) <==> Difunctional(X, Y, s)
  {
    if Matchable(X, Y, r) {
      var f, g :| Matches(f, g, X, Y, r);
      assert Matches(f, g, X, Y, s);
    }
    if Matchable(X, Y, s) {
      var f, g :| Matches(f, g, X, Y, s);
      assert Matches(f, g, X, Y, r);
    }
  }
}
