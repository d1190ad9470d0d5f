/** Greedy matching in any order, and exactly when its answer does not depend on the order. */
module GreedyMatching {
  import opened Matching

  // ---- greedy runs ----

  /** The list holds exactly the indices of X, each once. */
  ghost predicate Lists(list: seq<nat>, X: set<nat>) {
    && (forall i :: i in list <==> i in X)
    && forall p, q | 0 <= p < q < |list| :: list[p] != list[q]
  }

  /** The position of the first row on the list that is related to the column; the length of the list if none is. */
  ghost function FirstRow(rows: seq<nat>, j: nat, r: (nat, nat) -> bool): (p: nat)
    ensures p <= |rows|
    ensures forall q | 0 <= q < p :: !r(rows[q], j)
    ensures p < |rows| ==> r(rows[p], j)
  {
    if rows == [] then 0
    else if r(rows[0], j) then 0
    else
      var p := FirstRow(rows[1..], j, r);
      assert forall q | 0 <= q < p :: rows[q + 1] == rows[1..][q];
      assert forall q | 1 <= q < p + 1 :: rows[q] == rows[1..][q - 1];
      p + 1
  }

  function Without(list: seq<nat>, p: nat): seq<nat>
    requires p < |list|
  {
    list[..p] + list[p + 1..]
  }

  /** Each column in turn takes the first row left that is related to it; in the end no row may be left. */
  ghost predicate GreedyRun(rows: seq<nat>, cols: seq<nat>, r: (nat, nat) -> bool)
    decreases |cols|
  {
    if cols == [] then rows == []
    else
      var p := FirstRow(rows, cols[0], r);
      p < |rows| && GreedyRun(Without(rows, p), cols[1..], r)
  }

  lemma ListsWithout(list: seq<nat>, X: set<nat>, p: nat)
    requires Lists(list, X) && p < |list|
    ensures list[p] in X && Lists(Without(list, p), X - {list[p]})
  {
    var rest := Without(list, p);
    forall x
      ensures x in rest <==> x in X - {list[p]}
    {
      if x in X && x != list[p] {
        assert x in list;
        var q :| 0 <= q < |list| && list[q] == x;
        assert rest[if q < p then q else q - 1] == x;
      }
      if x in rest {
        assert x in list;
      }
    }
  }

  lemma ListsTail(list: seq<nat>, X: set<nat>)
    requires Lists(list, X) && list != []
    ensures list[0] in X && Lists(list[1..], X - {list[0]})
  {
    ListsWithout(list, X, 0);
    assert Without(list, 0) == list[1..];
  }

  /** What a greedy run finds is a matching, for any relation. */
  lemma {:induction false} GreedyIsSound(rows: seq<nat>, cols: seq<nat>, r: (nat, nat) -> bool, X: set<nat>, Y: set<nat>)
    requires Lists(rows, X) && Lists(cols, Y) && GreedyRun(rows, cols, r)
    ensures Matchable(X, Y, r)
    decreases |cols|
  {
    hide Lists, Matchable, Matches, Bijection;
    if cols == [] {
      ListsNothing(rows, X);
      ListsNothing(cols, Y);
      EmptyMatchable(r);
    } else {
      var p := FirstRow(rows, cols[0], r);
      ListsWithout(rows, X, p);
      ListsTail(cols, Y);
      GreedyIsSound(Without(rows, p), cols[1..], r, X - {rows[p]}, Y - {cols[0]});
      MatchableIs(X - {rows[p]}, Y - {cols[0]}, r);
      var f, g :| Matches(f, g, X - {rows[p]}, Y - {cols[0]}, r);
      PutBack(X, Y, r, rows[p], cols[0], f, g);
    }
  }

  lemma MatchableIs(X: set<nat>, Y: set<nat>, r: (nat, nat) -> bool)
    ensures Matchable(X, Y, r) <==> exists f, g :: Matches(f, g, X, Y, r)
  {
    hide Matches;
  }

  lemma ListsNothing(list: seq<nat>, X: set<nat>)
    requires Lists(list, X) && list == []
    ensures X == {}
  {
  }

  /** On a difunctional relation a greedy run succeeds exactly when there is a matching. */
  lemma {:induction false} GreedyFinds(rows: seq<nat>, cols: seq<nat>, r: (nat, nat) -> bool, X: set<nat>, Y: set<nat>)
    requires Lists(rows, X) && Lists(cols, Y) && Difunctional(X, Y, r)
    ensures GreedyRun(rows, cols, r) <==> Matchable(X, Y, r)
    decreases |cols|
  {
    hide Lists, Matchable, Matches, Difunctional;
    if cols == [] {
      ListsNothing(cols, Y);
      OnlyEmptyMatches(rows, X, r);
    } else {
      var j := cols[0];
      var p := FirstRow(rows, j, r);
      ListsTail(cols, Y);
      if p < |rows| {
        ListsWithout(rows, X, p);
        SmallerDifunctional(X, Y, r, rows[p], j);
        GreedyFinds(Without(rows, p), cols[1..], r, X - {rows[p]}, Y - {j});
        Exchange(X, Y, r, rows[p], j);
      } else {
        NoRowListed(rows, X, j, r);
        NoPartner(X, Y, r, j);
      }
    }
  }

  lemma OnlyEmptyMatches(rows: seq<nat>, X: set<nat>, r: (nat, nat) -> bool)
    requires Lists(rows, X)
    ensures rows == [] <==> Matchable(X, {}, r)
  {
    if rows == [] {
      assert X == {};
      EmptyMatchable(r);
    } else {
      assert rows[0] in X;
      RowWithoutPartner(X, {}, r, rows[0]);
    }
  }

  lemma SmallerDifunctional(X: set<nat>, Y: set<nat>, r: (nat, nat) -> bool, i: nat, j: nat)
    requires Difunctional(X, Y, r)
    ensures Difunctional(X - {i}, Y - {j}, r)
  {
  }

  lemma NoRowListed(rows: seq<nat>, X: set<nat>, j: nat, r: (nat, nat) -> bool)
    requires Lists(rows, X) && forall q | 0 <= q < |rows| :: !r(rows[q], j)
    ensures forall i | i in X :: !r(i, j)
  {
    forall i | i in X
      ensures !r(i, j)
    {
      assert i in rows;
    }
  }

  // ---- exactly when greedy runs may be trusted ----

  /** Whatever the two orders are, a greedy run succeeds exactly when there is a matching. */
  ghost predicate OrderFree(X: set<nat>, Y: set<nat>, r: (nat, nat) -> bool) {
    forall rows, cols | Lists(rows, X) && Lists(cols, Y) :: GreedyRun(rows, cols, r) <==> Matchable(X, Y, r)
  }

  /** Greedy matching is right in all orders if and only if there is no matching or the relation is difunctional. */
  lemma GreedyExactly(X: set<nat>, Y: set<nat>, r: (nat, nat) -> bool)
    ensures OrderFree(X, Y, r) <==> (Matchable(X, Y, r) ==> Difunctional(X, Y, r))
  {
    hide Lists, Matchable, GreedyRun;
    if Matchable(X, Y, r) && !Difunctional(X, Y, r) {
      var i, i', j, j' :| i in X && i' in X && j in Y && j' in Y && r(i, j) && r(i', j) && r(i, j') && !r(i', j');
      var rows, cols := StuckOrder(X, Y, r, i, i', j, j');
      assert !OrderFree(X, Y, r);
    } else {
      forall rows, cols | Lists(rows, X) && Lists(cols, Y)
        ensures GreedyRun(rows, cols, r) <==> Matchable(X, Y, r)
      {
        if Difunctional(X, Y, r) {
          GreedyFinds(rows, cols, r, X, Y);
        } else if GreedyRun(rows, cols, r) {
          GreedyIsSound(rows, cols, r, X, Y);
        }
      }
    }
  }

  /** A gap in the relation: an order in which a greedy run gets stuck although there is a matching. */
  lemma StuckOrder(X: set<nat>, Y: set<nat>, r: (nat, nat) -> bool, i: nat, i': nat, j: nat, j': nat)
    returns (rows: seq<nat>, cols: seq<nat>)
    requires i in X && i' in X && j in Y && j' in Y && r(i, j) && r(i', j) && r(i, j') && !r(i', j')
    ensures Lists(rows, X) && Lists(cols, Y) && !GreedyRun(rows, cols, r)
  {
    hide Lists, Matchable, Matches, GreedyRun;
    var X', Y' := X - {i} - {i'}, Y - {j} - {j'};
    assert X == X' + {i} + {i'} && Y == Y' + {j} + {j'};
    if Matchable(X', Y', r) {
      MatchableIs(X', Y', r);
      var f, g :| Matches(f, g, X', Y', r);
      rows, cols := Aligned(X', Y', r, f, g);
      ListsPair(rows, X', i, i');
      ListsPair(cols, Y', j, j');
      StuckAtTheEnd([i] + rows, [j] + cols, r, i', j');
      rows, cols := [i] + rows + [i'], [j] + cols + [j'];
    } else {
      rows := SomeList(X');
      cols := SomeList(Y');
      ListsPair(rows, X', i', i);
      ListsPair(cols, Y', j, j');
      assert X' + {i'} + {i} == X;
      TwoTaken(rows, cols, r, i, i', j, j', X', Y');
      rows, cols := [i', i] + rows, [j, j'] + cols;
    }
  }

  /** Two more indices, around a list or in front of it. */
  lemma ListsPair(list: seq<nat>, X: set<nat>, x: nat, y: nat)
    requires Lists(list, X) && x !in X && y !in X && x != y
    ensures Lists([x] + list + [y], X + {x} + {y})
    ensures Lists([x, y] + list, X + {x} + {y})
  {
    forall z
      ensures z in [x] + list + [y] <==> z in X + {x} + {y}
      ensures z in [x, y] + list <==> z in X + {x} + {y}
    {
      assert z in list <==> z in X;
    }
  }

  lemma {:induction false} SomeList(X: set<nat>) returns (list: seq<nat>)
    ensures Lists(list, X)
    decreases |X|
  {
    if X == {} {
      return [];
    }
    var x :| x in X;
    list := SomeList(X - {x});
    list := list + [x];
    assert forall z :: z in list <==> z in X;
  }

  /** A matching as two lists. */
  lemma {:induction false} Aligned(X: set<nat>, Y: set<nat>, r: (nat, nat) -> bool, f: map<nat, nat>, g: map<nat, nat>)
    returns (rows: seq<nat>, cols: seq<nat>)
    requires Matches(f, g, X, Y, r)
    ensures Lists(rows, X) && Lists(cols, Y) && |rows| == |cols|
    ensures forall k | 0 <= k < |rows| :: r(rows[k], cols[k])
    decreases |X|
  {
    if X == {} {
      assert Y == {};
      return [], [];
    }
    var x :| x in X;
    RemovePair(f, g, X, Y, x);
    rows, cols := Aligned(X - {x}, Y - {f[x]}, r, f, g);
    rows, cols := rows + [x], cols + [f[x]];
    assert forall z :: z in rows <==> z in X;
    assert forall z :: z in cols <==> z in Y;
  }

  /** When every column finds its own row first, the last pair is what remains. */
  lemma {:induction false} StuckAtTheEnd(rows: seq<nat>, cols: seq<nat>, r: (nat, nat) -> bool, i: nat, j: nat)
    requires |rows| == |cols| && (forall k | 0 <= k < |rows| :: r(rows[k], cols[k])) && !r(i, j)
    ensures !GreedyRun(rows + [i], cols + [j], r)
    decreases |rows|
  {
    if rows == [] {
      assert FirstRow([i], j, r) == 1;
    } else {
      var all, left := rows + [i], cols + [j];
      assert all[0] == rows[0] && left[0] == cols[0];
      assert FirstRow(all, left[0], r) == 0;
      assert Without(all, 0) == rows[1..] + [i];
      assert left[1..] == cols[1..] + [j];
      StuckAtTheEnd(rows[1..], cols[1..], r, i, j);
    }
  }

  /** Two pairs are taken that no matching contains together. */
  lemma TwoTaken(rows: seq<nat>, cols: seq<nat>, r: (nat, nat) -> bool, i: nat, i': nat, j: nat, j': nat,
                 X: set<nat>, Y: set<nat>)
    requires Lists(rows, X) && Lists(cols, Y) && !Matchable(X, Y, r) && r(i', j) && r(i, j')
    ensures !GreedyRun([i', i] + rows, [j, j'] + cols, r)
  {
    hide Lists, Matchable;
    var all, left := [i', i] + rows, [j, j'] + cols;
    assert FirstRow(all, left[0], r) == 0;
    assert Without(all, 0) == [i] + rows;
    assert left[1..] == [j'] + cols;
    assert FirstRow([i] + rows, ([j'] + cols)[0], r) == 0;
    assert Without([i] + rows, 0) == rows;
    assert ([j'] + cols)[1..] == cols;
    if GreedyRun(rows, cols, r) {
      GreedyIsSound(rows, cols, r, X, Y);
    }
  }
}
