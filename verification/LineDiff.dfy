/** The line diff behind assertion messages: a longest-common-subsequence table and a walk over it. */
module LineDiff {

  type Line = string
  type Relation = (Line, Line) -> bool

  datatype Op = Insert(line: Line) | Delete(line: Line) | Nop(line: Line)

  /** Two lines are the same if equal, or, when comparing objects, if equal up to a final comma. */
  function SameLine(checkCommaDisparity: bool): Relation {
    (a: Line, b: Line) => a == b || (checkCommaDisparity && (a + "," == b || a == b + ","))
  }

  /** With the tolerance it is no equivalence, so that everything below is proved for any relation. */
  lemma SameLineIsNotTransitive()
    ensures var same := SameLine(true);
      same("x", "x,") && same("x,", "x,,") && !same("x", "x,,")
  {
    assert |"x" + ","| < |"x,,"|;
  }

  // ---- what a diff must satisfy ----

  /** A strictly increasing pairing of actual[i..] with expected[j..] in which paired lines are the same. */
  ghost predicate Matching(same: Relation, actual: seq<Line>, expected: seq<Line>, i: nat, j: nat, pairs: seq<(nat, nat)>) {
    && (forall k :: 0 <= k < |pairs| ==>
          && i <= pairs[k].0 < |actual| && j <= pairs[k].1 < |expected|
          && same(actual[pairs[k].0], expected[pairs[k].1]))
    && (forall k, l :: 0 <= k < l < |pairs| ==> pairs[k].0 < pairs[l].0 && pairs[k].1 < pairs[l].1)
  }

  /** The lines of the expected side, in order. */
  ghost function ExpectedSide(ops: seq<Op>): seq<Line> {
    if ops == [] then [] else
      var last := ops[|ops| - 1];
      ExpectedSide(ops[..|ops| - 1]) + (if last.Insert? then [] else [last.line])
  }

  /** Dropping the deletions leaves actual: inserted lines exactly, kept lines up to the relation. */
  ghost predicate SpellsActual(same: Relation, ops: seq<Op>, actual: seq<Line>) {
    if ops == [] then actual == [] else
      var last, init := ops[|ops| - 1], ops[..|ops| - 1];
      if last.Delete? then SpellsActual(same, init, actual)
      else
        && actual != []
        && (if last.Insert? then last.line == actual[|actual| - 1] else same(actual[|actual| - 1], last.line))
        && SpellsActual(same, init, actual[..|actual| - 1])
  }

  ghost function Nops(ops: seq<Op>): nat {
    if ops == [] then 0 else Nops(ops[..|ops| - 1]) + (if ops[|ops| - 1].Nop? then 1 else 0)
  }

  /** Between two kept lines all insertions come before all deletions. */
  ghost predicate InsertsFirst(ops: seq<Op>) {
    forall k :: 0 <= k < |ops| - 1 ==> ops[k].Delete? ==> !ops[k + 1].Insert?
  }

  // ---- the table ----

  function Lcs(same: Relation, actual: seq<Line>, expected: seq<Line>, i: nat, j: nat): nat
    requires i <= |actual| && j <= |expected|
    decreases |actual| - i + |expected| - j
  {
    if i == |actual| || j == |expected| then 0
    else if same(actual[i], expected[j]) then Lcs(same, actual, expected, i + 1, j + 1) + 1
    else
      var down := Lcs(same, actual, expected, i + 1, j);
      var right := Lcs(same, actual, expected, i, j + 1);
      if down >= right then down else right
  }

  /** No order-preserving matching is longer, for any relation at all. */
  lemma {:induction false} LcsIsUpperBound(same: Relation, actual: seq<Line>, expected: seq<Line>, i: nat, j: nat, pairs: seq<(nat, nat)>)
    requires i <= |actual| && j <= |expected|
    requires Matching(same, actual, expected, i, j, pairs)
    ensures |pairs| <= Lcs(same, actual, expected, i, j)
    decreases |actual| - i + |expected| - j
  {
    if pairs != [] {
      assert i <= pairs[0].0 < |actual| && j <= pairs[0].1 < |expected|;
      if same(actual[i], expected[j]) {
        LcsIsUpperBound(same, actual, expected, i + 1, j + 1, pairs[1..]);
      } else if pairs[0].0 > i {
        LcsIsUpperBound(same, actual, expected, i + 1, j, pairs);
      } else {
        LcsIsUpperBound(same, actual, expected, i, j + 1, pairs);
      }
    }
  }

  /** Some order-preserving matching reaches the bound. */
  lemma {:induction false} LcsIsReached(same: Relation, actual: seq<Line>, expected: seq<Line>, i: nat, j: nat) returns (pairs: seq<(nat, nat)>)
    requires i <= |actual| && j <= |expected|
    ensures Matching(same, actual, expected, i, j, pairs)
    ensures |pairs| == Lcs(same, actual, expected, i, j)
    decreases |actual| - i + |expected| - j
  {
    if i == |actual| || j == |expected| {
      pairs := [];
    } else if same(actual[i], expected[j]) {
      var rest := LcsIsReached(same, actual, expected, i + 1, j + 1);
      pairs := [(i, j)] + rest;
    } else if Lcs(same, actual, expected, i + 1, j) >= Lcs(same, actual, expected, i, j + 1) {
      pairs := LcsIsReached(same, actual, expected, i + 1, j);
    } else {
      pairs := LcsIsReached(same, actual, expected, i, j + 1);
    }
  }

  lemma LcsStep(same: Relation, actual: seq<Line>, expected: seq<Line>, i: nat, j: nat)
    requires i <= |actual| && j <= |expected|
    ensures i == |actual| || j == |expected| ==> Lcs(same, actual, expected, i, j) == 0
    ensures i < |actual| && j == |expected| ==> Lcs(same, actual, expected, i + 1, j) == 0
    ensures i == |actual| && j < |expected| ==> Lcs(same, actual, expected, i, j + 1) == 0
    ensures i < |actual| && j < |expected| ==>
              Lcs(same, actual, expected, i, j)
              == if same(actual[i], expected[j]) then Lcs(same, actual, expected, i + 1, j + 1) + 1
                 else if Lcs(same, actual, expected, i + 1, j) >= Lcs(same, actual, expected, i, j + 1)
                 then Lcs(same, actual, expected, i + 1, j) else Lcs(same, actual, expected, i, j + 1)
  {
  }

  lemma LcsBorder(same: Relation, actual: seq<Line>, expected: seq<Line>)
    ensures forall l :: 0 <= l <= |expected| ==> Lcs(same, actual, expected, |actual|, l) == 0
    ensures forall k :: 0 <= k <= |actual| ==> Lcs(same, actual, expected, k, |expected|) == 0
  {
  }

  method FillTable(same: Relation, actual: seq<Line>, expected: seq<Line>) returns (lcs: array2<nat>)
    ensures fresh(lcs) && lcs.Length0 == |actual| + 1 && lcs.Length1 == |expected| + 1
    ensures forall i, j :: 0 <= i <= |actual| && 0 <= j <= |expected| ==> lcs[i, j] == Lcs(same, actual, expected, i, j)
  {
    hide Lcs;
    LcsBorder(same, actual, expected);
    var n, m := |actual|, |expected|;
    lcs := new nat[n + 1, m + 1]((_, _) => 0);
    assert forall l :: 0 <= l <= m ==> lcs[n, l] == 0;
    assert forall k :: 0 <= k <= n ==> lcs[k, m] == 0;
    var i := n - 1;
    while i >= 0
      invariant -1 <= i <= n - 1
      invariant forall k, l :: i < k <= n && 0 <= l <= m ==> lcs[k, l] == Lcs(same, actual, expected, k, l)
      invariant forall k :: 0 <= k <= n ==> lcs[k, m] == 0
    {
      var j := m - 1;
      while j >= 0
        invariant -1 <= j <= m - 1
        invariant forall k, l :: i < k <= n && 0 <= l <= m ==> lcs[k, l] == Lcs(same, actual, expected, k, l)
        invariant forall l :: j < l <= m ==> lcs[i, l] == Lcs(same, actual, expected, i, l)
        invariant forall k :: 0 <= k <= n ==> lcs[k, m] == 0
      {
        LcsStep(same, actual, expected, i, j);
        lcs[i, j] := if same(actual[i], expected[j]) then lcs[i + 1, j + 1] + 1
                     else if lcs[i + 1, j] >= lcs[i, j + 1] then lcs[i + 1, j] else lcs[i, j + 1];
        j := j - 1;
      }
      i := i - 1;
    }
  }

  // ---- the walk ----

  lemma AppendOp(ops: seq<Op>, op: Op)
    ensures ExpectedSide(ops + [op]) == ExpectedSide(ops) + (if op.Insert? then [] else [op.line])
    ensures Nops(ops + [op]) == Nops(ops) + (if op.Nop? then 1 else 0)
  {
    assert (ops + [op])[..|ops|] == ops;
  }

  lemma AppendSpells(same: Relation, ops: seq<Op>, op: Op, actual: seq<Line>, next: seq<Line>)
    requires SpellsActual(same, ops, actual)
    requires op.Insert? ==> next == actual + [op.line]
    requires op.Delete? ==> next == actual
    requires op.Nop? ==> next != [] && next[..|next| - 1] == actual && same(next[|next| - 1], op.line)
    ensures SpellsActual(same, ops + [op], next)
  {
    assert (ops + [op])[..|ops|] == ops;
    if op.Insert? {
      assert next[..|next| - 1] == actual;
    }
  }

  lemma EmptyDiff(same: Relation)
    ensures InsertsFirst([]) && ExpectedSide([]) == [] && Nops([]) == 0 && SpellsActual(same, [], [])
  {
  }

  lemma AppendNop(ops: seq<Op>, line: Line)
    requires InsertsFirst(ops)
    ensures InsertsFirst(ops + [Nop(line)])
  {
  }

  /** Collected insertions, then collected deletions. */
  function Flushed(ins: seq<Line>, del: seq<Line>): seq<Op> {
    seq(|ins|, k requires 0 <= k < |ins| => Insert(ins[k])) + seq(|del|, k requires 0 <= k < |del| => Delete(del[k]))
  }

  /**
   The walk through both lists: a pair of same lines is kept at once; otherwise the line of actual is dropped as long as
   the rest keeps as many lines as it would without the line of expected.
   */
  function Walk(same: Relation, actual: seq<Line>, expected: seq<Line>, i: nat, j: nat, ins: seq<Line>, del: seq<Line>): seq<Op>
    requires i <= |actual| && j <= |expected|
    decreases |actual| - i + |expected| - j
  {
    if i == |actual| && j == |expected| then Flushed(ins, del)
    else if i < |actual| && j < |expected| && same(actual[i], expected[j]) then
      Flushed(ins, del) + [Nop(expected[j])] + Walk(same, actual, expected, i + 1, j + 1, [], [])
    else if j == |expected|
        || (i < |actual| && Lcs(same, actual, expected, i + 1, j) >= Lcs(same, actual, expected, i, j + 1)) then
      Walk(same, actual, expected, i + 1, j, ins + [actual[i]], del)
    else Walk(same, actual, expected, i, j + 1, ins, del + [expected[j]])
  }

  lemma WalkStep(same: Relation, actual: seq<Line>, expected: seq<Line>, i: nat, j: nat, ins: seq<Line>, del: seq<Line>, ops: seq<Op>)
    requires i <= |actual| && j <= |expected|
    ensures i == |actual| && j == |expected| ==> Walk(same, actual, expected, i, j, ins, del) == Flushed(ins, del)
    ensures i < |actual| && j < |expected| && same(actual[i], expected[j]) ==>
      ops + Walk(same, actual, expected, i, j, ins, del)
      == ops + Flushed(ins, del) + [Nop(expected[j])] + Walk(same, actual, expected, i + 1, j + 1, [], [])
    ensures (i < |actual| || j < |expected|) && !(i < |actual| && j < |expected| && same(actual[i], expected[j])) ==>
      Walk(same, actual, expected, i, j, ins, del) ==
        if j == |expected|
          || (i < |actual| && Lcs(same, actual, expected, i + 1, j) >= Lcs(same, actual, expected, i, j + 1))
        then Walk(same, actual, expected, i + 1, j, ins + [actual[i]], del)
        else Walk(same, actual, expected, i, j + 1, ins, del + [expected[j]])
  {
    hide Lcs, Flushed;
    if i < |actual| && j < |expected| && same(actual[i], expected[j]) {
      var a, b, c := Flushed(ins, del), [Nop(expected[j])], Walk(same, actual, expected, i + 1, j + 1, [], []);
      assert ops + ((a + b) + c) == ((ops + a) + b) + c;
    }
  }

  lemma FlushNothing(ops: seq<Op>, ins: seq<Line>, del: seq<Line>)
    ensures ops + Flushed(ins[..0], []) == ops && Flushed(ins[..|ins|], []) == Flushed(ins, del[..0])
  {
  }

  lemma FlushInsert(ops: seq<Op>, ins: seq<Line>, k: nat)
    requires k < |ins|
    ensures ops + Flushed(ins[..k + 1], []) == ops + Flushed(ins[..k], []) + [Insert(ins[k])]
  {
  }

  lemma FlushDelete(ops: seq<Op>, ins: seq<Line>, del: seq<Line>, k: nat)
    requires k < |del|
    ensures ops + Flushed(ins, del[..k + 1]) == ops + Flushed(ins, del[..k]) + [Delete(del[k])]
  {
  }

  /** Emits the collected insertions, then the collected deletions. */
  method Flush(same: Relation, ops: seq<Op>, ins: seq<Line>, del: seq<Line>, ghost done: seq<Line>) returns (out: seq<Op>)
    requires SpellsActual(same, ops, done)
    requires InsertsFirst(ops) && (ops != [] ==> ops[|ops| - 1].Nop?)
    ensures SpellsActual(same, out, done + ins)
    ensures ExpectedSide(out) == ExpectedSide(ops) + del
    ensures Nops(out) == Nops(ops)
    ensures InsertsFirst(out)
    ensures out == ops + Flushed(ins, del)
  {
    hide SpellsActual, ExpectedSide, Nops, Flushed;
    out := ops;
    FlushNothing(ops, ins, del);
    assert done + ins[..0] == done;
    for k := 0 to |ins|
      invariant SpellsActual(same, out, done + ins[..k])
      invariant ExpectedSide(out) == ExpectedSide(ops) && Nops(out) == Nops(ops)
      invariant out == ops + Flushed(ins[..k], [])
      invariant InsertsFirst(out) && (out != [] ==> !out[|out| - 1].Delete?)
    {
      AppendOp(out, Insert(ins[k]));
      assert done + ins[..k + 1] == done + ins[..k] + [ins[k]];
      AppendSpells(same, out, Insert(ins[k]), done + ins[..k], done + ins[..k + 1]);
      out := out + [Insert(ins[k])];
      FlushInsert(ops, ins, k);
    }
    assert ins[..|ins|] == ins;
    for k := 0 to |del|
      invariant SpellsActual(same, out, done + ins)
      invariant ExpectedSide(out) == ExpectedSide(ops) + del[..k] && Nops(out) == Nops(ops)
      invariant out == ops + Flushed(ins, del[..k])
      invariant InsertsFirst(out)
    {
      AppendOp(out, Delete(del[k]));
      AppendSpells(same, out, Delete(del[k]), done + ins, done + ins);
      out := out + [Delete(del[k])];
      FlushDelete(ops, ins, del, k);
    }
    assert del[..|del|] == del;
  }

  /**
   lineDiff. Kept and deleted lines spell expected exactly, kept and inserted lines spell actual up
   to the relation, and no order-preserving matching has more pairs than there are kept lines.
   LcsIsReached shows the bound is met.
   */
  method Diff(same: Relation, actual: seq<Line>, expected: seq<Line>) returns (ops: seq<Op>)
    ensures ExpectedSide(ops) == expected
    ensures SpellsActual(same, ops, actual)
    ensures Nops(ops) == Lcs(same, actual, expected, 0, 0)
    ensures InsertsFirst(ops)
    ensures ops == Walk(same, actual, expected, 0, 0, [], [])
  {
    hide SpellsActual, ExpectedSide, Nops, Lcs, InsertsFirst, Walk, Flushed;
    EmptyDiff(same);
    var n, m := |actual|, |expected|;
    var lcs := FillTable(same, actual, expected);
    ops := [];
    var i, j := 0, 0;
    var ins, del := [], [];
    ghost var done := [];
    while i < n || j < m
      invariant 0 <= i <= n && 0 <= j <= m
      invariant forall k, l :: 0 <= k <= n && 0 <= l <= m ==> lcs[k, l] == Lcs(same, actual, expected, k, l)
      invariant ExpectedSide(ops) + del == expected[..j]
      invariant SpellsActual(same, ops, done) && done + ins == actual[..i]
      invariant Nops(ops) + Lcs(same, actual, expected, i, j) == Lcs(same, actual, expected, 0, 0)
      invariant InsertsFirst(ops) && (ops != [] ==> ops[|ops| - 1].Nop?)
      invariant ops + Walk(same, actual, expected, i, j, ins, del) == Walk(same, actual, expected, 0, 0, [], [])
      decreases n - i + m - j
    {
      LcsStep(same, actual, expected, i, j);
      WalkStep(same, actual, expected, i, j, ins, del, ops);
      if i < n && j < m && same(actual[i], expected[j]) {
        ops := Flush(same, ops, ins, del, done);
        AppendOp(ops, Nop(expected[j]));
        AppendNop(ops, expected[j]);
        AppendSpells(same, ops, Nop(expected[j]), actual[..i], actual[..i + 1]);
        ops := ops + [Nop(expected[j])];
        done, ins, del := actual[..i + 1], [], [];
        i, j := i + 1, j + 1;
      } else if j >= m || (i < n && lcs[i + 1, j] >= lcs[i, j + 1]) {
        ins := ins + [actual[i]];
        i := i + 1;
      } else {
        del := del + [expected[j]];
        j := j + 1;
      }
    }
    WalkStep(same, actual, expected, i, j, ins, del, ops);
    ops := Flush(same, ops, ins, del, done);
    LcsStep(same, actual, expected, i, j);
    assert actual[..n] == actual && expected[..m] == expected;
  }

  /** Any diff that meets Diff's contract keeps as many lines as the longest matching. */
  lemma DiffIsOptimal(same: Relation, actual: seq<Line>, expected: seq<Line>, ops: seq<Op>)
    requires Nops(ops) == Lcs(same, actual, expected, 0, 0)
    ensures forall pairs :: Matching(same, actual, expected, 0, 0, pairs) ==> |pairs| <= Nops(ops)
    ensures exists pairs :: Matching(same, actual, expected, 0, 0, pairs) && |pairs| == Nops(ops)
  {
    forall pairs | Matching(same, actual, expected, 0, 0, pairs)
      ensures |pairs| <= Nops(ops)
    {
      LcsIsUpperBound(same, actual, expected, 0, 0, pairs);
    }
    var pairs := LcsIsReached(same, actual, expected, 0, 0);
  }

  /** Lines are the same if equal, or with the option if one is the other with a comma behind it. */
  lemma SameLineIs(a: Line, b: Line)
    ensures SameLine(false)(a, b) <==> a == b
    ensures SameLine(true)(a, b) <==> a == b || b == a + "," || a == b + ","
  {
  }

  /** An insertion is a line of actual only, a deletion one of expected only; a kept line is one of expected. */
  lemma SidesAppend(same: Relation, ops: seq<Op>, line: Line, actual: seq<Line>, x: Line)
    ensures ExpectedSide(ops + [Insert(line)]) == ExpectedSide(ops)
    ensures ExpectedSide(ops + [Delete(line)]) == ExpectedSide(ops + [Nop(line)]) == ExpectedSide(ops) + [line]
    ensures SpellsActual(same, ops + [Delete(line)], actual) <==> SpellsActual(same, ops, actual)
    ensures SpellsActual(same, ops + [Insert(line)], actual + [x]) <==> x == line && SpellsActual(same, ops, actual)
    ensures SpellsActual(same, ops + [Nop(line)], actual + [x]) <==> same(x, line) && SpellsActual(same, ops, actual)
    ensures ExpectedSide([]) == [] && (SpellsActual(same, [], actual) <==> actual == [])
  {
    assert forall op :: (ops + [op])[..|ops|] == ops;
    assert (actual + [x])[..|actual|] == actual;
  }

  /** Which of two lines that changed places is kept: the one that comes first in expected. */
  lemma SwappedLines(same: Relation, x: Line, y: Line)
    requires same(x, x) && same(y, y) && !same(x, y) && !same(y, x)
    ensures Walk(same, [x, y], [y, x], 0, 0, [], []) == [Insert(x), Nop(y), Delete(x)]
  {
    var a, e := [x, y], [y, x];
    assert Lcs(same, a, e, 1, 0) == 1 && Lcs(same, a, e, 0, 1) == 1;
    assert Walk(same, a, e, 2, 2, [], [x]) == [Delete(x)];
    assert Walk(same, a, e, 2, 1, [], []) == [Delete(x)];
    assert Walk(same, a, e, 1, 0, [x], []) == Flushed([x], []) + [Nop(y)] + [Delete(x)];
  }
}
