/** printDiff: the lines of a diff that are shown, with long runs of equal lines collapsed. */
module PrintDiff {
  import opened LineDiff

  /** One line of the message: an operation, or the three dots for lines left out. */
  datatype Row = Shown(op: Op) | Dots

  const NOP_LINES_TO_COLLAPSE := 5

  /** The operations that change something. */
  function Changes(ops: seq<Op>): seq<Op> {
    if ops == [] then []
    else Changes(ops[..|ops| - 1]) + if ops[|ops| - 1].Nop? then [] else [ops[|ops| - 1]]
  }

  function ShownChanges(rows: seq<Row>): seq<Op> {
    if rows == [] then []
    else
      var last := rows[|rows| - 1];
      ShownChanges(rows[..|rows| - 1]) + if last.Shown? && !last.op.Nop? then [last.op] else []
  }

  lemma ShownAppend(rows: seq<Row>, r: Row)
    ensures ShownChanges(rows + [r]) == ShownChanges(rows) + if r.Shown? && !r.op.Nop? then [r.op] else []
  {
    assert (rows + [r])[..|rows|] == rows;
  }

  function All(ops: seq<Op>): (rows: seq<Row>)
    ensures |rows| == |ops| && forall i | 0 <= i < |ops| :: rows[i] == Shown(ops[i])
  {
    seq(|ops|, i requires 0 <= i < |ops| => Shown(ops[i]))
  }

  /** The number of equal lines at the end. */
  function Trailing(ops: seq<Op>): (n: nat)
    ensures n <= |ops|
  {
    if ops == [] || !ops[|ops| - 1].Nop? then 0 else Trailing(ops[..|ops| - 1]) + 1
  }

  lemma {:induction false} TrailingIs(ops: seq<Op>)
    ensures forall i | |ops| - Trailing(ops) <= i < |ops| :: ops[i].Nop?
    ensures Trailing(ops) < |ops| ==> !ops[|ops| - Trailing(ops) - 1].Nop?
    decreases |ops|
  {
    if ops != [] && ops[|ops| - 1].Nop? {
      TrailingIs(ops[..|ops| - 1]);
    }
  }

  /** Eight or more equal lines in a row with a change behind them. */
  ghost predicate LongRun(ops: seq<Op>) {
    exists b | 0 <= b < |ops| :: RunBefore(ops, b)
  }

  predicate RunBefore(ops: seq<Op>, b: nat)
    requires b < |ops|
  {
    b >= NOP_LINES_TO_COLLAPSE + 3 && !ops[b].Nop? && forall k | b - NOP_LINES_TO_COLLAPSE - 3 <= k < b :: ops[k].Nop?
  }

  lemma LongRunAppend(ops: seq<Op>, op: Op)
    ensures LongRun(ops + [op]) <==> LongRun(ops) || (!op.Nop? && Trailing(ops) >= NOP_LINES_TO_COLLAPSE + 3)
  {
    TrailingIs(ops);
    var all := ops + [op];
    assert forall k | 0 <= k < |ops| :: all[k] == ops[k];
    if LongRun(ops) {
      var b :| 0 <= b < |ops| && RunBefore(ops, b);
      assert RunBefore(all, b);
    }
    if !op.Nop? && Trailing(ops) >= NOP_LINES_TO_COLLAPSE + 3 {
      assert RunBefore(all, |ops|);
    }
    if LongRun(all) {
      var b :| 0 <= b < |all| && RunBefore(all, b);
      if b < |ops| {
        assert RunBefore(ops, b);
      } else {
        var t := Trailing(ops);
        assert t < |ops| ==> all[|ops| - t - 1] == ops[|ops| - t - 1] && !ops[|ops| - t - 1].Nop?;
      }
    }
  }

  /** What is shown of a run of equal lines: five; behind these, once a change follows, two more, or dots and the last. */
  function RunRows(run: seq<Op>, atEnd: bool): seq<Row> {
    if |run| <= NOP_LINES_TO_COLLAPSE then All(run)
    else if atEnd then All(run[..NOP_LINES_TO_COLLAPSE])
    else if |run| < NOP_LINES_TO_COLLAPSE + 3 then All(run)
    else All(run[..NOP_LINES_TO_COLLAPSE]) + [Dots, Shown(run[|run| - 1])]
  }

  /** The equal lines at the end, and what precedes them. */
  function LastRun(ops: seq<Op>): seq<Op> {
    ops[|ops| - Trailing(ops)..]
  }

  function BeforeRun(ops: seq<Op>): (before: seq<Op>)
    ensures |before| <= |ops|
  {
    ops[..|ops| - Trailing(ops)]
  }

  /** The rows of a list of operations that ends in a change. */
  function Closed(ops: seq<Op>): seq<Row>
    decreases |ops|
  {
    if ops == [] then []
    else
      var init, last := ops[..|ops| - 1], ops[|ops| - 1];
      Closed(BeforeRun(init)) + RunRows(LastRun(init), false) + [Shown(last)]
  }

  /** All rows of the message: every run of equal lines by its rule, with every change where it stands. */
  function Rendered(ops: seq<Op>): seq<Row> {
    Closed(BeforeRun(ops)) + RunRows(LastRun(ops), true)
  }

  lemma RunNop(run: seq<Op>, op: Op)
    ensures RunRows(run + [op], true) == RunRows(run, true) + if |run| < NOP_LINES_TO_COLLAPSE then [Shown(op)] else []
  {
    if |run| < NOP_LINES_TO_COLLAPSE {
      assert All(run + [op]) == All(run) + [Shown(op)];
    } else {
      assert (run + [op])[..NOP_LINES_TO_COLLAPSE] == run[..NOP_LINES_TO_COLLAPSE];
      assert |run| == NOP_LINES_TO_COLLAPSE ==> run[..NOP_LINES_TO_COLLAPSE] == run;
    }
  }

  lemma RenderedNop(ops: seq<Op>, op: Op)
    requires op.Nop?
    ensures Rendered(ops + [op]) == Rendered(ops) + if Trailing(ops) < NOP_LINES_TO_COLLAPSE then [Shown(op)] else []
  {
    hide Closed, Trailing, RunRows;
    TrailingAppend(ops, op);
    var run := LastRun(ops);
    RunNop(run, op);
    assert BeforeRun(ops + [op]) == BeforeRun(ops);
    assert LastRun(ops + [op]) == run + [op];
  }

  /** What a change brings out of the equal lines before it. */
  function CatchUpRows(ops: seq<Op>): seq<Row> {
    var n := Trailing(ops);
    if n <= NOP_LINES_TO_COLLAPSE then []
    else if n == NOP_LINES_TO_COLLAPSE + 1 then [Shown(ops[|ops| - 1])]
    else if n == NOP_LINES_TO_COLLAPSE + 2 then [Shown(ops[|ops| - 2]), Shown(ops[|ops| - 1])]
    else [Dots, Shown(ops[|ops| - 1])]
  }

  lemma RunClosed(ops: seq<Op>)
    ensures RunRows(LastRun(ops), false) == RunRows(LastRun(ops), true) + CatchUpRows(ops)
  {
    hide Trailing;
    var run := LastRun(ops);
    assert |run| >= 1 ==> run[|run| - 1] == ops[|ops| - 1];
    assert |run| >= 2 ==> run[|run| - 2] == ops[|ops| - 2];
  }

  lemma RenderedChange(ops: seq<Op>, op: Op)
    requires !op.Nop?
    ensures Rendered(ops + [op]) == Rendered(ops) + CatchUpRows(ops) + [Shown(op)]
  {
    hide Trailing, RunRows, CatchUpRows;
    TrailingAppend(ops, op);
    RunClosed(ops);
    var all := ops + [op];
    NoRows();
    assert BeforeRun(all) == all && LastRun(all) == [];
    assert all[..|all| - 1] == ops;
    var closed := Closed(BeforeRun(ops));
    assert closed + (RunRows(LastRun(ops), true) + CatchUpRows(ops)) == closed + RunRows(LastRun(ops), true) + CatchUpRows(ops);
  }

  lemma NoRows()
    ensures RunRows([], true) == []
  {
  }

  /** The lines that a change brings out after nopCount equal ones. */
  method CatchUp(ops: seq<Op>, idx: nat, rows: seq<Row>, nopCount: nat, skipped: bool) returns (out: seq<Row>, skip: bool)
    requires idx < |ops| && nopCount == Trailing(ops[..idx])
    ensures out == rows + CatchUpRows(ops[..idx])
    ensures skip == (skipped || nopCount >= NOP_LINES_TO_COLLAPSE + 3)
  {
    hide Trailing;
    out, skip := rows, skipped;
    if nopCount == NOP_LINES_TO_COLLAPSE + 1 {
      out := out + [Shown(ops[idx - 1])];
    } else if nopCount == NOP_LINES_TO_COLLAPSE + 2 {
      out := out + [Shown(ops[idx - 2])];
      out := out + [Shown(ops[idx - 1])];
    } else if nopCount >= NOP_LINES_TO_COLLAPSE + 3 {
      out := out + [Dots];
      out := out + [Shown(ops[idx - 1])];
      skip := true;
    }
  }

  /** After the lines of p: what has been printed, the equal lines since the last change, and whether dots were. */
  ghost predicate Printed(p: seq<Op>, rows: seq<Row>, nopCount: nat, skipped: bool) {
    && rows == Rendered(p)
    && nopCount == Trailing(p)
    && (skipped <==> LongRun(p))
  }

  /** One turn of the loop. */
  method PrintLine(ops: seq<Op>, idx: nat, rows: seq<Row>, nopCount: nat, skipped: bool)
    returns (out: seq<Row>, count: nat, skip: bool)
    requires idx < |ops| && Printed(ops[..idx], rows, nopCount, skipped)
    ensures Printed(ops[..idx + 1], out, count, skip)
  {
    hide LongRun, Trailing, Rendered, CatchUpRows;
    var op := ops[idx];
    assert ops[..idx + 1] == ops[..idx] + [op];
    LongRunAppend(ops[..idx], op);
    TrailingAppend(ops[..idx], op);
    out, count, skip := rows, nopCount, skipped;
    if !op.Nop? {
      RenderedChange(ops[..idx], op);
      if nopCount > 0 {
        out, skip := CatchUp(ops, idx, rows, nopCount, skipped);
        count := 0;
      } else {
        NoRun(ops[..idx]);
        assert rows + [] == rows;
      }
      out := out + [Shown(op)];
    } else {
      RenderedNop(ops[..idx], op);
      if nopCount < NOP_LINES_TO_COLLAPSE {
        out := out + [Shown(op)];
      }
      count := count + 1;
    }
  }

  lemma NoRun(ops: seq<Op>)
    requires Trailing(ops) == 0
    ensures CatchUpRows(ops) == []
  {
  }

  /**
    * printDiff. The rows are those of the runs and the changes between them; so every change is shown, in order, and all
    * lines are exactly when no run was collapsed, which skipped tells, and at most five equal lines end the diff.
    */
  method Print(ops: seq<Op>) returns (rows: seq<Row>, skipped: bool)
    ensures rows == Rendered(ops)
    ensures skipped <==> LongRun(ops)
    ensures ShownChanges(rows) == Changes(ops)
    ensures rows == All(ops) <==> !skipped && Trailing(ops) <= NOP_LINES_TO_COLLAPSE
  {
    hide ShownChanges, Changes, LongRun, Trailing, Printed, Rendered;
    rows, skipped := [], false;
    var nopCount := 0;
    NothingYet();
    for idx := 0 to |ops|
      invariant Printed(ops[..idx], rows, nopCount, skipped)
    {
      rows, nopCount, skipped := PrintLine(ops, idx, rows, nopCount, skipped);
    }
    assert ops[..|ops|] == ops;
    PrintedIs(ops, rows, nopCount, skipped);
    ChangesShown(ops);
    AllShown(ops);
  }

  lemma PrintedIs(ops: seq<Op>, rows: seq<Row>, nopCount: nat, skipped: bool)
    requires Printed(ops, rows, nopCount, skipped)
    ensures rows == Rendered(ops) && (skipped <==> LongRun(ops))
  {
    hide LongRun, Rendered;
  }

  lemma NothingYet()
    ensures Printed([], [], 0, false)
  {
  }

  // ---- what the rows hold ----

  lemma {:induction false} NoChangesAmong(a: seq<Row>, b: seq<Row>)
    requires forall i | 0 <= i < |b| :: b[i].Shown? ==> b[i].op.Nop?
    ensures ShownChanges(a + b) == ShownChanges(a)
    decreases |b|
  {
    if b == [] {
      assert a + b == a;
    } else {
      var init, last := b[..|b| - 1], b[|b| - 1];
      NoChangesAmong(a, init);
      assert a + b == (a + init) + [last];
      ShownAppend(a + init, last);
    }
  }

  lemma CatchUpIsNop(ops: seq<Op>)
    ensures forall i | 0 <= i < |CatchUpRows(ops)| :: CatchUpRows(ops)[i].Shown? ==> CatchUpRows(ops)[i].op.Nop?
  {
    TrailingIs(ops);
  }

  /** Every change is shown, in order. */
  lemma {:induction false} ChangesShown(ops: seq<Op>)
    ensures ShownChanges(Rendered(ops)) == Changes(ops)
    decreases |ops|
  {
    hide ShownChanges, Changes, Rendered, CatchUpRows, Trailing;
    if ops == [] {
      NoChanges();
    } else {
      var init, last := ops[..|ops| - 1], ops[|ops| - 1];
      ChangesShown(init);
      assert ops == init + [last];
      ChangesAppend(init, last);
      if last.Nop? {
        RenderedNop(init, last);
        NoChangesAmong(Rendered(init), if Trailing(init) < NOP_LINES_TO_COLLAPSE then [Shown(last)] else []);
      } else {
        RenderedChange(init, last);
        CatchUpIsNop(init);
        NoChangesAmong(Rendered(init), CatchUpRows(init));
        ShownAppend(Rendered(init) + CatchUpRows(init), Shown(last));
      }
    }
  }

  lemma NoChanges()
    ensures ShownChanges(Rendered([])) == [] && Changes([]) == []
  {
  }

  function Held(nopCount: nat): nat {
    if nopCount > NOP_LINES_TO_COLLAPSE then nopCount - NOP_LINES_TO_COLLAPSE else 0
  }

  lemma AllAppend(ops: seq<Op>, op: Op)
    ensures All(ops + [op]) == All(ops) + [Shown(op)]
  {
  }

  /** Before a run is collapsed only the lines held back are missing; once one is, the dots stay. */
  ghost predicate SoFar(ops: seq<Op>) {
    if LongRun(ops) then Dots in Rendered(ops) else Rendered(ops) == All(ops[..|ops| - Held(Trailing(ops))])
  }

  lemma {:induction false} ShownSoFar(ops: seq<Op>)
    ensures SoFar(ops)
    decreases |ops|
  {
    hide SoFar;
    if ops == [] {
      NothingSoFar();
    } else {
      var init, last := ops[..|ops| - 1], ops[|ops| - 1];
      ShownSoFar(init);
      assert ops == init + [last];
      if last.Nop? {
        NopShown(init, last);
      } else {
        ChangeShown(init, last);
      }
    }
  }

  lemma NothingSoFar()
    ensures SoFar([])
  {
  }

  lemma NopShown(init: seq<Op>, last: Op)
    requires last.Nop? && SoFar(init)
    ensures SoFar(init + [last])
  {
    hide Rendered, LongRun, Trailing;
    LongRunAppend(init, last);
    TrailingAppend(init, last);
    RenderedNop(init, last);
    AllAppend(init, last);
    var ops := init + [last];
    assert init[..|init|] == init && ops[..|init| + 1] == ops;
    assert ops[..|init| - Held(Trailing(init))] == init[..|init| - Held(Trailing(init))];
  }

  lemma ChangeShown(init: seq<Op>, last: Op)
    requires !last.Nop? && SoFar(init)
    ensures SoFar(init + [last])
  {
    hide Rendered, LongRun, Trailing, CatchUpRows;
    LongRunAppend(init, last);
    TrailingAppend(init, last);
    RenderedChange(init, last);
    AllAppend(init, last);
    assert (init + [last])[..|init| + 1] == init + [last];
    DotsAmong(init);
    if !LongRun(init) && Trailing(init) < NOP_LINES_TO_COLLAPSE + 3 {
      CatchesUp(init, |init| - Held(Trailing(init)));
    }
  }

  lemma DotsAmong(ops: seq<Op>)
    ensures Trailing(ops) >= NOP_LINES_TO_COLLAPSE + 3 ==> Dots in CatchUpRows(ops)
  {
    hide Trailing;
  }

  /** Up to two lines held back complete the list. */
  lemma CatchesUp(ops: seq<Op>, k: nat)
    requires Trailing(ops) < NOP_LINES_TO_COLLAPSE + 3 && k == |ops| - Held(Trailing(ops))
    ensures All(ops[..k]) + CatchUpRows(ops) == All(ops)
  {
    HeldBack(ops, k);
    LastTwo(ops, k, CatchUpRows(ops));
  }

  lemma HeldBack(ops: seq<Op>, k: nat)
    requires Trailing(ops) < NOP_LINES_TO_COLLAPSE + 3 && k == |ops| - Held(Trailing(ops))
    ensures |ops| - 2 <= k <= |ops|
    ensures k == |ops| ==> CatchUpRows(ops) == []
    ensures k == |ops| - 1 ==> CatchUpRows(ops) == [Shown(ops[k])]
    ensures k == |ops| - 2 ==> CatchUpRows(ops) == [Shown(ops[k]), Shown(ops[k + 1])]
  {
    hide Trailing;
  }

  lemma LastTwo(ops: seq<Op>, k: nat, rows: seq<Row>)
    requires |ops| - 2 <= k <= |ops|
    requires k == |ops| ==> rows == []
    requires k == |ops| - 1 ==> rows == [Shown(ops[k])]
    requires k == |ops| - 2 ==> rows == [Shown(ops[k]), Shown(ops[k + 1])]
    ensures All(ops[..k]) + rows == All(ops)
  {
    var all := All(ops[..k]) + rows;
    assert forall i | 0 <= i < |ops| :: all[i] == Shown(ops[i]);
  }

  /** All lines are shown exactly when no run is collapsed and at most five equal lines end the diff. */
  lemma AllShown(ops: seq<Op>)
    ensures Rendered(ops) == All(ops) <==> !LongRun(ops) && Trailing(ops) <= NOP_LINES_TO_COLLAPSE
  {
    ShownSoFar(ops);
    hide Rendered, LongRun, Trailing;
    assert ops[..|ops|] == ops;
    if LongRun(ops) {
      assert Dots !in All(ops);
    }
  }

  lemma TrailingAppend(ops: seq<Op>, op: Op)
    ensures Trailing(ops + [op]) == if op.Nop? then Trailing(ops) + 1 else 0
  {
    assert (ops + [op])[..|ops|] == ops;
  }

  lemma ChangesAppend(ops: seq<Op>, op: Op)
    ensures Changes(ops + [op]) == Changes(ops) + if op.Nop? then [] else [op]
  {
    assert (ops + [op])[..|ops|] == ops;
  }

  /** Equal lines at the end of a diff beyond the fifth are dropped, and skipped does not say so. */
  lemma {:induction false} TrailingLinesDropSilently(line: Line, n: nat)
    ensures var ops := seq(n, _ => Nop(line)); !LongRun(ops) && Trailing(ops) == n
  {
    var ops := seq(n, _ => Nop(line));
    if n > 0 {
      TrailingLinesDropSilently(line, n - 1);
      var init := seq(n - 1, _ => Nop(line));
      assert ops == init + [Nop(line)];
      LongRunAppend(init, Nop(line));
      TrailingAppend(init, Nop(line));
    }
  }

  // ---- run by run ----

  /** A run behind a change, or at the start, is the whole run at the end. */
  lemma {:induction false} WholeRun(before: seq<Op>, run: seq<Op>)
    requires (before == [] || !before[|before| - 1].Nop?) && forall i | 0 <= i < |run| :: run[i].Nop?
    ensures Trailing(before + run) == |run| && BeforeRun(before + run) == before && LastRun(before + run) == run
    decreases |run|
  {
    var all := before + run;
    if run == [] {
      assert all == before;
    } else {
      assert all[..|all| - 1] == before + run[..|run| - 1];
      WholeRun(before, run[..|run| - 1]);
    }
  }

  /** Up to seven equal lines before a change are all shown; of eight or more the first five, dots and the last one. */
  lemma RunBeforeChange(before: seq<Op>, run: seq<Op>, change: Op)
    requires (before == [] || !before[|before| - 1].Nop?) && (forall i | 0 <= i < |run| :: run[i].Nop?) && !change.Nop?
    ensures Closed([]) == []
    ensures Closed(before + run + [change]) ==
      Closed(before) + (if |run| < 8 then All(run) else All(run[..5]) + [Dots, Shown(run[|run| - 1])]) + [Shown(change)]
  {
    hide Trailing, LastRun, BeforeRun;
    WholeRun(before, run);
    var all := before + run + [change];
    assert all[..|all| - 1] == before + run;
  }

  /** At the end of the diff at most five equal lines are shown. */
  lemma RunAtEnd(before: seq<Op>, run: seq<Op>)
    requires (before == [] || !before[|before| - 1].Nop?) && forall i | 0 <= i < |run| :: run[i].Nop?
    ensures Rendered(before + run) == Closed(before) + All(if |run| <= 5 then run else run[..5])
  {
    hide Trailing, LastRun, BeforeRun, Closed;
    WholeRun(before, run);
  }
}
