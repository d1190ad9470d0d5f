/** What a pattern means, on its text: which names each part takes, without the segments it is compiled to. */
module GlobText {
  import opened GlobMatch
  import opened GlobWalk

  /**
    * Part k of a pattern takes path[from..to]. An empty part behind the first takes nothing, `**` any number of names, and
    * any other part one name: one its regular expression accepts if it has magic, and else its text without escapes.
    */
  ghost predicate Takes(syn: Syntax, pattern: seq<string>, k: nat, path: Path, from: nat, to: nat)
    requires k < |pattern|
  {
    && from <= to <= |path|
    && (k > 0 && pattern[k] == "" ==> to == from)
    && (pattern[k] != "**" && (k == 0 || pattern[k] != "") ==>
         && to == from + 1
         && if syn.hasMagic(pattern[k]) then syn.regexp(pattern[k])(path[from]) else path[from] == syn.unescape(pattern[k]))
  }

  /** The parts of the pattern take the whole path in turn; cuts says where each begins. */
  ghost predicate TakesAll(syn: Syntax, pattern: seq<string>, path: Path, cuts: seq<nat>) {
    && |cuts| == |pattern| + 1 && cuts[0] == 0 && cuts[|pattern|] == |path|
    && forall k | 0 <= k < |pattern| :: Takes(syn, pattern, k, path, cuts[k], cuts[k + 1])
  }

  ghost predicate TextMatches(syn: Syntax, pattern: seq<string>, path: Path) {
    exists cuts :: TakesAll(syn, pattern, path, cuts)
  }

  // ---- the last part of a pattern ----

  lemma TextSplits(syn: Syntax, pattern: seq<string>, path: Path)
    requires pattern != []
    ensures TextMatches(syn, pattern, path) <==>
      exists i: nat | i <= |path| ::
        TextMatches(syn, pattern[..|pattern| - 1], path[..i]) && Takes(syn, pattern, |pattern| - 1, path, i, |path|)
  {
    var n := |pattern| - 1;
    var init := pattern[..n];
    if TextMatches(syn, pattern, path) {
      var cuts: seq<nat> :| TakesAll(syn, pattern, path, cuts);
      var i := cuts[n];
      assert Takes(syn, pattern, n, path, cuts[n], cuts[n + 1]);
      CutsAscend(syn, pattern, path, cuts, n);
      var before := cuts[..n + 1];
      forall k | 0 <= k < n
        ensures Takes(syn, init, k, path[..i], before[k], before[k + 1])
      {
        CutsAscend(syn, pattern, path, cuts, k + 1);
        assert Takes(syn, pattern, k, path, cuts[k], cuts[k + 1]);
      }
      assert TakesAll(syn, init, path[..i], before);
    }
    if i: nat :| i <= |path| && TextMatches(syn, init, path[..i]) && Takes(syn, pattern, n, path, i, |path|) {
      var cuts: seq<nat> :| TakesAll(syn, init, path[..i], cuts);
      var all := cuts + [|path|];
      forall k | 0 <= k < |pattern|
        ensures Takes(syn, pattern, k, path, all[k], all[k + 1])
      {
        if k < n {
          assert Takes(syn, init, k, path[..i], cuts[k], cuts[k + 1]);
        }
      }
      assert TakesAll(syn, pattern, path, all);
    }
  }

  lemma {:induction false} CutsAscend(syn: Syntax, pattern: seq<string>, path: Path, cuts: seq<nat>, k: nat)
    requires TakesAll(syn, pattern, path, cuts) && k <= |pattern|
    ensures cuts[k] <= |path| && forall j | k <= j <= |pattern| :: cuts[k] <= cuts[j]
    decreases |pattern| - k
  {
    if k < |pattern| {
      CutsAscend(syn, pattern, path, cuts, k + 1);
      assert Takes(syn, pattern, k, path, cuts[k], cuts[k + 1]);
    }
  }

  /** A list of segments takes a path as its last segment and the ones before it take two pieces of it. */
  lemma {:induction false} MatchesSplits(segs: seq<Segment>, s: Segment, path: Path)
    ensures Matches(segs + [s], path) <==> exists i: nat | i <= |path| :: Matches(segs, path[..i]) && Matches([s], path[i..])
    decreases |segs|
  {
    hide PartMatches;
    var all := segs + [s];
    if segs == [] {
      assert all == [s] && path[0..] == path && path[..0] == [];
    } else {
      var rest := segs[1..];
      assert all[1..] == rest + [s] && all[0] == segs[0];
      if segs[0].Globs? {
        GlobsSplit(segs, s, path);
      } else if path != [] {
        MatchesSplits(rest, s, path[1..]);
        PartSplits(segs, s, path);
      } else {
        assert path[..0] == [];
      }
    }
  }

  lemma PartSplits(segs: seq<Segment>, s: Segment, path: Path)
    requires segs != [] && !segs[0].Globs? && path != []
    ensures (exists i: nat | i <= |path| :: Matches(segs, path[..i]) && Matches([s], path[i..])) <==>
      PartMatches(segs[0], path[0])
      && exists i: nat | i <= |path[1..]| :: Matches(segs[1..], path[1..][..i]) && Matches([s], path[1..][i..])
  {
    hide PartMatches;
    if i: nat :| i <= |path| && Matches(segs, path[..i]) && Matches([s], path[i..]) {
      assert path[..i][1..] == path[1..][..i - 1] && path[i..] == path[1..][i - 1..];
    }
    if PartMatches(segs[0], path[0]) {
      if i: nat :| i <= |path[1..]| && Matches(segs[1..], path[1..][..i]) && Matches([s], path[1..][i..]) {
        assert path[..i + 1][1..] == path[1..][..i] && path[i + 1..] == path[1..][i..];
        assert Matches(segs, path[..i + 1]);
      }
    }
  }

  lemma GlobsSplit(segs: seq<Segment>, s: Segment, path: Path)
    requires segs != [] && segs[0].Globs?
    ensures Matches(segs + [s], path) <==> exists i: nat | i <= |path| :: Matches(segs, path[..i]) && Matches([s], path[i..])
    decreases |segs|, 0
  {
    hide *;
    var rest, all := segs[1..], segs + [s];
    assert all[1..] == rest + [s] && all[0] == segs[0];
    GlobsFirst(all, path);
    if Matches(all, path) {
      var j: nat :| j <= |path| && Matches(rest + [s], path[j..]);
      MatchesSplits(rest, s, path[j..]);
      var i := GlobsSplitAt(segs, s, path, j);
    }
    if i: nat :| i <= |path| && Matches(segs, path[..i]) && Matches([s], path[i..]) {
      var j := GlobsJoin(segs, s, path, i);
      MatchesSplits(rest, s, path[j..]);
    }
  }

  lemma GlobsSplitAt(segs: seq<Segment>, s: Segment, path: Path, j: nat) returns (i: nat)
    requires segs != [] && segs[0].Globs? && j <= |path|
    requires exists i: nat | i <= |path[j..]| :: Matches(segs[1..], path[j..][..i]) && Matches([s], path[j..][i..])
    ensures i <= |path| && Matches(segs, path[..i]) && Matches([s], path[i..])
  {
    hide *;
    var k: nat :| k <= |path[j..]| && Matches(segs[1..], path[j..][..k]) && Matches([s], path[j..][k..]);
    i := j + k;
    assert path[j..][..k] == path[..i][j..] && path[j..][k..] == path[i..];
    GlobsFirst(segs, path[..i]);
  }

  lemma GlobsJoin(segs: seq<Segment>, s: Segment, path: Path, i: nat) returns (j: nat)
    requires segs != [] && segs[0].Globs? && i <= |path| && Matches(segs, path[..i]) && Matches([s], path[i..])
    ensures j <= |path|
    ensures exists k: nat | k <= |path[j..]| :: Matches(segs[1..], path[j..][..k]) && Matches([s], path[j..][k..])
  {
    hide *;
    GlobsFirst(segs, path[..i]);
    j :| j <= |path[..i]| && Matches(segs[1..], path[..i][j..]);
    assert path[..i][j..] == path[j..][..i - j] && path[i..] == path[j..][i - j..];
  }

  lemma GlobsFirst(segs: seq<Segment>, path: Path)
    requires segs != [] && segs[0].Globs?
    ensures Matches(segs, path) <==> exists i: nat | i <= |path| :: Matches(segs[1..], path[i..])
  {
  }

  // ---- compiled and textual meaning agree ----

  /** Compiling keeps the meaning: the segments of a pattern match exactly the paths its parts take. */
  lemma {:induction false} SegmentsMatchText(syn: Syntax, pattern: seq<string>, path: Path)
    ensures Matches(PlainSegments(syn, pattern), path) <==> TextMatches(syn, pattern, path)
    decreases |pattern|
  {
    if pattern == [] {
      NoPattern(syn, path);
    } else {
      var n := |pattern| - 1;
      forall i: nat | i <= |path|
        ensures Matches(PlainSegments(syn, pattern[..n]), path[..i]) <==> TextMatches(syn, pattern[..n], path[..i])
      {
        SegmentsMatchText(syn, pattern[..n], path[..i]);
      }
      TextSplits(syn, pattern, path);
      if pattern[n] == "" && n > 0 {
        EmptyLast(syn, pattern, path);
      } else {
        SegmentLast(syn, pattern, path);
      }
    }
  }

  /** An empty last part takes nothing, and is not compiled. */
  lemma EmptyLast(syn: Syntax, pattern: seq<string>, path: Path)
    requires |pattern| > 1 && pattern[|pattern| - 1] == ""
    requires var init := pattern[..|pattern| - 1];
      && (forall i: nat | i <= |path| :: Matches(PlainSegments(syn, init), path[..i]) <==> TextMatches(syn, init, path[..i]))
      && (TextMatches(syn, pattern, path) <==>
           exists i: nat | i <= |path| :: TextMatches(syn, init, path[..i]) && Takes(syn, pattern, |pattern| - 1, path, i, |path|))
    ensures Matches(PlainSegments(syn, pattern), path) <==> TextMatches(syn, pattern, path)
  {
    hide TextMatches, Matches;
    var init := pattern[..|pattern| - 1];
    assert PlainSegments(syn, pattern) == PlainSegments(syn, init);
    assert path[..|path|] == path;
    assert Takes(syn, pattern, |pattern| - 1, path, |path|, |path|);
  }

  lemma SegmentLast(syn: Syntax, pattern: seq<string>, path: Path)
    requires pattern != [] && !(|pattern| > 1 && pattern[|pattern| - 1] == "")
    requires var init := pattern[..|pattern| - 1];
      && (forall i: nat | i <= |path| :: Matches(PlainSegments(syn, init), path[..i]) <==> TextMatches(syn, init, path[..i]))
      && (TextMatches(syn, pattern, path) <==>
           exists i: nat | i <= |path| :: TextMatches(syn, init, path[..i]) && Takes(syn, pattern, |pattern| - 1, path, i, |path|))
    ensures Matches(PlainSegments(syn, pattern), path) <==> TextMatches(syn, pattern, path)
  {
    var n := |pattern| - 1;
    var s := SegmentOf(syn, pattern[n]);
    assert PlainSegments(syn, pattern) == PlainSegments(syn, pattern[..n]) + [s];
    MatchesSplits(PlainSegments(syn, pattern[..n]), s, path);
    forall i: nat | i <= |path|
      ensures Takes(syn, pattern, n, path, i, |path|) <==> Matches([s], path[i..])
    {
      LastTakes(syn, pattern, path, i);
    }
    hide TextMatches, Matches, Takes, PlainSegments;
  }

  lemma NoPattern(syn: Syntax, path: Path)
    ensures TextMatches(syn, [], path) <==> path == []
  {
    if path == [] {
      assert TakesAll(syn, [], path, [0]);
    }
  }

  lemma LastTakes(syn: Syntax, pattern: seq<string>, path: Path, i: nat)
    requires pattern != [] && i <= |path|
    ensures var n := |pattern| - 1;
      Takes(syn, pattern, n, path, i, |path|) <==>
        if n > 0 && pattern[n] == "" then i == |path| else Matches([SegmentOf(syn, pattern[n])], path[i..])
  {
    var s := SegmentOf(syn, pattern[|pattern| - 1]);
    OneSegment(s, path[i..]);
  }

  lemma OneSegment(s: Segment, path: Path)
    ensures Matches([s], path) <==> s.Globs? || (|path| == 1 && PartMatches(s, path[0]))
  {
    if s.Globs? {
      GlobsAlone([s], path);
    }
  }

  // ---- what a call reports ----

  /** The last part that is not an empty one behind the first is `**`. */
  predicate EndsOpen(pattern: seq<string>) {
    exists k | 0 <= k < |pattern| :: pattern[k] == "**" && forall j | k < j < |pattern| :: pattern[j] == ""
  }

  lemma {:induction false} EndsOpenIs(syn: Syntax, pattern: seq<string>)
    ensures EndsInGlobs(PlainSegments(syn, pattern)) <==> EndsOpen(pattern)
    decreases |pattern|
  {
    if pattern != [] {
      EndsOpenLast(pattern);
      hide EndsOpen;
      EndsOpenIs(syn, pattern[..|pattern| - 1]);
    } else {
      assert PlainSegments(syn, pattern) == [];
    }
  }

  lemma EndsOpenLast(pattern: seq<string>)
    requires pattern != []
    ensures var n := |pattern| - 1;
      EndsOpen(pattern) <==> pattern[n] == "**" || (pattern[n] == "" && EndsOpen(pattern[..n]))
  {
    var n := |pattern| - 1;
    var init := pattern[..n];
    if EndsOpen(pattern) {
      var k :| 0 <= k < |pattern| && pattern[k] == "**" && forall j | k < j < |pattern| :: pattern[j] == "";
      if k < n {
        OpensAt(init, k);
      }
    }
    if pattern[n] == "**" {
      OpensAt(pattern, n);
    }
    if pattern[n] == "" && EndsOpen(init) {
      var k :| 0 <= k < n && init[k] == "**" && forall j | k < j < n :: init[j] == "";
      OpensAt(pattern, k);
    }
  }

  lemma OpensAt(pattern: seq<string>, k: nat)
    requires k < |pattern| && pattern[k] == "**" && forall j | k < j < |pattern| :: pattern[j] == ""
    ensures EndsOpen(pattern)
  {
  }

  /**
    * A pattern asks for the paths in the tree that its parts take, for directories only if it ends in a slash; a file
    * counts under a final `**` only if that takes a name.
    */
  lemma WantedIsText(t: Tree, syn: Syntax, split: seq<string>, p: Path)
    requires split != []
    ensures var slash := |split| > 1 && split[|split| - 1] == "";
      var pattern := if slash then split[..|split| - 1] else split;
      Wanted(t, syn, split, p) <==>
        && (p in t.dirs || (p in t.files && !slash))
        && (slash ==> p in t.dirs)
        && TextMatches(syn, pattern, p)
        && (p !in t.dirs && EndsOpen(pattern) ==> p != [] && TextMatches(syn, pattern, p[..|p| - 1]))
  {
    var pattern := Kept(split);
    SegmentsMatchText(syn, pattern, p);
    EndsOpenIs(syn, pattern);
    ReportedIsMatched(PlainSegments(syn, pattern), p, t.IsDir(p));
    if p != [] {
      SegmentsMatchText(syn, pattern, p[..|p| - 1]);
    }
  }

  /** A pattern of one part other than `**` asks for the entries of the root whose name it accepts. */
  lemma OnePart(t: Tree, syn: Syntax, part: string, p: Path)
    requires part != "**"
    ensures Wanted(t, syn, [part], p) <==>
      && (p in t.dirs || p in t.files) && |p| == 1
      && if syn.hasMagic(part) then syn.regexp(part)(p[0]) else p[0] == syn.unescape(part)
  {
    WantedIsText(t, syn, [part], p);
    OneText(syn, part, p);
    if EndsOpen([part]) {
      assert false;
    }
  }

  lemma OneText(syn: Syntax, part: string, path: Path)
    requires part != "**"
    ensures TextMatches(syn, [part], path) <==>
      |path| == 1 && if syn.hasMagic(part) then syn.regexp(part)(path[0]) else path[0] == syn.unescape(part)
  {
    if TextMatches(syn, [part], path) {
      var cuts: seq<nat> :| TakesAll(syn, [part], path, cuts);
      assert Takes(syn, [part], 0, path, cuts[0], cuts[1]);
    }
    if |path| == 1 && Takes(syn, [part], 0, path, 0, 1) {
      assert TakesAll(syn, [part], path, [0, 1]);
    }
  }

  /** A call with one such pattern reports exactly these entries, each once. */
  method GlobOnePart(tree: Tree, syn: Syntax, part: string) returns (out: seq<Match>)
    requires tree.Valid() && part != "**" && Named(PlainSegments(syn, Kept([part])))
    ensures forall i, j | 0 <= i < j < |out| :: out[i].path != out[j].path
    ensures forall p :: Contains(out, p) <==>
      && (p in tree.dirs || p in tree.files) && |p| == 1
      && if syn.hasMagic(part) then syn.regexp(part)(p[0]) else p[0] == syn.unescape(part)
  {
    out := FsGlob(tree, syn, [[part]]);
    forall p
      ensures WantedByAny(tree, syn, [[part]], p) <==>
        && (p in tree.dirs || p in tree.files) && |p| == 1
        && if syn.hasMagic(part) then syn.regexp(part)(p[0]) else p[0] == syn.unescape(part)
    {
      hide Wanted;
      OnePart(tree, syn, part, p);
      assert [[part]][0] == [part];
    }
  }
}
