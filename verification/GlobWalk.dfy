/** The glob walker over a finite tree without symbolic links and dot names. */
module GlobWalk {
  import opened GlobMatch

  type Path = seq<string>

  /** An ordinary name: neither a dot name (`.` and `..` among them) nor one that no entry can have. */
  predicate NameOk(name: string) {
    name != "" && name[0] != '.' && '/' !in name && '\0' !in name
  }

  /** A tree rooted at the working directory: the listing of every directory, and the files. */
  datatype Tree = Tree(dirs: map<Path, seq<string>>, files: set<Path>, depth: nat) {

    predicate Exists(p: Path) {
      p in dirs || p in files
    }

    predicate IsDir(p: Path) {
      p in dirs
    }

    ghost predicate Valid() {
      && [] in dirs
      && (forall p | p in dirs :: p !in files && |p| <= depth)
      && (forall p | p in dirs :: forall i | 0 <= i < |dirs[p]| :: NameOk(dirs[p][i]) && Exists(p + [dirs[p][i]]))
      && (forall p | Exists(p) && p != [] :: p[..|p| - 1] in dirs && p[|p| - 1] in dirs[p[..|p| - 1]])
    }
  }

  // ---- the keys of the visited guard ----

  function Count(s: string): nat {
    if s == "" then 0 else Count(s[..|s| - 1]) + if s[|s| - 1] == '/' then 1 else 0
  }

  /** joinRel folded over the parts of a path, and strings.Join in segKey. */
  function Join(parts: seq<string>): (s: string) {
    if parts == [] then ""
    else if |parts| == 1 then parts[0]
    else Join(parts[..|parts| - 1]) + "/" + parts[|parts| - 1]
  }

  function Raws(segs: seq<Segment>): (r: seq<string>)
    ensures |r| == |segs|
  {
    seq(|segs|, i requires 0 <= i < |segs| => segs[i].Raw())
  }

  function Key(rel: Path, segs: seq<Segment>): string {
    Join(rel) + "\0" + Join(Raws(segs))
  }

  lemma {:induction false} CountConcat(a: string, b: string)
    ensures Count(a + b) == Count(a) + Count(b)
    decreases |b|
  {
    if b == "" {
      assert a + b == a;
    } else {
      CountConcat(a, b[..|b| - 1]);
      assert (a + b)[..|a + b| - 1] == a + b[..|b| - 1];
    }
  }

  lemma {:induction false} CountNone(s: string)
    requires '/' !in s
    ensures Count(s) == 0
    decreases |s|
  {
    if s != "" {
      assert s[|s| - 1] in s;
      CountNone(s[..|s| - 1]);
    }
  }

  lemma {:induction false} CountJoin(parts: seq<string>)
    requires parts != [] && forall p | p in parts :: '/' !in p
    ensures Count(Join(parts)) == |parts| - 1
    decreases |parts|
  {
    var init, last := parts[..|parts| - 1], parts[|parts| - 1];
    CountNone(last);
    if |parts| > 1 {
      CountJoin(init);
      CountConcat(Join(init) + "/", last);
      CountConcat(Join(init), "/");
      assert Count("/") == 1 by {
        assert "/"[..0] == "";
      }
    }
  }

  /** The part after the last slash is unambiguous. */
  lemma LastSlash(a: string, x: string, b: string, y: string)
    requires '/' !in x && '/' !in y && a + "/" + x == b + "/" + y
    ensures a == b && x == y
  {
    var s := a + "/" + x;
    assert s[|a|] == '/' && s[|b|] == '/';
    assert s[|a| + 1..] == x && s[|b| + 1..] == y;
    assert forall i | |a| < i < |s| :: s[i] == x[i - |a| - 1] && s[i] != '/';
    assert forall i | |b| < i < |s| :: s[i] == y[i - |b| - 1] && s[i] != '/';
    assert |a| == |b|;
    assert s[..|a|] == a && s[..|b|] == b;
  }

  lemma {:induction false} JoinInjective(p: Path, q: Path)
    requires |p| == |q| && (forall n | n in p + q :: '/' !in n) && Join(p) == Join(q)
    ensures p == q
    decreases |p|
  {
    if |p| > 1 {
      var n := |p| - 1;
      assert p[n] in p + q && q[n] in p + q;
      LastSlash(Join(p[..n]), p[n], Join(q[..n]), q[n]);
      forall m | m in p[..n] + q[..n]
        ensures '/' !in m
      {
        assert m in p + q;
      }
      JoinInjective(p[..n], q[..n]);
    }
  }

  lemma {:induction false} JoinHasNoNul(p: Path)
    requires forall n | n in p :: NameOk(n)
    ensures '\0' !in Join(p) && (p != [] ==> Join(p) != "")
    decreases |p|
  {
    if |p| > 1 {
      JoinHasNoNul(p[..|p| - 1]);
      assert p[|p| - 1] in p;
    } else if |p| == 1 {
      assert p[0] in p;
    }
  }

  lemma FirstNul(a: string, x: string, b: string, y: string)
    requires '\0' !in a && '\0' !in b && a + "\0" + x == b + "\0" + y
    ensures a == b && x == y
  {
    var s := a + "\0" + x;
    assert s[|a|] == '\0' && s[|b|] == '\0';
    assert forall i | 0 <= i < |a| :: s[i] == a[i] && s[i] != '\0';
    assert forall i | 0 <= i < |b| :: s[i] == b[i] && s[i] != '\0';
    assert |a| == |b|;
    assert s[..|a|] == a && s[..|b|] == b;
    assert s[|a| + 1..] == x && s[|b| + 1..] == y;
  }

  /** The segments of a pattern that was split at its slashes, and whose literals are ordinary names. */
  predicate Named(segs: seq<Segment>) {
    forall i | 0 <= i < |segs| :: if segs[i].Literal? then NameOk(segs[i].name) else '/' !in segs[i].Raw()
  }

  /** A key of the guard names one path and one number of remaining segments. */
  lemma KeyIsInjective(p: Path, a: seq<Segment>, q: Path, b: seq<Segment>)
    requires (forall n | n in p :: NameOk(n)) && (forall n | n in q :: NameOk(n))
    requires a != [] && b != [] && Named(a) && Named(b)
    requires Key(p, a) == Key(q, b)
    ensures p == q && |a| == |b|
  {
    JoinHasNoNul(p);
    JoinHasNoNul(q);
    FirstNul(Join(p), Join(Raws(a)), Join(q), Join(Raws(b)));
    CountJoin(Raws(a));
    CountJoin(Raws(b));
    if p != [] && q != [] {
      CountJoin(p);
      CountJoin(q);
      JoinInjective(p, q);
    }
  }

  // ---- which paths the walker should report ----

  /**
    * A path is reported when its parts match; but a trailing `**` that takes no part
    * does not report a file, only a directory.
    */
  ghost predicate Reported(segs: seq<Segment>, parts: seq<string>, isDir: bool) {
    if isDir || !EndsInGlobs(segs) then Matches(segs, parts)
    else parts != [] && Matches(segs, parts[..|parts| - 1])
  }

  /** Everything reported matches; a path that is a directory, or whose pattern has no trailing `**`, is reported if it matches. */
  lemma ReportedIsMatched(segs: seq<Segment>, parts: seq<string>, isDir: bool)
    ensures Reported(segs, parts, isDir) ==> Matches(segs, parts)
    ensures Matches(segs, parts) && !Reported(segs, parts, isDir) ==> !isDir && EndsInGlobs(segs)
  {
    if !isDir && EndsInGlobs(segs) && Reported(segs, parts, isDir) {
      OneMorePart(segs, parts[..|parts| - 1], parts[|parts| - 1]);
      assert parts == parts[..|parts| - 1] + [parts[|parts| - 1]];
    }
  }

  /** A trailing `**` takes one more part. */
  lemma {:induction false} OneMorePart(segs: seq<Segment>, parts: seq<string>, part: string)
    requires EndsInGlobs(segs) && Matches(segs, parts)
    ensures Matches(segs, parts + [part])
    decreases |segs|
  {
    var all := parts + [part];
    if |segs| == 1 {
      GlobsAlone(segs, all);
    } else if segs[0].Globs? {
      var i :| 0 <= i <= |parts| && Matches(segs[1..], parts[i..]);
      OneMorePart(segs[1..], parts[i..], part);
      assert all[i..] == parts[i..] + [part];
    } else {
      OneMorePart(segs[1..], parts[1..], part);
      assert all[1..] == parts[1..] + [part] && all[0] == parts[0];
    }
  }

  /** The walker and the matcher differ on the file a and the pattern a, `**`. */
  lemma TrailingGlobsNeedDirectory()
    ensures var segs := [Literal("a"), Globs];
      Matches(segs, ["a"]) && !Reported(segs, ["a"], false) && Reported(segs, ["a"], true)
  {
    var segs := [Literal("a"), Globs];
    assert segs[1..] == [Globs] && ["a"][1..] == [] && ["a"][..0] == [];
    GlobsAlone([Globs], []);
  }

  lemma ReportedEmpty(parts: seq<string>, isDir: bool)
    ensures Reported([], parts, isDir) <==> parts == []
  {
  }

  /** Only `**` segments match the empty path. */
  lemma {:induction false} MatchesNothing(segs: seq<Segment>)
    requires Matches(segs, []) && segs != []
    ensures EndsInGlobs(segs)
    decreases |segs|
  {
    if segs[0].Globs? && |segs| > 1 {
      GlobsStep(segs, []);
      MatchesNothing(segs[1..]);
    }
  }

  lemma ReportedPart(segs: seq<Segment>, parts: seq<string>, isDir: bool)
    requires segs != [] && !segs[0].Globs?
    ensures Reported(segs, parts, isDir) <==>
      parts != [] && PartMatches(segs[0], parts[0]) && Reported(segs[1..], parts[1..], isDir)
  {
    var rest := segs[1..];
    assert EndsInGlobs(segs) == EndsInGlobs(rest);
    if !isDir && EndsInGlobs(segs) && parts != [] {
      var n := |parts| - 1;
      assert n > 0 ==> parts[..n][1..] == parts[1..][..n - 1];
      assert n > 0 ==> parts[..n][0] == parts[0];
    }
  }

  lemma ReportedGlobs(segs: seq<Segment>, parts: seq<string>, isDir: bool)
    requires segs != [] && segs[0].Globs? && (parts == [] ==> isDir)
    ensures Reported(segs, parts, isDir) <==>
      || Reported(segs[1..], parts, isDir)
      || (parts != [] && Reported(segs, parts[1..], isDir))
      || (|parts| == 1 && !isDir && |segs| == 1)
  {
    var rest := segs[1..];
    assert rest != [] ==> EndsInGlobs(rest) == EndsInGlobs(segs);
    GlobsStep(segs, parts);
    if !isDir && EndsInGlobs(segs) && parts != [] {
      var n := |parts| - 1;
      GlobsStep(segs, parts[..n]);
      assert n > 0 ==> parts[..n][1..] == parts[1..][..n - 1];
      if rest == [] {
        GlobsAlone(segs, parts[..n]);
        if n > 0 {
          GlobsAlone(segs, parts[1..][..n - 1]);
        }
      }
    } else if !isDir && |parts| == 1 {
      MatchesOnNothing(segs);
    }
  }

  lemma MatchesOnNothing(segs: seq<Segment>)
    requires segs != [] && !EndsInGlobs(segs)
    ensures !Matches(segs, [])
  {
    if Matches(segs, []) {
      MatchesNothing(segs);
      assert false;
    }
  }

  lemma GlobsAlone(segs: seq<Segment>, parts: seq<string>)
    requires |segs| == 1 && segs[0].Globs?
    ensures Matches(segs, parts)
  {
    assert parts[|parts|..] == [];
    assert Matches(segs[1..], parts[|parts|..]);
  }

  // ---- the set of paths below one directory that the walker should report ----

  ghost predicate Target(t: Tree, dirOnly: bool, rel: Path, segs: seq<Segment>, p: Path) {
    && rel <= p
    && (dirOnly ==> t.IsDir(p))
    && Reported(segs, p[|rel|..], t.IsDir(p))
  }

  ghost function Targets(t: Tree, dirOnly: bool, rel: Path, segs: seq<Segment>): set<Path> {
    set p | p in t.dirs.Keys + t.files && Target(t, dirOnly, rel, segs, p)
  }

  /** What emit adds for one path. */
  ghost function Emitted(t: Tree, dirOnly: bool, p: Path): set<Path> {
    if dirOnly && !t.IsDir(p) then {} else {p}
  }

  /** The targets of a `**` walk that lie under one entry. */
  ghost function UnderGlobs(t: Tree, dirOnly: bool, rel: Path, segs: seq<Segment>, name: string): set<Path> {
    if t.IsDir(rel + [name]) then Targets(t, dirOnly, rel + [name], segs)
    else if |segs| == 1 then Emitted(t, dirOnly, rel + [name])
    else {}
  }

  /** The targets of any other segment that lie under one entry. */
  ghost function UnderPart(t: Tree, dirOnly: bool, rel: Path, segs: seq<Segment>, name: string): set<Path>
    requires segs != [] && !segs[0].Globs?
  {
    if !PartMatches(segs[0], name) then {}
    else if |segs| == 1 then Emitted(t, dirOnly, rel + [name])
    else if t.IsDir(rel + [name]) then Targets(t, dirOnly, rel + [name], segs[1..])
    else {}
  }

  ghost function UnderFirst(t: Tree, dirOnly: bool, rel: Path, segs: seq<Segment>, names: seq<string>): set<Path>
    requires segs != []
    decreases |names|
  {
    if names == [] then {}
    else
      var last := names[|names| - 1];
      UnderFirst(t, dirOnly, rel, segs, names[..|names| - 1])
      + if segs[0].Globs? then UnderGlobs(t, dirOnly, rel, segs, last) else UnderPart(t, dirOnly, rel, segs, last)
  }

  lemma {:induction false} UnderFirstHas(t: Tree, dirOnly: bool, rel: Path, segs: seq<Segment>, names: seq<string>, p: Path)
    requires segs != []
    ensures p in UnderFirst(t, dirOnly, rel, segs, names) <==>
      exists j | 0 <= j < |names| ::
        p in if segs[0].Globs? then UnderGlobs(t, dirOnly, rel, segs, names[j]) else UnderPart(t, dirOnly, rel, segs, names[j])
    decreases |names|
  {
    hide UnderGlobs, UnderPart;
    if names != [] {
      UnderFirstHas(t, dirOnly, rel, segs, names[..|names| - 1], p);
    }
  }

  lemma Parent(t: Tree, p: Path)
    requires t.Valid() && t.Exists(p) && p != []
    ensures t.IsDir(p[..|p| - 1]) && p[|p| - 1] in t.dirs[p[..|p| - 1]]
  {
    hide NameOk;
  }

  /** Every ancestor of an existing path is a directory, and lists the next part. */
  lemma {:induction false} Ancestors(t: Tree, p: Path, k: nat)
    requires t.Valid() && t.Exists(p) && k < |p|
    ensures t.IsDir(p[..k]) && p[k] in t.dirs[p[..k]]
    decreases |p|
  {
    hide Tree.Valid;
    Parent(t, p);
    var n := |p| - 1;
    if k < n {
      Ancestors(t, p[..n], k);
      assert p[..n][..k] == p[..k];
    }
  }

  lemma Listed(t: Tree, rel: Path, name: string)
    requires t.Valid() && t.IsDir(rel) && name in t.dirs[rel]
    ensures NameOk(name) && t.Exists(rel + [name])
  {
    hide NameOk;
  }

  /** Extending a path by one part moves one part from the remainder. */
  lemma OnePart(rel: Path, name: string, p: Path)
    ensures rel + [name] <= p <==> rel < p && p[|rel|] == name
    ensures rel + [name] <= p ==> p[|rel|..][0] == name && p[|rel|..][1..] == p[|rel + [name]|..]
  {
  }

  lemma InTargets(t: Tree, dirOnly: bool, rel: Path, segs: seq<Segment>, p: Path)
    ensures p in Targets(t, dirOnly, rel, segs) <==>
      t.Exists(p) && rel <= p && (dirOnly ==> t.IsDir(p)) && Reported(segs, p[|rel|..], t.IsDir(p))
  {
    hide Reported;
  }

  /** A part segment: the targets are exactly those found under the entries. */
  lemma PartTargets(t: Tree, dirOnly: bool, rel: Path, segs: seq<Segment>)
    requires t.Valid() && t.IsDir(rel) && segs != [] && !segs[0].Globs?
    ensures Targets(t, dirOnly, rel, segs) == UnderFirst(t, dirOnly, rel, segs, t.dirs[rel])
  {
    hide Reported, UnderFirst;
    forall p
      ensures p in Targets(t, dirOnly, rel, segs) <==> p in UnderFirst(t, dirOnly, rel, segs, t.dirs[rel])
    {
      UnderFirstHas(t, dirOnly, rel, segs, t.dirs[rel], p);
      if p in Targets(t, dirOnly, rel, segs) {
        PartTargetIsUnder(t, dirOnly, rel, segs, p);
      }
      forall j | 0 <= j < |t.dirs[rel]| && p in UnderPart(t, dirOnly, rel, segs, t.dirs[rel][j])
        ensures p in Targets(t, dirOnly, rel, segs)
      {
        UnderPartIsTarget(t, dirOnly, rel, segs, t.dirs[rel][j], p);
      }
    }
  }

  lemma PartTargetIsUnder(t: Tree, dirOnly: bool, rel: Path, segs: seq<Segment>, p: Path)
    requires t.Valid() && t.IsDir(rel) && segs != [] && !segs[0].Globs?
    requires p in Targets(t, dirOnly, rel, segs)
    ensures exists j | 0 <= j < |t.dirs[rel]| :: p in UnderPart(t, dirOnly, rel, segs, t.dirs[rel][j])
  {
    hide Reported, Tree.Valid, Targets, PartMatches;
    InTargets(t, dirOnly, rel, segs, p);
    var parts, isDir := p[|rel|..], t.IsDir(p);
    ReportedPart(segs, parts, isDir);
    Ancestors(t, p, |rel|);
    assert p[..|rel|] == rel && parts[0] == p[|rel|];
    var name := parts[0];
    var j :| 0 <= j < |t.dirs[rel]| && t.dirs[rel][j] == name;
    var child := rel + [name];
    OnePart(rel, name, p);
    InTargets(t, dirOnly, child, segs[1..], p);
    ReportedEmpty(parts[1..], isDir);
    if |segs| == 1 {
      assert segs[1..] == [] && p == child;
    } else if |p| == |child| {
      assert p == child && parts[1..] == [];
      FileNeedsPart(segs[1..], isDir);
    } else {
      Ancestors(t, p, |rel| + 1);
      assert p[..|rel| + 1] == child;
    }
    assert p in UnderPart(t, dirOnly, rel, segs, t.dirs[rel][j]);
  }

  /** No segments are left for a file. */
  lemma FileNeedsPart(segs: seq<Segment>, isDir: bool)
    requires Reported(segs, [], isDir) && segs != []
    ensures isDir
  {
    if !isDir && !EndsInGlobs(segs) {
      MatchesOnNothing(segs);
      assert false;
    }
  }

  lemma UnderPartIsTarget(t: Tree, dirOnly: bool, rel: Path, segs: seq<Segment>, name: string, p: Path)
    requires t.Valid() && t.IsDir(rel) && segs != [] && !segs[0].Globs? && name in t.dirs[rel]
    requires p in UnderPart(t, dirOnly, rel, segs, name)
    ensures p in Targets(t, dirOnly, rel, segs)
  {
    hide Reported, Tree.Valid, Targets, PartMatches;
    InTargets(t, dirOnly, rel, segs, p);
    Listed(t, rel, name);
    InTargets(t, dirOnly, rel + [name], segs[1..], p);
    OnePart(rel, name, p);
    ReportedPart(segs, p[|rel|..], t.IsDir(p));
    ReportedEmpty(p[|rel|..][1..], t.IsDir(p));
    assert |segs| == 1 ==> segs[1..] == [];
  }

  /** A `**` segment: the targets without it, and those found under the entries with it. */
  lemma GlobsTargets(t: Tree, dirOnly: bool, rel: Path, segs: seq<Segment>)
    requires t.Valid() && t.IsDir(rel) && segs != [] && segs[0].Globs?
    ensures Targets(t, dirOnly, rel, segs)
      == Targets(t, dirOnly, rel, segs[1..]) + UnderFirst(t, dirOnly, rel, segs, t.dirs[rel])
  {
    hide Reported, UnderFirst;
    forall p
      ensures p in Targets(t, dirOnly, rel, segs) <==>
        p in Targets(t, dirOnly, rel, segs[1..]) + UnderFirst(t, dirOnly, rel, segs, t.dirs[rel])
    {
      UnderFirstHas(t, dirOnly, rel, segs, t.dirs[rel], p);
      if p in Targets(t, dirOnly, rel, segs) && p !in Targets(t, dirOnly, rel, segs[1..]) {
        GlobsTargetIsUnder(t, dirOnly, rel, segs, p);
      }
      if p in Targets(t, dirOnly, rel, segs[1..]) {
        RestIsTarget(t, dirOnly, rel, segs, p);
      }
      forall j | 0 <= j < |t.dirs[rel]| && p in UnderGlobs(t, dirOnly, rel, segs, t.dirs[rel][j])
        ensures p in Targets(t, dirOnly, rel, segs)
      {
        UnderGlobsIsTarget(t, dirOnly, rel, segs, t.dirs[rel][j], p);
      }
    }
  }

  lemma RestIsTarget(t: Tree, dirOnly: bool, rel: Path, segs: seq<Segment>, p: Path)
    requires t.Valid() && t.IsDir(rel) && segs != [] && segs[0].Globs?
    requires p in Targets(t, dirOnly, rel, segs[1..])
    ensures p in Targets(t, dirOnly, rel, segs)
  {
    hide Reported, Tree.Valid, Targets;
    InTargets(t, dirOnly, rel, segs, p);
    InTargets(t, dirOnly, rel, segs[1..], p);
    assert p[|rel|..] == [] ==> p == rel;
    ReportedGlobs(segs, p[|rel|..], t.IsDir(p));
  }

  lemma GlobsTargetIsUnder(t: Tree, dirOnly: bool, rel: Path, segs: seq<Segment>, p: Path)
    requires t.Valid() && t.IsDir(rel) && segs != [] && segs[0].Globs?
    requires p in Targets(t, dirOnly, rel, segs) && p !in Targets(t, dirOnly, rel, segs[1..])
    ensures exists j | 0 <= j < |t.dirs[rel]| :: p in UnderGlobs(t, dirOnly, rel, segs, t.dirs[rel][j])
  {
    hide Reported, Tree.Valid, Targets;
    InTargets(t, dirOnly, rel, segs, p);
    InTargets(t, dirOnly, rel, segs[1..], p);
    var parts, isDir := p[|rel|..], t.IsDir(p);
    assert parts == [] ==> p == rel;
    ReportedGlobs(segs, parts, isDir);
    Ancestors(t, p, |rel|);
    assert p[..|rel|] == rel && parts[0] == p[|rel|];
    var name := parts[0];
    var j :| 0 <= j < |t.dirs[rel]| && t.dirs[rel][j] == name;
    var child := rel + [name];
    OnePart(rel, name, p);
    InTargets(t, dirOnly, child, segs, p);
    if |p| == |child| {
      assert p == child && parts[1..] == [];
      GlobsNeedPart(segs);
    } else {
      Ancestors(t, p, |rel| + 1);
      assert p[..|rel| + 1] == child;
    }
    assert p in UnderGlobs(t, dirOnly, rel, segs, t.dirs[rel][j]);
  }

  lemma GlobsNeedPart(segs: seq<Segment>)
    requires segs != []
    ensures !Reported(segs, [], false)
  {
    if Reported(segs, [], false) {
      FileNeedsPart(segs, false);
      assert false;
    }
  }

  lemma UnderGlobsIsTarget(t: Tree, dirOnly: bool, rel: Path, segs: seq<Segment>, name: string, p: Path)
    requires t.Valid() && t.IsDir(rel) && segs != [] && segs[0].Globs? && name in t.dirs[rel]
    requires p in UnderGlobs(t, dirOnly, rel, segs, name)
    ensures p in Targets(t, dirOnly, rel, segs)
  {
    hide Reported, Tree.Valid, Targets;
    InTargets(t, dirOnly, rel, segs, p);
    Listed(t, rel, name);
    InTargets(t, dirOnly, rel + [name], segs, p);
    OnePart(rel, name, p);
    ReportedGlobs(segs, p[|rel|..], t.IsDir(p));
  }

  /** One more entry. */
  lemma UnderFirstNext(t: Tree, dirOnly: bool, rel: Path, segs: seq<Segment>, names: seq<string>, i: nat)
    requires segs != [] && i < |names|
    ensures UnderFirst(t, dirOnly, rel, segs, names[..i + 1]) == UnderFirst(t, dirOnly, rel, segs, names[..i])
      + if segs[0].Globs? then UnderGlobs(t, dirOnly, rel, segs, names[i]) else UnderPart(t, dirOnly, rel, segs, names[i])
  {
    assert names[..i + 1][..i] == names[..i] && names[..i + 1][i] == names[i];
  }

  lemma UnderFirstEmpty(t: Tree, dirOnly: bool, rel: Path, segs: seq<Segment>)
    requires segs != []
    ensures UnderFirst(t, dirOnly, rel, segs, []) == {}
  {
  }

  // ---- the walker ----

  datatype Match = Match(path: Path, isDir: bool)

  /** A path and the number of segments still to match below it. */
  datatype Pair = Pair(rel: Path, left: nat)

  class GlobWalker {
    const tree: Tree
    const dirOnly: bool
    ghost const pattern: seq<Segment>
    // What earlier patterns of the same call have reported.
    ghost const seen0: set<Path>
    var seen: set<Path>
    var out: seq<Match>
    var visited: set<string>
    // The pairs of a path and a number of remaining segments behind the strings in visited,
    // and those among them whose walk has not returned.
    ghost var keys: set<Pair>
    ghost var active: set<Pair>

    ghost function Suffix(k: nat): seq<Segment>
      requires k <= |pattern|
    {
      pattern[|pattern| - k..]
    }

    ghost predicate IsSuffix(segs: seq<Segment>) {
      |segs| <= |pattern| && segs == Suffix(|segs|)
    }

    ghost predicate Valid()
      reads this
    {
      && tree.Valid() && Named(pattern)
      && Results(seen0, seen, out)
      && (forall i | 0 <= i < |out| :: out[i].isDir == tree.IsDir(out[i].path))
      && KeysAgree(keys, visited)
      && (forall key | key in keys :: key in active || Done(key))
    }

    /** The strings are exactly the keys of the pairs. */
    ghost predicate KeysAgree(keys: set<Pair>, visited: set<string>) {
      forall r, k | tree.IsDir(r) && 0 < k <= |pattern| :: Pair(r, k) in keys <==> Key(r, Suffix(k)) in visited
    }

    /** Every target of the key has been reported. */
    ghost predicate Done(key: Pair)
      reads this`seen
    {
      key.left <= |pattern| && Targets(tree, dirOnly, key.rel, Suffix(key.left)) <= seen
    }

    constructor (tree: Tree, dirOnly: bool, ghost pattern: seq<Segment>, seen: set<Path>)
      requires tree.Valid() && Named(pattern)
      ensures Valid() && active == {} && out == []
      ensures this.tree == tree && this.dirOnly == dirOnly && this.pattern == pattern
      ensures this.seen == seen == seen0
    {
      this.tree, this.dirOnly, this.pattern, this.seen, seen0 := tree, dirOnly, pattern, seen, seen;
      out, visited, keys, active := [], {}, {}, {};
    }

    /** Every key in the set has a smaller weight than w. */
    static ghost predicate AllBelow(keys: set<Pair>, w: int) {
      forall key | key in keys :: |key.rel| - key.left < w
    }

    static lemma BelowMore(keys: set<Pair>, w: int, w': int)
      requires AllBelow(keys, w) && w <= w'
      ensures AllBelow(keys, w')
    {
    }

    static lemma BelowWith(keys: set<Pair>, rel: Path, k: nat)
      requires AllBelow(keys, |rel| - k)
      ensures AllBelow(keys + {Pair(rel, k)}, |rel| - k + 1)
    {
    }

    static lemma NotBelow(keys: set<Pair>, rel: Path, k: nat)
      requires AllBelow(keys, |rel| - k)
      ensures Pair(rel, k) !in keys
    {
    }

    /** A new walker stands at the root with its whole pattern and nothing in progress. */
    lemma Start()
      requires Valid() && active == {}
      ensures tree.IsDir([]) && IsSuffix(pattern) && AllBelow(active, -|pattern|)
    {
    }

    lemma Found()
      requires Valid()
      ensures Results(seen0, seen, out)
      ensures forall i | 0 <= i < |out| :: out[i].isDir == tree.IsDir(out[i].path)
    {
    }

    lemma Parts()
      requires Valid()
      ensures tree.Valid() && Named(pattern) && KeysAgree(keys, visited)
    {
    }

    lemma Tail(segs: seq<Segment>)
      requires segs != [] && IsSuffix(segs)
      ensures IsSuffix(segs[1..])
    {
    }

    /** A pair that was visited and is not being walked is done. */
    lemma AlreadyDone(rel: Path, segs: seq<Segment>)
      requires Valid() && IsSuffix(segs)
      requires Pair(rel, |segs|) in keys && AllBelow(active, |rel| - |segs|)
      ensures seen == seen + Targets(tree, dirOnly, rel, segs)
    {
      hide Tree.Valid, Targets, Results, KeysAgree, Named;
    }

    /** emit. */
    method Emit(rel: Path, isDir: bool)
      requires Valid() && isDir == tree.IsDir(rel)
      modifies this`seen, this`out
      ensures Valid() && seen == old(seen) + Emitted(tree, dirOnly, rel)
    {
      hide Tree.Valid, Targets, Results, KeysAgree, Named;
      if dirOnly && !isDir {
        return;
      }
      if rel in seen {
        return;
      }
      NewResult(seen0, seen, out, Match(rel, isDir));
      seen := seen + {rel};
      out := out + [Match(rel, isDir)];
      assert forall key | key in keys && old(Done(key)) :: Done(key);
    }

    /** The guard: true exactly when this pair has not been walked before. */
    method Visit(rel: Path, segs: seq<Segment>) returns (first: bool)
      requires Valid() && tree.IsDir(rel) && segs != [] && IsSuffix(segs)
      modifies this`visited, this`keys, this`active
      ensures Valid()
      ensures first <==> Pair(rel, |segs|) !in old(keys)
      ensures keys == old(keys) + {Pair(rel, |segs|)}
      ensures active == if first then old(active) + {Pair(rel, |segs|)} else old(active)
    {
      hide Tree.Valid, Results, Targets, Named, Key, KeysAgree;
      Parts();
      var key := Key(rel, segs);
      KeyOf(rel, segs);
      if key in visited {
        return false;
      }
      visited := visited + {key};
      keys := keys + {Pair(rel, |segs|)};
      active := active + {Pair(rel, |segs|)};
      first := true;
    }

    /** Adding a pair to keys and its string to visited keeps the two in step. */
    lemma KeyOf(rel: Path, segs: seq<Segment>)
      requires tree.Valid() && Named(pattern) && KeysAgree(keys, visited)
      requires tree.IsDir(rel) && segs != [] && IsSuffix(segs)
      ensures Key(rel, segs) in visited <==> Pair(rel, |segs|) in keys
      ensures KeysAgree(keys + {Pair(rel, |segs|)}, visited + {Key(rel, segs)})
    {
      hide Tree.Valid, Key;
      forall r, k | tree.IsDir(r) && 0 < k <= |pattern| && Key(r, Suffix(k)) == Key(rel, segs)
        ensures r == rel && k == |segs|
      {
        DirNames(tree, r);
        DirNames(tree, rel);
        KeyIsInjective(r, Suffix(k), rel, segs);
      }
    }

    /** walk: reports exactly the targets that have not been reported before. */
    method Walk(rel: Path, segs: seq<Segment>, ghost w: int)
      requires Valid() && tree.IsDir(rel) && IsSuffix(segs)
      requires AllBelow(active, w) && w <= |rel| - |segs|
      modifies this
      ensures Valid() && active == old(active)
      ensures seen == old(seen) + Targets(tree, dirOnly, rel, segs)
      decreases tree.depth - |rel|, |segs|, 4
    {
      hide Valid, Tree.Valid, Targets, Emitted, IsSuffix, AllBelow;
      if |segs| == 0 {
        NoSegments(tree, dirOnly, rel);
        Emit(rel, true);
      } else if segs[0].Globs? {
        WalkGlobs(rel, segs, w);
      } else if segs[0].Literal? {
        WalkLiteral(rel, segs, w);
      } else {
        WalkMagic(rel, segs, w);
      }
    }

    method WalkGlobs(rel: Path, segs: seq<Segment>, ghost w: int)
      requires Valid() && tree.IsDir(rel) && segs != [] && IsSuffix(segs) && segs[0].Globs?
      requires AllBelow(active, w) && w <= |rel| - |segs|
      modifies this
      ensures Valid() && active == old(active)
      ensures seen == old(seen) + Targets(tree, dirOnly, rel, segs)
      decreases tree.depth - |rel|, |segs|, 3
    {
      hide *;
      var first := Visit(rel, segs);
      ghost var weight := |rel| - |segs|;
      BelowMore(old(active), w, weight);
      if !first {
        AlreadyDone(rel, segs);
        return;
      }
      BelowWith(old(active), rel, |segs|);
      NotBelow(old(active), rel, |segs|);
      FirstVisit(rel, segs, weight + 1);
      Finish(rel, segs);
    }

    /** The rest of the `**` branch: first without the `**`, then below it. */
    method FirstVisit(rel: Path, segs: seq<Segment>, ghost w: int)
      requires Valid() && tree.IsDir(rel) && segs != [] && IsSuffix(segs) && segs[0].Globs?
      requires AllBelow(active, w) && w <= |rel| - |segs| + 1
      modifies this
      ensures Valid() && active == old(active)
      ensures seen == old(seen) + Targets(tree, dirOnly, rel, segs)
      decreases tree.depth - |rel|, |segs|, 2
    {
      hide *;
      Parts();
      Tail(segs);
      ghost var before, direct := seen, Targets(tree, dirOnly, rel, segs[1..]);
      Walk(rel, segs[1..], w);
      GlobsEntries(rel, segs, w);
      GlobsTargets(tree, dirOnly, rel, segs);
      DirIs(tree, rel);
      Regroup(before, direct, UnderFirst(tree, dirOnly, rel, segs, tree.dirs[rel]));
    }

    /** The loop over the entries below a `**`. */
    method GlobsEntries(rel: Path, segs: seq<Segment>, ghost w: int)
      requires Valid() && tree.IsDir(rel) && segs != [] && IsSuffix(segs) && segs[0].Globs?
      requires AllBelow(active, w) && w <= |rel| - |segs| + 1
      modifies this
      ensures Valid() && active == old(active)
      ensures seen == old(seen) + UnderFirst(tree, dirOnly, rel, segs, tree.dirs[rel])
      decreases tree.depth - |rel|, |segs|, 1
    {
      hide *;
      DirIs(tree, rel);
      var names := tree.dirs[rel];
      ghost var before := seen;
      UnderFirstEmpty(tree, dirOnly, rel, segs);
      for i := 0 to |names|
        invariant Valid() && active == old(active)
        invariant seen == before + UnderFirst(tree, dirOnly, rel, segs, names[..i])
      {
        UnderFirstNext(tree, dirOnly, rel, segs, names, i);
        Regroup(before, UnderFirst(tree, dirOnly, rel, segs, names[..i]), UnderGlobs(tree, dirOnly, rel, segs, names[i]));
        GlobsEntry(rel, segs, names[i], w);
      }
      assert names[..|names|] == names;
    }

    /** One entry below a `**`. */
    method GlobsEntry(rel: Path, segs: seq<Segment>, name: string, ghost w: int)
      requires Valid() && tree.IsDir(rel) && segs != [] && IsSuffix(segs) && segs[0].Globs? && name in tree.dirs[rel]
      requires AllBelow(active, w) && w <= |rel| - |segs| + 1
      modifies this
      ensures Valid() && active == old(active)
      ensures seen == old(seen) + UnderGlobs(tree, dirOnly, rel, segs, name)
      decreases tree.depth - |rel|, |segs|, 0
    {
      hide *;
      Parts();
      Listed(tree, rel, name);
      UnderGlobsIs(tree, dirOnly, rel, segs, name);
      var child := rel + [name];
      if tree.IsDir(child) {
        DirDepth(tree, child);
        Walk(child, segs, w);
      } else if |segs| == 1 {
        Emit(child, false);
      }
    }

    method WalkLiteral(rel: Path, segs: seq<Segment>, ghost w: int)
      requires Valid() && tree.IsDir(rel) && segs != [] && IsSuffix(segs) && segs[0].Literal?
      requires AllBelow(active, w) && w <= |rel| - |segs|
      modifies this
      ensures Valid() && active == old(active)
      ensures seen == old(seen) + Targets(tree, dirOnly, rel, segs)
      decreases tree.depth - |rel|, |segs|, 2
    {
      hide *;
      Parts();
      var name := segs[0].name;
      LiteralTargets(tree, dirOnly, rel, segs);
      if !tree.Exists(rel + [name]) {
        return;
      }
      LiteralMatches(segs[0]);
      Descend(rel, segs, name, w);
    }

    method WalkMagic(rel: Path, segs: seq<Segment>, ghost w: int)
      requires Valid() && tree.IsDir(rel) && segs != [] && IsSuffix(segs) && segs[0].Magic?
      requires AllBelow(active, w) && w <= |rel| - |segs|
      modifies this
      ensures Valid() && active == old(active)
      ensures seen == old(seen) + Targets(tree, dirOnly, rel, segs)
      decreases tree.depth - |rel|, |segs|, 3
    {
      hide *;
      Parts();
      PartTargets(tree, dirOnly, rel, segs);
      DirIs(tree, rel);
      var names := tree.dirs[rel];
      MagicEntries(rel, segs, names, w);
    }

    /** The loop over the entries that a magic segment is tested against. */
    method MagicEntries(rel: Path, segs: seq<Segment>, names: seq<string>, ghost w: int)
      requires Valid() && tree.IsDir(rel) && segs != [] && IsSuffix(segs) && segs[0].Magic? && names == tree.dirs[rel]
      requires AllBelow(active, w) && w <= |rel| - |segs|
      modifies this
      ensures Valid() && active == old(active)
      ensures seen == old(seen) + UnderFirst(tree, dirOnly, rel, segs, names)
      decreases tree.depth - |rel|, |segs|, 2
    {
      hide *;
      ghost var before := seen;
      UnderFirstEmpty(tree, dirOnly, rel, segs);
      for i := 0 to |names|
        invariant Valid() && active == old(active)
        invariant seen == before + UnderFirst(tree, dirOnly, rel, segs, names[..i])
      {
        UnderFirstNext(tree, dirOnly, rel, segs, names, i);
        Regroup(before, UnderFirst(tree, dirOnly, rel, segs, names[..i]), UnderPart(tree, dirOnly, rel, segs, names[i]));
        MagicEntry(rel, segs, names[i], w);
      }
      assert names[..|names|] == names;
    }

    /** One entry tested against a magic segment. */
    method MagicEntry(rel: Path, segs: seq<Segment>, name: string, ghost w: int)
      requires Valid() && tree.IsDir(rel) && segs != [] && IsSuffix(segs) && segs[0].Magic? && name in tree.dirs[rel]
      requires AllBelow(active, w) && w <= |rel| - |segs|
      modifies this
      ensures Valid() && active == old(active)
      ensures seen == old(seen) + UnderPart(tree, dirOnly, rel, segs, name)
      decreases tree.depth - |rel|, |segs|, 1
    {
      hide *;
      Parts();
      DirIs(tree, rel);
      MagicMatches(segs[0], name);
      if !segs[0].re(name) {
        NoneUnder(tree, dirOnly, rel, segs, name);
        return;
      }
      Listed(tree, rel, name);
      Descend(rel, segs, name, w);
    }

    /** The end of both branches: an entry whose name matches is reported or walked into. */
    method Descend(rel: Path, segs: seq<Segment>, name: string, ghost w: int)
      requires Valid() && tree.IsDir(rel) && segs != [] && IsSuffix(segs) && !segs[0].Globs?
      requires tree.Exists(rel + [name]) && PartMatches(segs[0], name)
      requires AllBelow(active, w) && w <= |rel| - |segs|
      modifies this
      ensures Valid() && active == old(active)
      ensures seen == old(seen) + UnderPart(tree, dirOnly, rel, segs, name)
      decreases tree.depth - |rel|, |segs|, 0
    {
      hide *;
      Parts();
      UnderPartIs(tree, dirOnly, rel, segs, name);
      var child := rel + [name];
      var isDir := tree.IsDir(child);
      if |segs| == 1 {
        Emit(child, isDir);
      } else if isDir {
        Tail(segs);
        DirDepth(tree, child);
        Walk(child, segs[1..], w);
      }
    }

    /** The walk of a pair returns. */
    ghost method Finish(rel: Path, segs: seq<Segment>)
      requires Valid() && IsSuffix(segs)
      requires Targets(tree, dirOnly, rel, segs) <= seen
      modifies this`active
      ensures Valid() && active == old(active) - {Pair(rel, |segs|)}
    {
      hide Tree.Valid, Targets, Results, KeysAgree, Named;
      active := active - {Pair(rel, |segs|)};
    }
  }

  lemma UnderGlobsIs(t: Tree, dirOnly: bool, rel: Path, segs: seq<Segment>, name: string)
    ensures UnderGlobs(t, dirOnly, rel, segs, name) ==
      if t.IsDir(rel + [name]) then Targets(t, dirOnly, rel + [name], segs)
      else if |segs| == 1 then Emitted(t, dirOnly, rel + [name])
      else {}
  {
  }

  lemma UnderPartIs(t: Tree, dirOnly: bool, rel: Path, segs: seq<Segment>, name: string)
    requires segs != [] && !segs[0].Globs? && PartMatches(segs[0], name)
    ensures UnderPart(t, dirOnly, rel, segs, name) ==
      if |segs| == 1 then Emitted(t, dirOnly, rel + [name])
      else if t.IsDir(rel + [name]) then Targets(t, dirOnly, rel + [name], segs[1..])
      else {}
  {
    hide PartMatches, Targets, Emitted, Tree.IsDir;
  }

  lemma Regroup(a: set<Path>, b: set<Path>, c: set<Path>)
    ensures (a + b) + c == a + (b + c)
  {
  }

  lemma DirIs(t: Tree, p: Path)
    ensures t.IsDir(p) <==> p in t.dirs
  {
  }

  lemma NewResult(seen0: set<Path>, seen: set<Path>, out: seq<Match>, m: Match)
    requires Results(seen0, seen, out) && m.path !in seen
    ensures Results(seen0, seen + {m.path}, out + [m])
  {
    var out' := out + [m];
    assert out'[|out|].path == m.path;
    forall p | p in seen && p !in seen0
      ensures exists i | 0 <= i < |out'| :: out'[i].path == p
    {
      var i :| 0 <= i < |out| && out[i].path == p;
      assert out'[i].path == p;
    }
  }

  lemma MagicMatches(s: Segment, name: string)
    requires s.Magic?
    ensures PartMatches(s, name) <==> s.re(name)
  {
  }

  lemma LiteralMatches(s: Segment)
    requires s.Literal?
    ensures PartMatches(s, s.name)
  {
  }

  lemma NoneUnder(t: Tree, dirOnly: bool, rel: Path, segs: seq<Segment>, name: string)
    requires segs != [] && !segs[0].Globs? && !PartMatches(segs[0], name)
    ensures UnderPart(t, dirOnly, rel, segs, name) == {}
  {
  }

  /** The paths of out are new, different, and together with the earlier ones make up seen. */
  ghost predicate Results(seen0: set<Path>, seen: set<Path>, out: seq<Match>) {
    && (forall i | 0 <= i < |out| :: out[i].path in seen && out[i].path !in seen0)
    && (forall i, j | 0 <= i < j < |out| :: out[i].path != out[j].path)
    && (forall p | p in seen :: p in seen0 || exists i | 0 <= i < |out| :: out[i].path == p)
    && seen0 <= seen
  }

  lemma DirDepth(t: Tree, rel: Path)
    requires t.Valid() && t.IsDir(rel)
    ensures |rel| <= t.depth
  {
  }

  lemma {:induction false} DirNames(t: Tree, rel: Path)
    requires t.Valid() && t.IsDir(rel)
    ensures forall n | n in rel :: NameOk(n)
    decreases |rel|
  {
    hide Tree.Valid, NameOk;
    if rel != [] {
      var k := |rel| - 1;
      Ancestors(t, rel, k);
      Listed(t, rel[..k], rel[k]);
      DirNames(t, rel[..k]);
      assert rel == rel[..k] + [rel[k]];
    }
  }

  lemma NoSegments(t: Tree, dirOnly: bool, rel: Path)
    requires t.IsDir(rel)
    ensures Targets(t, dirOnly, rel, []) == Emitted(t, dirOnly, rel)
  {
    hide Reported;
    forall p | rel <= p
      ensures Reported([], p[|rel|..], t.IsDir(p)) <==> p == rel
    {
      ReportedEmpty(p[|rel|..], t.IsDir(p));
    }
  }

  /** A literal segment needs no listing: only the entry of that name can hold targets. */
  lemma LiteralTargets(t: Tree, dirOnly: bool, rel: Path, segs: seq<Segment>)
    requires t.Valid() && t.IsDir(rel) && segs != [] && segs[0].Literal?
    ensures var child := rel + [segs[0].name];
      Targets(t, dirOnly, rel, segs) ==
        if !t.Exists(child) then {} else UnderPart(t, dirOnly, rel, segs, segs[0].name)
  {
    hide Reported, UnderFirst, Tree.Valid, Targets;
    var names, name := t.dirs[rel], segs[0].name;
    forall j | 0 <= j < |names|
      ensures t.Exists(rel + [names[j]])
    {
      Listed(t, rel, names[j]);
    }
    PartTargets(t, dirOnly, rel, segs);
    forall p
      ensures p in UnderFirst(t, dirOnly, rel, segs, names) <==>
        t.Exists(rel + [name]) && p in UnderPart(t, dirOnly, rel, segs, name)
    {
      UnderFirstHas(t, dirOnly, rel, segs, names, p);
      if t.Exists(rel + [name]) {
        Ancestors(t, rel + [name], |rel|);
        assert (rel + [name])[..|rel|] == rel;
        var j :| 0 <= j < |names| && names[j] == name;
      }
    }
  }

  // ---- a whole call ----

  /** The paths a pattern asks for. */
  ghost predicate Wanted(t: Tree, syn: Syntax, split: seq<string>, p: Path) {
    && t.Exists(p)
    && (Kept(split) != split ==> t.IsDir(p))
    && Reported(PlainSegments(syn, Kept(split)), p, t.IsDir(p))
  }

  ghost predicate WantedByAny(t: Tree, syn: Syntax, patterns: seq<seq<string>>, p: Path) {
    exists k | 0 <= k < |patterns| :: Wanted(t, syn, patterns[k], p)
  }

  lemma OneMorePattern(t: Tree, syn: Syntax, patterns: seq<seq<string>>, n: nat)
    requires n < |patterns|
    ensures forall p ::
      WantedByAny(t, syn, patterns[..n + 1], p) <==>
        (WantedByAny(t, syn, patterns[..n], p) || Wanted(t, syn, patterns[n], p))
  {
    hide Wanted;
    forall p
      ensures WantedByAny(t, syn, patterns[..n + 1], p)
        <==> WantedByAny(t, syn, patterns[..n], p) || Wanted(t, syn, patterns[n], p)
    {
      if WantedByAny(t, syn, patterns[..n], p) {
        var k :| 0 <= k < n && Wanted(t, syn, patterns[..n][k], p);
        assert patterns[..n + 1][k] == patterns[k];
      }
      assert patterns[..n + 1][n] == patterns[n];
    }
  }

  ghost predicate Contains(out: seq<Match>, p: Path) {
    exists i | 0 <= i < |out| :: out[i].path == p
  }

  lemma AllWanted(t: Tree, syn: Syntax, split: seq<string>, segs: seq<Segment>)
    requires SameMatches(segs, PlainSegments(syn, Kept(split)))
    requires EndsInGlobs(segs) == EndsInGlobs(PlainSegments(syn, Kept(split)))
    ensures forall p :: p in Targets(t, Kept(split) != split, [], segs) <==> Wanted(t, syn, split, p)
  {
    hide PlainSegments, Matches, EndsInGlobs;
    forall p
      ensures p in Targets(t, Kept(split) != split, [], segs) <==> Wanted(t, syn, split, p)
    {
      assert p[0..] == p && [] <= p;
    }
  }

  /** fsGlob for relative patterns of ordinary names: every wanted path is reported exactly once, and nothing else is. */
  method FsGlob(tree: Tree, syn: Syntax, patterns: seq<seq<string>>) returns (out: seq<Match>)
    requires tree.Valid()
    requires forall k | 0 <= k < |patterns| :: patterns[k] != [] && Named(PlainSegments(syn, Kept(patterns[k])))
    ensures forall i, j | 0 <= i < j < |out| :: out[i].path != out[j].path
    ensures forall i | 0 <= i < |out| :: out[i].isDir == tree.IsDir(out[i].path)
    ensures forall p :: Contains(out, p) <==> WantedByAny(tree, syn, patterns, p)
  {
    hide Tree.Valid, Wanted, PlainSegments, Named, SameMatches, EndsInGlobs, Kept, Targets;
    out := [];
    var seen: set<Path> := {};
    for n := 0 to |patterns|
      invariant Results({}, seen, out)
      invariant forall i | 0 <= i < |out| :: out[i].isDir == tree.IsDir(out[i].path)
      invariant forall p :: p in seen <==> WantedByAny(tree, syn, patterns[..n], p)
    {
      var segs, dirOnly := GlobCompile(syn, patterns[n]);
      NamedAmong(PlainSegments(syn, Kept(patterns[n])), segs);
      var g := new GlobWalker(tree, dirOnly, segs, seen);
      g.Start();
      g.Walk([], segs, -|segs|);
      g.Found();
      AllWanted(tree, syn, patterns[n], segs);
      JoinResults(seen, out, g.seen, g.out);
      out := out + g.out;
      seen := g.seen;
      OneMorePattern(tree, syn, patterns, n);
    }
    assert patterns[..|patterns|] == patterns;
  }

  lemma NamedAmong(plain: seq<Segment>, segs: seq<Segment>)
    requires Named(plain) && forall s | s in segs :: s in plain
    ensures Named(segs)
  {
    forall i | 0 <= i < |segs|
      ensures if segs[i].Literal? then NameOk(segs[i].name) else '/' !in segs[i].Raw()
    {
      assert segs[i] in plain;
    }
  }

  lemma JoinResults(seen: set<Path>, out: seq<Match>, seen': set<Path>, out': seq<Match>)
    requires Results({}, seen, out) && Results(seen, seen', out')
    ensures Results({}, seen', out + out')
  {
    var all := out + out';
    forall p | p in seen'
      ensures exists i | 0 <= i < |all| :: all[i].path == p
    {
      if p in seen {
        var i :| 0 <= i < |out| && out[i].path == p;
        assert all[i].path == p;
      } else {
        var i :| 0 <= i < |out'| && out'[i].path == p;
        assert all[|out| + i].path == p;
      }
    }
  }
}
