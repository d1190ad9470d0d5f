/** Glob segments: the recursive matcher, and the compiler that collapses adjacent `**`. */
module GlobMatch {

  datatype Segment =
    | Globs
    | Literal(name: string)
    | Magic(pattern: string, re: string -> bool)
  {
    /** The raw text of the segment. */
    function Raw(): string {
      match this
      case Globs => "**"
      case Literal(name) => name
      case Magic(pattern, _) => pattern
    }
  }

  /** One path part against one segment that is not `**`. */
  predicate PartMatches(s: Segment, part: string)
    requires !s.Globs?
  {
    match s
    case Literal(name) => name == part
    case Magic(_, re) => re(part)
  }

  /** What it means for the parts of a path to match the segments: `**` stands for any number of parts. */
  ghost predicate Matches(segs: seq<Segment>, parts: seq<string>)
    decreases |segs|
  {
    if segs == [] then parts == []
    else if segs[0].Globs? then exists i | 0 <= i <= |parts| :: Matches(segs[1..], parts[i..])
    else parts != [] && PartMatches(segs[0], parts[0]) && Matches(segs[1..], parts[1..])
  }

  /** globMatchParts. */
  method GlobMatchParts(segs: seq<Segment>, parts: seq<string>) returns (ok: bool)
    ensures ok <==> Matches(segs, parts)
    decreases |segs|
  {
    if |segs| == 0 {
      return |parts| == 0;
    }
    var s := segs[0];
    if s.Globs? {
      for i := 0 to |parts| + 1
        invariant forall j | 0 <= j < i :: !Matches(segs[1..], parts[j..])
      {
        var rest := GlobMatchParts(segs[1..], parts[i..]);
        if rest {
          return true;
        }
      }
      return false;
    }
    if |parts| == 0 {
      return false;
    }
    if s.Magic? {
      if !s.re(parts[0]) {
        return false;
      }
    } else if s.name != parts[0] {
      return false;
    }
    ok := GlobMatchParts(segs[1..], parts[1..]);
  }

  /** A leading `**` takes nothing or one more part. */
  lemma GlobsStep(segs: seq<Segment>, parts: seq<string>)
    requires segs != [] && segs[0].Globs?
    ensures Matches(segs, parts) <==>
      Matches(segs[1..], parts) || (parts != [] && Matches(segs, parts[1..]))
  {
    var rest := segs[1..];
    if Matches(segs, parts) {
      var i :| 0 <= i <= |parts| && Matches(rest, parts[i..]);
      if i == 0 {
        assert parts[0..] == parts;
      } else {
        assert parts[i..] == parts[1..][i - 1..];
      }
    }
    if Matches(rest, parts) {
      assert parts[0..] == parts;
    }
    if parts != [] && Matches(segs, parts[1..]) {
      var i :| 0 <= i <= |parts[1..]| && Matches(rest, parts[1..][i..]);
      assert parts[i + 1..] == parts[1..][i..];
    }
  }

  // ---- equivalent segment lists ----

  ghost predicate SameMatches(a: seq<Segment>, b: seq<Segment>) {
    forall parts :: Matches(a, parts) <==> Matches(b, parts)
  }

  /** a and b match the same paths whatever segments follow. */
  ghost predicate Equivalent(a: seq<Segment>, b: seq<Segment>) {
    forall z :: SameMatches(a + z, b + z)
  }

  lemma {:induction false} UnderPrefix(w: seq<Segment>, a: seq<Segment>, b: seq<Segment>)
    requires SameMatches(a, b)
    ensures SameMatches(w + a, w + b)
    decreases |w|
  {
    if w == [] {
      assert w + a == a && w + b == b;
    } else {
      UnderPrefix(w[1..], a, b);
      assert (w + a)[1..] == w[1..] + a && (w + b)[1..] == w[1..] + b;
      assert (w + a)[0] == w[0] == (w + b)[0];
      forall parts
        ensures Matches(w + a, parts) <==> Matches(w + b, parts)
      {
        SameTails(w + a, w + b, parts);
      }
    }
  }

  lemma SameTails(a: seq<Segment>, b: seq<Segment>, parts: seq<string>)
    requires a != [] && b != [] && a[0] == b[0] && SameMatches(a[1..], b[1..])
    ensures Matches(a, parts) <==> Matches(b, parts)
  {
  }

  /** Two adjacent `**` match what one matches. */
  lemma DoubleGlobs(z: seq<Segment>)
    ensures SameMatches([Globs, Globs] + z, [Globs] + z)
  {
    var one, two := [Globs] + z, [Globs, Globs] + z;
    assert two[1..] == one && one[1..] == z;
    forall parts
      ensures Matches(two, parts) <==> Matches(one, parts)
    {
      if Matches(two, parts) {
        var i :| 0 <= i <= |parts| && Matches(one, parts[i..]);
        var j :| 0 <= j <= |parts[i..]| && Matches(z, parts[i..][j..]);
        assert parts[i..][j..] == parts[i + j..];
      }
      GlobsStep(two, parts);
    }
  }

  /** A list that already ends in `**` is not changed by one more. */
  lemma CollapseLast(a: seq<Segment>)
    requires a != [] && a[|a| - 1].Globs?
    ensures Equivalent(a, a + [Globs])
  {
    var w := a[..|a| - 1];
    forall z
      ensures SameMatches(a + z, a + [Globs] + z)
    {
      DoubleGlobs(z);
      UnderPrefix(w, [Globs] + z, [Globs, Globs] + z);
      assert a + z == w + ([Globs] + z);
      assert a + [Globs] + z == w + ([Globs, Globs] + z);
    }
  }

  lemma EquivalentAppend(a: seq<Segment>, b: seq<Segment>, s: Segment)
    requires Equivalent(a, b)
    ensures Equivalent(a + [s], b + [s])
  {
    forall z
      ensures SameMatches(a + [s] + z, b + [s] + z)
    {
      assert a + [s] + z == a + ([s] + z) && b + [s] + z == b + ([s] + z);
    }
  }

  lemma EquivalentTrans(a: seq<Segment>, b: seq<Segment>, c: seq<Segment>)
    requires Equivalent(a, b) && Equivalent(b, c)
    ensures Equivalent(a, c)
  {
    forall z
      ensures SameMatches(a + z, c + z)
    {
      assert SameMatches(a + z, b + z) && SameMatches(b + z, c + z);
    }
  }

  lemma EquivalentMatches(a: seq<Segment>, b: seq<Segment>)
    requires Equivalent(a, b)
    ensures SameMatches(a, b)
  {
    assert a + [] == a && b + [] == b;
  }

  // ---- the compiler ----

  /** How a single part of a pattern is read. */
  datatype Syntax = Syntax(hasMagic: string -> bool, regexp: string -> string -> bool, unescape: string -> string)

  function SegmentOf(syn: Syntax, part: string): Segment {
    if part == "**" then Globs
    else if syn.hasMagic(part) then Magic(part, syn.regexp(part))
    else Literal(syn.unescape(part))
  }

  /** Every part of a pattern as a segment, without empty parts (unless it comes first) and without collapsing. */
  function PlainSegments(syn: Syntax, parts: seq<string>): (segs: seq<Segment>)
    ensures parts != [] ==> segs != []
    decreases |parts|
  {
    if parts == [] then []
    else
      var init, last := parts[..|parts| - 1], parts[|parts| - 1];
      PlainSegments(syn, init) + if last == "" && init != [] then [] else [SegmentOf(syn, last)]
  }

  /** The parts that matter: a trailing slash leaves an empty last part, which only asks for a directory. */
  function Kept(split: seq<string>): seq<string> {
    if |split| > 1 && split[|split| - 1] == "" then split[..|split| - 1] else split
  }

  predicate EndsInGlobs(segs: seq<Segment>) {
    segs != [] && segs[|segs| - 1].Globs?
  }

  predicate NoAdjacentGlobs(segs: seq<Segment>) {
    forall i | 0 < i < |segs| :: !(segs[i - 1].Globs? && segs[i].Globs?)
  }

  /** globCompile, on the parts of a relative pattern. */
  method GlobCompile(syn: Syntax, split: seq<string>) returns (segs: seq<Segment>, dirOnly: bool)
    requires split != []
    ensures dirOnly <==> Kept(split) != split
    ensures NoAdjacentGlobs(segs)
    ensures SameMatches(segs, PlainSegments(syn, Kept(split)))
    ensures EndsInGlobs(segs) == EndsInGlobs(PlainSegments(syn, Kept(split)))
    ensures forall s | s in segs :: s in PlainSegments(syn, Kept(split))
  {
    var parts := split;
    dirOnly := false;
    if |parts| > 1 && parts[|parts| - 1] == "" {
      dirOnly := true;
      parts := parts[..|parts| - 1];
    }
    assert parts == Kept(split);
    segs := [];
    for i := 0 to |parts|
      invariant segs != [] <==> i > 0
      invariant NoAdjacentGlobs(segs)
      invariant Equivalent(segs, PlainSegments(syn, parts[..i]))
      invariant EndsInGlobs(segs) == EndsInGlobs(PlainSegments(syn, parts[..i]))
      invariant forall s | s in segs :: s in PlainSegments(syn, parts[..i])
    {
      var p := parts[i];
      ghost var plain := PlainSegments(syn, parts[..i]);
      assert parts[..i + 1][..i] == parts[..i] && parts[..i + 1][i] == p;
      if p == "" && |segs| > 0 {
        assert PlainSegments(syn, parts[..i + 1]) == plain;
      } else {
        assert PlainSegments(syn, parts[..i + 1]) == plain + [SegmentOf(syn, p)];
        EquivalentAppend(segs, plain, SegmentOf(syn, p));
        if p == "**" && |segs| > 0 && segs[|segs| - 1].Globs? {
          CollapseLast(segs);
          EquivalentTrans(segs, segs + [Globs], plain + [Globs]);
        } else {
          segs := segs + [SegmentOf(syn, p)];
        }
      }
    }
    assert parts[..|parts|] == parts;
    EquivalentMatches(segs, PlainSegments(syn, parts));
  }
}
