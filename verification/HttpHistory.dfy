/** What each call of a server response does to its headers, status and body, one call at a time. */
module HttpHistory {
  import opened Wrappers
  import opened HttpResponse

  /** The values of a header, none if it is not set. */
  function ValuesOf(h: Headers, key: string): seq<string> {
    if key in h then h[key] else []
  }

  /**
    * setHeader replaces the values of one header and appendHeader adds one behind them; removeHeader, or setting no value,
    * takes the header away. No other header changes.
    */
  lemma HeaderCall(canon: string -> string, calls: seq<Call>, c: Call, key: string)
    ensures var before, after := HeadersOf(canon, calls), HeadersOf(canon, calls + [c]);
      && (c.SetHeader? && canon(c.name) == key ==> ValuesOf(after, key) == c.values && (key in after <==> c.values != []))
      && (c.AppendHeader? && canon(c.name) == key ==> key in after && ValuesOf(after, key) == ValuesOf(before, key) + [c.value])
      && (c.RemoveHeader? && canon(c.name) == key ==> key !in after)
      && ((c.SetHeader? || c.AppendHeader? || c.RemoveHeader?) && canon(c.name) != key ==>
           ValuesOf(after, key) == ValuesOf(before, key) && (key in after <==> key in before))
      && (c.SetStatus? || c.Write? || c.FlushHeaders? || c.End? ==> after == before)
  {
    HistoryAppend(canon, calls, c);
  }

  /** The last entry of the list for this header, if there is one. */
  ghost predicate LastEntry(canon: string -> string, list: seq<(string, seq<string>)>, key: string, i: nat) {
    i < |list| && canon(list[i].0) == key && forall j | i < j < |list| :: canon(list[j].0) != key
  }

  /** writeHead sets each header to the values of its last entry and leaves the others; after the end it does nothing. */
  lemma WriteHeadCall(canon: string -> string, calls: seq<Call>, code: Option<int>, list: seq<(string, seq<string>)>, key: string)
    ensures var before, after := HeadersOf(canon, calls), HeadersOf(canon, calls + [WriteHead(code, list)]);
      && (Ended(calls) ==> after == before)
      && (!Ended(calls) ==> forall i: nat | LastEntry(canon, list, key, i) ::
           ValuesOf(after, key) == list[i].1 && (key in after <==> list[i].1 != []))
      && (!Ended(calls) && (forall i | 0 <= i < |list| :: canon(list[i].0) != key) ==>
           ValuesOf(after, key) == ValuesOf(before, key) && (key in after <==> key in before))
  {
    WriteHeadAppend(canon, calls, code, list);
    hide HeadersOf, PutAll, ValuesOf, LastEntry;
    var before := HeadersOf(canon, calls);
    if forall i | 0 <= i < |list| :: canon(list[i].0) != key {
      PutAllOther(canon, before, list, key);
    }
    forall i: nat | LastEntry(canon, list, key, i)
      ensures i < |list| && ValuesOf(PutAll(canon, before, list), key) == list[i].1
      ensures key in PutAll(canon, before, list) <==> list[i].1 != []
    {
      PutAllLast(canon, before, list, key, i);
    }
  }

  lemma {:induction false} PutAllOther(canon: string -> string, h: Headers, list: seq<(string, seq<string>)>, key: string)
    requires forall i | 0 <= i < |list| :: canon(list[i].0) != key
    ensures var after := PutAll(canon, h, list); ValuesOf(after, key) == ValuesOf(h, key) && (key in after <==> key in h)
    decreases |list|
  {
    if list != [] {
      PutAllOther(canon, h, list[..|list| - 1], key);
    }
  }

  lemma {:induction false} PutAllLast(canon: string -> string, h: Headers, list: seq<(string, seq<string>)>, key: string, i: nat)
    requires LastEntry(canon, list, key, i)
    ensures i < |list|
    ensures var after := PutAll(canon, h, list); ValuesOf(after, key) == list[i].1 && (key in after <==> list[i].1 != [])
    decreases |list|
  {
    var n := |list| - 1;
    LastEntryBefore(canon, list, key, i);
    if i < n {
      PutAllLast(canon, h, list[..n], key, i);
    }
  }

  lemma LastEntryBefore(canon: string -> string, list: seq<(string, seq<string>)>, key: string, i: nat)
    requires list != [] && LastEntry(canon, list, key, i)
    ensures var n := |list| - 1;
      if canon(list[n].0) == key then i == n else i < n && LastEntry(canon, list[..n], key, i)
  {
    var n := |list| - 1;
    var init := list[..n];
    assert forall j | 0 <= j < n :: init[j] == list[j];
  }

  /**
    * The status is 200 at first, and then what was last put in the property, or given to writeHead before the end; while
    * something else than a number is in the property it is the code that writeHead was last given.
    */
  lemma StatusCall(calls: seq<Call>, c: Call)
    ensures StatusOf([]).Current() == StatusOf([]).code == 200
    ensures var before, after := StatusOf(calls), StatusOf(calls + [c]);
      && (c.SetStatus? ==> after.Current() == (if c.status.Some? then c.status.value else before.code) && after.code == before.code)
      && (c.WriteHead? && c.code.Some? && !Ended(calls) ==> after.Current() == after.code == c.code.value)
      && (!c.SetStatus? && !(c.WriteHead? && c.code.Some? && !Ended(calls)) ==> after == before)
  {
    assert (calls + [c])[..|calls|] == calls && (calls + [c])[|calls|] == c;
  }

  /** The body is the data of write and end calls in order, and what comes behind an end adds nothing. */
  lemma {:induction false} BodyConcat(a: seq<Call>, b: seq<Call>)
    ensures BodyOf(a + b) == BodyOf(a) + if Ended(a) then [] else BodyOf(b)
    decreases |b|
  {
    if b == [] {
      assert a + b == a && BodyOf(a) + [] == BodyOf(a);
    } else {
      var init, c := b[..|b| - 1], b[|b| - 1];
      BodyConcat(a, init);
      assert (a + b)[..|a + b| - 1] == a + init && (a + b)[|a + b| - 1] == c;
      EndedConcat(a, init);
      if !Ended(a) {
        var more := if (c.Write? || c.End?) && !Ended(init) then c.data else [];
        assert (BodyOf(a) + BodyOf(init)) + more == BodyOf(a) + (BodyOf(init) + more);
      }
    }
  }

  lemma EndedConcat(a: seq<Call>, b: seq<Call>)
    ensures Ended(a + b) <==> Ended(a) || Ended(b)
  {
    if Ended(a) {
      var i :| 0 <= i < |a| && a[i].End?;
      assert (a + b)[i].End?;
    }
    if Ended(b) {
      var i :| 0 <= i < |b| && b[i].End?;
      assert (a + b)[|a| + i].End?;
    }
  }

  lemma BodyOfOne(c: Call)
    ensures BodyOf([c]) == if c.Write? || c.End? then c.data else []
    ensures Ended([c]) <==> c.End?
  {
    assert [c] == [] + [c];
    EndedAppend([], c);
    HistoryAppend(x => x, [], c);
  }
}
