/** The server response of node:http: calls on the VM thread fill a channel, a host thread drains it onto the wire. */
module HttpResponse {
  import opened Bytes
  import opened Wrappers

  type Headers = map<string, seq<string>>

  /** The value of the statusCode property: a number, or something the program has put there instead. */
  type StatusProperty = Option<int>

  datatype Call =
    | SetHeader(name: string, values: seq<string>)
    | AppendHeader(name: string, value: string)
    | RemoveHeader(name: string)
    | SetStatus(status: StatusProperty)
    | WriteHead(code: Option<int>, list: seq<(string, seq<string>)>)
    | Write(data: Bytes)
    | FlushHeaders
    | End(data: Bytes)

  /** What goes through the channel. */
  datatype Item = Item(head: Option<(Headers, int)>, data: Bytes, isEnd: bool)

  // ---- header maps ----

  /** headers.Del and then headers.Add for every value. */
  function Put(canon: string -> string, h: Headers, name: string, values: seq<string>): Headers {
    if values == [] then h - {canon(name)} else h[canon(name) := values]
  }

  function Append(canon: string -> string, h: Headers, name: string, value: string): Headers {
    var k := canon(name);
    h[k := (if k in h then h[k] else []) + [value]]
  }

  function PutAll(canon: string -> string, h: Headers, list: seq<(string, seq<string>)>): Headers {
    if list == [] then h
    else Put(canon, PutAll(canon, h, list[..|list| - 1]), list[|list| - 1].0, list[|list| - 1].1)
  }

  // ---- what a history of calls amounts to ----

  predicate Sends(c: Call) {
    c.WriteHead? || c.Write? || c.FlushHeaders? || c.End?
  }

  predicate Ended(calls: seq<Call>) {
    exists i | 0 <= i < |calls| :: calls[i].End?
  }

  /** The header map after the calls; writeHead does nothing once the response has ended. */
  function HeadersOf(canon: string -> string, calls: seq<Call>): Headers {
    if calls == [] then map[]
    else
      var before, c := calls[..|calls| - 1], calls[|calls| - 1];
      var h := HeadersOf(canon, before);
      match c
      case SetHeader(name, values) => Put(canon, h, name, values)
      case AppendHeader(name, value) => Append(canon, h, name, value)
      case RemoveHeader(name) => h - {canon(name)}
      case WriteHead(_, list) => if Ended(before) then h else PutAll(canon, h, list)
      case _ => h
  }

  /** The status: the property while it is a number, and otherwise the last code given to writeHead. */
  datatype Status = Status(property: StatusProperty, code: int) {
    function Current(): int {
      if property.Some? then property.value else code
    }
  }

  function StatusOf(calls: seq<Call>): Status {
    if calls == [] then Status(Some(200), 200)
    else
      var before, c := calls[..|calls| - 1], calls[|calls| - 1];
      var s := StatusOf(before);
      match c
      case SetStatus(p) => Status(p, s.code)
      case WriteHead(Some(n), _) => if Ended(before) then s else Status(Some(n), n)
      case _ => s
  }

  /** The data of all write and end calls up to the first end. */
  function BodyOf(calls: seq<Call>): Bytes {
    if calls == [] then []
    else
      var before, c := calls[..|calls| - 1], calls[|calls| - 1];
      BodyOf(before) + if (c.Write? || c.End?) && !Ended(before) then c.data else []
  }

  /** The first call that sends anything. */
  ghost predicate FirstSend(calls: seq<Call>, k: nat) {
    k < |calls| && Sends(calls[k]) && forall i | 0 <= i < k :: !Sends(calls[i])
  }

  ghost predicate NothingSent(calls: seq<Call>) {
    forall i | 0 <= i < |calls| :: !Sends(calls[i])
  }

  lemma EndedAppend(calls: seq<Call>, c: Call)
    ensures Ended(calls + [c]) <==> Ended(calls) || c.End?
  {
    assert (calls + [c])[|calls|] == c;
    if Ended(calls) {
      var i :| 0 <= i < |calls| && calls[i].End?;
      assert (calls + [c])[i].End?;
    }
  }

  lemma HistoryAppend(canon: string -> string, calls: seq<Call>, c: Call)
    ensures (calls + [c])[..|calls|] == calls && (calls + [c])[|calls|] == c
    ensures BodyOf(calls + [c]) == BodyOf(calls) + if (c.Write? || c.End?) && !Ended(calls) then c.data else []
  {
    assert (calls + [c])[..|calls|] == calls;
  }

  // ---- the channel ----

  function DataOf(items: seq<Item>): Bytes {
    if items == [] then [] else DataOf(items[..|items| - 1]) + items[|items| - 1].data
  }

  lemma DataAppend(items: seq<Item>, item: Item)
    ensures DataOf(items + [item]) == DataOf(items) + item.data
  {
    assert (items + [item])[..|items|] == items;
  }

  /** Only the first item carries a head, and only the last one of an ended response says so. */
  ghost predicate WellShaped(items: seq<Item>, ended: bool) {
    && (forall i | 0 <= i < |items| :: items[i].head.Some? <==> i == 0)
    && (forall i | 0 <= i < |items| :: items[i].isEnd <==> ended && i == |items| - 1)
    && (ended ==> items != [])
  }

  /** The head of the first item is the header map and status at the moment of the first sending call. */
  ghost predicate HeadFixed(canon: string -> string, calls: seq<Call>, items: seq<Item>) {
    && (items == [] <==> NothingSent(calls))
    && (forall k | FirstSend(calls, k) ::
      items != [] && items[0].head == Some((HeadersOf(canon, calls[..k + 1]), StatusOf(calls[..k + 1]).Current())))
  }

  /** A call that sends nothing, or comes after the end, leaves the channel as it is. */
  lemma QuietCall(canon: string -> string, calls: seq<Call>, items: seq<Item>, c: Call)
    requires HeadFixed(canon, calls, items) && (!Sends(c) || Ended(calls))
    ensures HeadFixed(canon, calls + [c], items)
    ensures NothingSent(calls + [c]) <==> NothingSent(calls)
    ensures Ended(calls + [c]) <==> Ended(calls)
    ensures BodyOf(calls + [c]) == BodyOf(calls)
  {
    hide HeadersOf, StatusOf, BodyOf;
    EndedAppend(calls, c);
    HistoryAppend(canon, calls, c);
    assert BodyOf(calls) + [] == BodyOf(calls);
    EndedHasSent(calls);
    NothingSentAppend(calls, c);
    forall k | FirstSend(calls + [c], k)
      ensures items != [] && items[0].head == Some((HeadersOf(canon, (calls + [c])[..k + 1]), StatusOf((calls + [c])[..k + 1]).Current()))
    {
      FirstSendBefore(calls, c, k);
    }
  }

  lemma NothingSentAppend(calls: seq<Call>, c: Call)
    ensures NothingSent(calls + [c]) <==> NothingSent(calls) && !Sends(c)
  {
    assert (calls + [c])[|calls|] == c;
    if NothingSent(calls + [c]) {
      assert forall i | 0 <= i < |calls| :: calls[i] == (calls + [c])[i];
    }
  }

  lemma EndedHasSent(calls: seq<Call>)
    ensures Ended(calls) ==> !NothingSent(calls)
  {
  }

  /** The first sending call stays the first; it is the new call only if nothing was sent before. */
  lemma FirstSendBefore(calls: seq<Call>, c: Call, k: nat)
    requires FirstSend(calls + [c], k)
    ensures if NothingSent(calls) then k == |calls| else FirstSend(calls, k) && (calls + [c])[..k + 1] == calls[..k + 1]
  {
    var all := calls + [c];
    if k < |calls| {
      assert Sends(calls[k]);
      assert forall i | 0 <= i < k :: calls[i] == all[i];
      assert all[..k + 1] == calls[..k + 1];
    } else {
      assert forall i | 0 <= i < |calls| :: all[i] == calls[i] && !Sends(calls[i]);
    }
  }

  /** A sending call of a response that has not ended adds one item; the very first one gets the head. */
  lemma SendingCall(canon: string -> string, calls: seq<Call>, items: seq<Item>, c: Call, item: Item)
    requires HeadFixed(canon, calls, items) && WellShaped(items, false) && Sends(c) && !Ended(calls)
    requires item.isEnd == c.End?
    requires item.data == if c.Write? || c.End? then c.data else []
    requires item.head ==
      if NothingSent(calls) then Some((HeadersOf(canon, calls + [c]), StatusOf(calls + [c]).Current())) else None
    ensures HeadFixed(canon, calls + [c], items + [item]) && WellShaped(items + [item], c.End?)
    ensures !NothingSent(calls + [c]) && (Ended(calls + [c]) <==> c.End?)
    ensures DataOf(items) == BodyOf(calls) ==> DataOf(items + [item]) == BodyOf(calls + [c])
  {
    hide HeadersOf, StatusOf, BodyOf, DataOf;
    EndedAppend(calls, c);
    HistoryAppend(canon, calls, c);
    DataAppend(items, item);
    NothingSentAppend(calls, c);
    forall k | FirstSend(calls + [c], k)
      ensures (items + [item])[0].head == Some((HeadersOf(canon, (calls + [c])[..k + 1]), StatusOf((calls + [c])[..k + 1]).Current()))
    {
      FirstSendBefore(calls, c, k);
      if k == |calls| {
        assert (calls + [c])[..k + 1] == calls + [c];
      }
    }
  }

  class ServerResponse {
    const canon: string -> string
    var headers: Headers
    var statusProperty: StatusProperty
    var statusCode: int
    var headersSent: bool
    var ended: bool
    // Everything sent on the channel so far, and whether it has been closed.
    var sent: seq<Item>
    var closed: bool

    ghost var calls: seq<Call>

    ghost predicate Valid()
      reads this
    {
      && headers == HeadersOf(canon, calls)
      && (NothingSent(calls) ==> Status(statusProperty, statusCode) == StatusOf(calls))
      && headersSent == !NothingSent(calls)
      && ended == Ended(calls) && closed == ended
      && WellShaped(sent, ended)
      && HeadFixed(canon, calls, sent)
      && DataOf(sent) == BodyOf(calls)
    }

    constructor (canon: string -> string)
      ensures Valid() && calls == [] && this.canon == canon
    {
      this.canon := canon;
      headers, statusProperty, statusCode, headersSent, ended := map[], Some(200), 200, false, false;
      sent, closed, calls := [], false, [];
    }

    /** The head that the next sending call will queue: none once it has been sent. */
    function HeadNow(): Option<(Headers, int)>
      reads this
    {
      if headersSent then None else Some((headers, Status(statusProperty, statusCode).Current()))
    }

    /** currentStatus: a number in the property wins, and is remembered. */
    method CurrentStatus() returns (code: int)
      modifies this`statusCode
      ensures code == Status(statusProperty, old(statusCode)).Current() && statusCode == code
    {
      if statusProperty.Some? {
        statusCode := statusProperty.value;
      }
      code := statusCode;
    }

    /** Queues one item; the first one takes a snapshot of the headers and the status along. */
    method Queue(data: Bytes, isEnd: bool)
      modifies this`sent, this`headersSent, this`statusCode
      ensures headersSent
      ensures sent == old(sent) + [Item(old(HeadNow()), data, isEnd)]
    {
      var head := None;
      if !headersSent {
        headersSent := true;
        var snapshot := headers;
        var status := CurrentStatus();
        head := Some((snapshot, status));
      }
      sent := sent + [Item(head, data, isEnd)];
    }

    method DoSetHeader(name: string, values: seq<string>)
      requires Valid()
      modifies this
      ensures Valid() && calls == old(calls) + [SetHeader(name, values)] && sent == old(sent)
    {
      QuietCall(canon, calls, sent, SetHeader(name, values));
      HistoryAppend(canon, calls, SetHeader(name, values));
      headers := Put(canon, headers, name, values);
      calls := calls + [SetHeader(name, values)];
    }

    method DoAppendHeader(name: string, value: string)
      requires Valid()
      modifies this
      ensures Valid() && calls == old(calls) + [AppendHeader(name, value)] && sent == old(sent)
    {
      QuietCall(canon, calls, sent, AppendHeader(name, value));
      HistoryAppend(canon, calls, AppendHeader(name, value));
      headers := Append(canon, headers, name, value);
      calls := calls + [AppendHeader(name, value)];
    }

    method DoRemoveHeader(name: string)
      requires Valid()
      modifies this
      ensures Valid() && calls == old(calls) + [RemoveHeader(name)] && sent == old(sent)
    {
      QuietCall(canon, calls, sent, RemoveHeader(name));
      HistoryAppend(canon, calls, RemoveHeader(name));
      headers := headers - {canon(name)};
      calls := calls + [RemoveHeader(name)];
    }

    /** An assignment to res.statusCode. */
    method DoSetStatus(p: StatusProperty)
      requires Valid()
      modifies this
      ensures Valid() && calls == old(calls) + [SetStatus(p)] && sent == old(sent)
    {
      QuietCall(canon, calls, sent, SetStatus(p));
      HistoryAppend(canon, calls, SetStatus(p));
      statusProperty := p;
      calls := calls + [SetStatus(p)];
    }

    method SetAll(list: seq<(string, seq<string>)>)
      modifies this`headers
      ensures headers == PutAll(canon, old(headers), list)
    {
      for i := 0 to |list|
        invariant headers == PutAll(canon, old(headers), list[..i])
      {
        assert list[..i + 1][..i] == list[..i];
        headers := Put(canon, headers, list[i].0, list[i].1);
      }
      assert list[..|list|] == list;
    }

    /** writeHead: the status and headers change even if the head has already been sent, but then no longer matter. */
    method DoWriteHead(code: Option<int>, list: seq<(string, seq<string>)>)
      requires Valid()
      modifies this
      ensures Valid() && calls == old(calls) + [WriteHead(code, list)] && old(sent) <= sent
      ensures |sent| == |old(sent)| + if old(ended) || old(headersSent) then 0 else 1
    {
      hide HeadersOf, StatusOf, BodyOf, DataOf, HeadFixed, WellShaped, NothingSent, Ended, PutAll;
      var c := WriteHead(code, list);
      HeadCall(code, list);
      if ended {
        calls := calls + [c];
        return;
      }
      if code.Some? {
        statusCode := code.value;
        statusProperty := code;
      }
      SetAll(list);
      if !headersSent {
        Queue([], false);
      }
      calls := calls + [c];
    }

    /** The facts about writeHead, before anything has changed. */
    lemma HeadCall(code: Option<int>, list: seq<(string, seq<string>)>)
      requires Valid()
      ensures var c := WriteHead(code, list);
        var headers' := if ended then headers else PutAll(canon, headers, list);
        var property := if ended || code.None? then statusProperty else code;
        var statusCode' := if ended || code.None? then statusCode else code.value;
        var items := if ended || headersSent then sent
          else sent + [Item(Some((headers', Status(property, statusCode').Current())), [], false)];
        && HeadersOf(canon, calls + [c]) == headers'
        && HeadFixed(canon, calls + [c], items) && WellShaped(items, ended)
        && DataOf(items) == BodyOf(calls + [c])
        && !NothingSent(calls + [c]) && (Ended(calls + [c]) <==> ended)
        && (ended ==> headersSent)
    {
      EndedHasSent(calls);
      var c := WriteHead(code, list);
      HistoryAppend(canon, calls, c);
      WriteHeadAppend(canon, calls, code, list);
      NothingSentAppend(calls, c);
      hide HeadersOf, StatusOf, BodyOf, DataOf, HeadFixed, WellShaped, PutAll;
      if ended {
        QuietCall(canon, calls, sent, c);
      } else if headersSent {
        LateHead(canon, calls, sent, c);
      } else {
        var property := if code.None? then statusProperty else code;
        var statusCode' := if code.None? then statusCode else code.value;
        SendingCall(canon, calls, sent, c,
          Item(Some((PutAll(canon, headers, list), Status(property, statusCode').Current())), [], false));
      }
    }

    /** write: false and nothing else after the end. */
    method DoWrite(data: Bytes) returns (ok: bool)
      requires Valid()
      modifies this
      ensures Valid() && calls == old(calls) + [Write(data)] && ok == !old(ended)
      ensures sent == old(sent) + if old(ended) then [] else [Item(old(HeadNow()), data, false)]
    {
      hide HeadersOf, StatusOf, BodyOf, DataOf, HeadFixed, WellShaped, NothingSent, Ended;
      Sending(Write(data));
      if ended {
        calls := calls + [Write(data)];
        return false;
      }
      Queue(data, false);
      calls := calls + [Write(data)];
      ok := true;
    }

    /** flushHeaders: once the head is out, an empty item still makes the other side flush. */
    method DoFlushHeaders()
      requires Valid()
      modifies this
      ensures Valid() && calls == old(calls) + [FlushHeaders]
      ensures sent == old(sent) + if old(ended) then [] else [Item(old(HeadNow()), [], false)]
    {
      hide HeadersOf, StatusOf, BodyOf, DataOf, HeadFixed, WellShaped, NothingSent, Ended;
      Sending(FlushHeaders);
      if !ended {
        Queue([], false);
      }
      calls := calls + [FlushHeaders];
    }

    /** end: the last item, after which the channel is closed. */
    method DoEnd(data: Bytes)
      requires Valid()
      modifies this
      ensures Valid() && calls == old(calls) + [End(data)] && ended
      ensures sent == old(sent) + if old(ended) then [] else [Item(old(HeadNow()), data, true)]
    {
      hide HeadersOf, StatusOf, BodyOf, DataOf, HeadFixed, WellShaped, NothingSent, Ended;
      Sending(End(data));
      if !ended {
        ended := true;
        Queue(data, true);
        closed := true;
      }
      calls := calls + [End(data)];
    }

    /** The facts about write, flushHeaders and end, before anything has changed. */
    lemma Sending(c: Call)
      requires Valid() && (c.Write? || c.FlushHeaders? || c.End?)
      ensures HeadersOf(canon, calls + [c]) == headers
      ensures var item := Item(
          if headersSent then None else Some((headers, Status(statusProperty, statusCode).Current())),
          if c.FlushHeaders? then [] else c.data, c.End?);
        var items := if ended then sent else sent + [item];
        && HeadFixed(canon, calls + [c], items) && WellShaped(items, ended || c.End?)
        && DataOf(items) == BodyOf(calls + [c])
      ensures !NothingSent(calls + [c]) && (Ended(calls + [c]) <==> ended || c.End?)
      ensures ended ==> headersSent
    {
      EndedHasSent(calls);
      HistoryAppend(canon, calls, c);
      StatusAppend(calls, c);
      NothingSentAppend(calls, c);
      hide HeadersOf, StatusOf, BodyOf, DataOf, HeadFixed, WellShaped;
      if ended {
        QuietCall(canon, calls, sent, c);
      } else {
        SendingCall(canon, calls, sent, c, Item(
          if headersSent then None else Some((headers, Status(statusProperty, statusCode).Current())),
          if c.FlushHeaders? then [] else c.data, c.End?));
      }
    }

    method Apply(more: seq<Call>)
      requires Valid()
      modifies this
      ensures Valid() && calls == old(calls) + more && old(sent) <= sent
      ensures old(ended) ==> sent == old(sent)
    {
      hide Valid;
      for i := 0 to |more|
        invariant Valid() && calls == old(calls) + more[..i] && old(sent) <= sent
        invariant old(ended) ==> ended && sent == old(sent)
      {
        Perform(more[i]);
        assert old(calls) + more[..i + 1] == old(calls) + more[..i] + [more[i]];
      }
      assert more[..|more|] == more;
    }

    method Perform(c: Call)
      requires Valid()
      modifies this
      ensures Valid() && calls == old(calls) + [c] && old(sent) <= sent
      ensures old(ended) ==> ended && sent == old(sent)
    {
      EndedAppend(calls, c);
      match c
      case SetHeader(name, values) => DoSetHeader(name, values);
      case AppendHeader(name, value) => DoAppendHeader(name, value);
      case RemoveHeader(name) => DoRemoveHeader(name);
      case SetStatus(p) => DoSetStatus(p);
      case WriteHead(code, list) => DoWriteHead(code, list);
      case Write(data) => var ok := DoWrite(data);
      case FlushHeaders => DoFlushHeaders();
      case End(data) => DoEnd(data);
    }
  }

  lemma WriteHeadAppend(canon: string -> string, calls: seq<Call>, code: Option<int>, list: seq<(string, seq<string>)>)
    ensures var c := WriteHead(code, list);
      && HeadersOf(canon, calls + [c]) ==
        (if Ended(calls) then HeadersOf(canon, calls) else PutAll(canon, HeadersOf(canon, calls), list))
      && StatusOf(calls + [c]) ==
        (if Ended(calls) || code.None? then StatusOf(calls) else Status(code, code.value))
  {
    var c := WriteHead(code, list);
    assert (calls + [c])[..|calls|] == calls && (calls + [c])[|calls|] == c;
  }

  lemma StatusAppend(calls: seq<Call>, c: Call)
    requires c.Write? || c.FlushHeaders? || c.End?
    ensures StatusOf(calls + [c]) == StatusOf(calls)
  {
    assert (calls + [c])[..|calls|] == calls;
  }

  lemma LateHead(canon: string -> string, calls: seq<Call>, items: seq<Item>, c: Call)
    requires HeadFixed(canon, calls, items) && !NothingSent(calls) && c.WriteHead?
    ensures HeadFixed(canon, calls + [c], items) && !NothingSent(calls + [c])
    ensures (Ended(calls + [c]) <==> Ended(calls)) && BodyOf(calls + [c]) == BodyOf(calls)
  {
    hide HeadersOf, StatusOf, BodyOf;
    EndedAppend(calls, c);
    HistoryAppend(canon, calls, c);
    assert BodyOf(calls) + [] == BodyOf(calls);
    NothingSentAppend(calls, c);
    forall k | FirstSend(calls + [c], k)
      ensures items != [] && items[0].head == Some((HeadersOf(canon, (calls + [c])[..k + 1]), StatusOf((calls + [c])[..k + 1]).Current()))
    {
      FirstSendBefore(calls, c, k);
    }
  }

  // ---- the host side ----

  /** What has gone out on the connection. */
  datatype Wire = Wire(head: Option<(Headers, int)>, body: Bytes, finished: bool)

  /** The drain loop of handleRequest: it applies heads, writes data, and stops behind the end item. */
  method Drain(items: seq<Item>) returns (wire: Wire)
    requires forall i | 0 <= i < |items| :: items[i].head.Some? <==> i == 0
    ensures wire.finished <==> exists i | 0 <= i < |items| :: items[i].isEnd
    ensures wire.head == if items == [] then None else items[0].head
    ensures wire.finished ==> exists n | 0 < n <= |items| :: EndsAt(items, n) && wire.body == DataOf(items[..n])
    ensures !wire.finished ==> wire.body == DataOf(items)
  {
    wire := Wire(None, [], false);
    for i := 0 to |items|
      invariant !wire.finished && wire.body == DataOf(items[..i])
      invariant forall j | 0 <= j < i :: !items[j].isEnd
      invariant wire.head == if i == 0 then None else items[0].head
    {
      var item := items[i];
      assert items[..i + 1][..i] == items[..i];
      if item.head.Some? {
        wire := wire.(head := item.head);
      }
      if |item.data| > 0 {
        wire := wire.(body := wire.body + item.data);
      } else {
        assert wire.body + item.data == wire.body;
      }
      if item.isEnd {
        wire := wire.(finished := true);
        assert EndsAt(items, i + 1);
        return;
      }
    }
    assert items[..|items|] == items;
  }

  ghost predicate EndsAt(items: seq<Item>, n: nat) {
    0 < n <= |items| && items[n - 1].isEnd && forall j | 0 <= j < n - 1 :: !items[j].isEnd
  }

  /**
    * A whole response: the wire carries the headers and status of the moment of the first sending call, whatever is
    * changed later, and the data of every write and end call in order; it is finished exactly when end was called.
    */
  method Serve(canon: string -> string, calls: seq<Call>) returns (wire: Wire)
    ensures wire.finished <==> Ended(calls)
    ensures wire.body == BodyOf(calls)
    ensures wire.head.None? <==> NothingSent(calls)
    ensures forall k | FirstSend(calls, k) ::
      wire.head == Some((HeadersOf(canon, calls[..k + 1]), StatusOf(calls[..k + 1]).Current()))
  {
    var response := new ServerResponse(canon);
    response.Apply(calls);
    assert [] + calls == calls;
    wire := Drain(response.sent);
    EndIsLast(response.sent, response.ended);
  }

  lemma EndIsLast(items: seq<Item>, ended: bool)
    requires WellShaped(items, ended)
    ensures ended <==> exists i | 0 <= i < |items| :: items[i].isEnd
    ensures forall n: nat | EndsAt(items, n) :: items[..n] == items
  {
    if ended {
      assert items[|items| - 1].isEnd;
    }
  }
}
