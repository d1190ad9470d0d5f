/** The two wire formats of the child-process IPC channel, and their incremental parser. */
module IpcFraming {
  import opened Bytes
  import opened Wrappers

  datatype Mode = Json | Advanced

  const NEWLINE: Byte := 10

  /** encode: a serialized message as one frame. */
  function Encode(mode: Mode, payload: Bytes): Bytes {
    match mode
    case Json => payload + [NEWLINE]
    case Advanced => FromNat(|payload|, 4) + payload
  }

  /** What the format can carry: a JSON line has no raw newline, and a length fits four bytes. */
  predicate Fits(mode: Mode, payload: Bytes) {
    match mode
    case Json => NEWLINE !in payload
    case Advanced => |payload| < Pow256(4)
  }

  /** The first complete frame and the number of bytes it takes. */
  datatype Frame = Frame(payload: Bytes, taken: nat)

  ghost predicate IsFirst(mode: Mode, pending: Bytes, f: Frame) {
    match mode
    case Json =>
      f.taken > 0 && f.taken <= |pending| && f.payload == pending[..f.taken - 1]
      && pending[f.taken - 1] == NEWLINE && NEWLINE !in f.payload
    case Advanced =>
      4 <= f.taken <= |pending| && f.taken == 4 + ToNat(pending[..4]) && f.payload == pending[4..f.taken]
  }

  function IndexOf(b: Bytes, c: Byte): (i: int)
    ensures -1 <= i < |b|
    ensures i >= 0 ==> b[i] == c && c !in b[..i]
    ensures i < 0 ==> c !in b
  {
    if b == [] then -1
    else
      var i := IndexOf(b[..|b| - 1], c);
      if i >= 0 then i else if b[|b| - 1] == c then |b| - 1 else -1
  }

  function First(mode: Mode, pending: Bytes): (f: Option<Frame>)
    ensures f.Some? ==> IsFirst(mode, pending, f.value) && 0 < f.value.taken <= |pending|
    ensures f.None? ==> forall g :: !IsFirst(mode, pending, g)
  {
    match mode
    case Json =>
      var i := IndexOf(pending, NEWLINE);
      if i < 0 then None else Some(Frame(pending[..i], i + 1))
    case Advanced =>
      if |pending| < 4 || |pending| < 4 + ToNat(pending[..4]) then None
      else
        var size := ToNat(pending[..4]);
        Some(Frame(pending[4..4 + size], 4 + size))
  }

  lemma FirstIsUnique(mode: Mode, pending: Bytes, f: Frame)
    requires IsFirst(mode, pending, f)
    ensures First(mode, pending) == Some(f)
  {
    hide ToNat;
    if mode.Json? {
      var i := IndexOf(pending, NEWLINE);
      assert forall j | 0 <= j < f.taken - 1 :: pending[j] == f.payload[j] && pending[j] != NEWLINE;
      assert forall j | 0 <= j < i :: pending[j] == pending[..i][j] && pending[j] != NEWLINE;
    }
  }

  /** More bytes do not change a frame that is already complete. */
  lemma FirstIsStable(mode: Mode, pending: Bytes, more: Bytes, f: Frame)
    requires IsFirst(mode, pending, f)
    ensures IsFirst(mode, pending + more, f)
  {
    hide ToNat;
    if mode.Advanced? {
      assert (pending + more)[..4] == pending[..4];
      assert (pending + more)[4..f.taken] == pending[4..f.taken];
    } else {
      assert (pending + more)[..f.taken - 1] == pending[..f.taken - 1];
    }
  }

  /** All complete frames of a byte string, and the incomplete rest. */
  datatype Parsed = Parsed(frames: seq<Bytes>, rest: Bytes)

  function Parse(mode: Mode, bytes: Bytes): Parsed
    decreases |bytes|
  {
    var f := First(mode, bytes);
    if f.None? then Parsed([], bytes)
    else
      var p := Parse(mode, bytes[f.value.taken..]);
      Parsed([f.value.payload] + p.frames, p.rest)
  }

  lemma ParseNone(mode: Mode, bytes: Bytes)
    requires First(mode, bytes).None?
    ensures Parse(mode, bytes) == Parsed([], bytes)
  {
    hide First;
  }

  lemma ParseSome(mode: Mode, bytes: Bytes, f: Frame)
    requires IsFirst(mode, bytes, f)
    ensures 0 < f.taken <= |bytes|
    ensures var p := Parse(mode, bytes[f.taken..]); Parse(mode, bytes) == Parsed([f.payload] + p.frames, p.rest)
  {
    hide First, IsFirst;
    FirstIsUnique(mode, bytes, f);
  }

  /** Parsing may stop anywhere: the rest and the later bytes parse to the remaining frames. */
  lemma {:induction false} ParseContinues(mode: Mode, a: Bytes, b: Bytes)
    ensures var p := Parse(mode, a);
      var q := Parse(mode, p.rest + b);
      Parse(mode, a + b) == Parsed(p.frames + q.frames, q.rest)
    decreases |a|
  {
    hide *;
    var f := First(mode, a);
    if f.Some? {
      var n := f.value.taken;
      ParseSome(mode, a, f.value);
      FirstIsStable(mode, a, b, f.value);
      ParseSome(mode, a + b, f.value);
      ParseContinues(mode, a[n..], b);
      assert (a + b)[n..] == a[n..] + b;
      var p := Parse(mode, a[n..]);
      var q := Parse(mode, p.rest + b);
      assert [f.value.payload] + (p.frames + q.frames) == ([f.value.payload] + p.frames) + q.frames;
    } else {
      ParseNone(mode, a);
      assert [] + Parse(mode, a + b).frames == Parse(mode, a + b).frames;
    }
  }

  function EncodeAll(mode: Mode, payloads: seq<Bytes>): Bytes {
    if payloads == [] then [] else Encode(mode, payloads[0]) + EncodeAll(mode, payloads[1..])
  }

  lemma EncodedIsFirst(mode: Mode, payload: Bytes)
    requires Fits(mode, payload)
    ensures IsFirst(mode, Encode(mode, payload), Frame(payload, |Encode(mode, payload)|))
  {
    hide ToNat, FromNat, Pow256;
    if mode.Advanced? {
      ToNatFromNat(|payload|, 4);
      assert Encode(mode, payload)[..4] == FromNat(|payload|, 4);
    }
  }

  lemma EncodedThenMore(mode: Mode, payload: Bytes, more: Bytes)
    requires Fits(mode, payload)
    ensures var p := Parse(mode, more);
      Parse(mode, Encode(mode, payload) + more) == Parsed([payload] + p.frames, p.rest)
  {
    hide *;
    var e := Encode(mode, payload);
    EncodedIsFirst(mode, payload);
    FirstIsStable(mode, e, more, Frame(payload, |e|));
    ParseSome(mode, e + more, Frame(payload, |e|));
    assert (e + more)[|e|..] == more;
  }

  lemma EncodeAllStep(mode: Mode, payloads: seq<Bytes>)
    ensures payloads == [] ==> EncodeAll(mode, payloads) == []
    ensures payloads != [] ==> EncodeAll(mode, payloads) == Encode(mode, payloads[0]) + EncodeAll(mode, payloads[1..])
  {
  }

  /** Whatever was sent comes out, in order, and an incomplete suffix stays behind. */
  lemma {:induction false} ParseEncoded(mode: Mode, payloads: seq<Bytes>, suffix: Bytes)
    requires (forall i | 0 <= i < |payloads| :: Fits(mode, payloads[i])) && First(mode, suffix).None?
    ensures Parse(mode, EncodeAll(mode, payloads) + suffix) == Parsed(payloads, suffix)
    decreases |payloads|
  {
    hide *;
    EncodeAllStep(mode, payloads);
    if payloads == [] {
      ParseNone(mode, suffix);
      assert [] + suffix == suffix;
    } else {
      var e, rest := Encode(mode, payloads[0]), EncodeAll(mode, payloads[1..]);
      ParseEncoded(mode, payloads[1..], suffix);
      EncodedThenMore(mode, payloads[0], rest + suffix);
      assert (e + rest) + suffix == e + (rest + suffix);
      assert [payloads[0]] + payloads[1..] == payloads;
    }
  }

  /** A payload too long for the length field, or with a raw newline, is not read back. */
  lemma OnlyFittingRoundTrips(mode: Mode, payload: Bytes)
    ensures Parse(mode, Encode(mode, payload)) == Parsed([payload], []) <==> Fits(mode, payload)
  {
    if Fits(mode, payload) {
      EmptyHasNoFrame(mode);
      ParseEncoded(mode, [payload], []);
      assert EncodeAll(mode, [payload]) == Encode(mode, payload) + [];
      assert EncodeAll(mode, [payload]) + [] == Encode(mode, payload);
    } else {
      Unfit(mode, payload);
    }
  }

  lemma EmptyHasNoFrame(mode: Mode)
    ensures First(mode, []).None?
  {
  }

  lemma Unfit(mode: Mode, payload: Bytes)
    requires !Fits(mode, payload)
    ensures Parse(mode, Encode(mode, payload)).frames != [payload]
  {
    hide Parse, ToNat, FromNat, Pow256;
    var e := Encode(mode, payload);
    FirstPayload(mode, e);
    var f := First(mode, e);
    if mode.Json? {
      assert f.Some? ==> NEWLINE !in f.value.payload;
    } else {
      assert e[..4] == FromNat(|payload|, 4);
      ToNatBound(e[..4]);
      assert f.Some? ==> |f.value.payload| == ToNat(e[..4]) < |payload|;
    }
  }

  lemma FirstPayload(mode: Mode, bytes: Bytes)
    ensures First(mode, bytes).Some? ==> |Parse(mode, bytes).frames| > 0 && Parse(mode, bytes).frames[0] == First(mode, bytes).value.payload
    ensures First(mode, bytes).None? ==> Parse(mode, bytes).frames == []
  {
    hide First;
  }

  /** A JSON message is its text and a newline; an advanced one is its length in four bytes, the highest first, and its bytes. */
  lemma EncodingBytes(payload: Bytes)
    ensures Encode(Json, payload) == payload + [0x0a]
    ensures |payload| < 0x1_0000_0000 ==>
      var e: seq<int> := Encode(Advanced, payload);
      |e| == 4 + |payload| && e[4..] == payload
        && |payload| == 0x100_0000 * e[0] + 0x1_0000 * e[1] + 0x100 * e[2] + e[3]
  {
    var n := |payload|;
    if n < 0x1_0000_0000 {
      FourDigits(n);
    }
    assert (FromNat(n, 4) + payload)[4..] == payload;
  }

  lemma FourDigits(n: nat)
    requires n < 0x1_0000_0000
    ensures var b: seq<int> := FromNat(n, 4);
      |b| == 4 && n == 0x100_0000 * b[0] + 0x1_0000 * b[1] + 0x100 * b[2] + b[3]
  {
    var n1 := n / 256;
    var n2 := n1 / 256;
    var n3 := n2 / 256;
    LastDigit(n, 4);
    LastDigit(n1, 3);
    LastDigit(n2, 2);
    LastDigit(n3, 1);
    hide FromNat;
    assert n3 % 256 == n3;
  }

  lemma LastDigit(n: nat, len: nat)
    requires len > 0
    ensures FromNat(n, len) == FromNat(n / 256, len - 1) + [n % 256]
    ensures FromNat(n, 0) == []
  {
  }
}
