/** The frame layer: a 16-byte big-endian header followed by `length` payload bytes,
    and the reference meaning of a byte stream as a list of frames. */
module Framing {
  import opened Bytes

  const HEADER_MAGIC: u16 := 0x746b
  const HEADER_VERSION: u16 := 0x01
  const HEADER_SIZE: nat := 16

  datatype Header = Header(magic: u16, version: u16, length: u32, rev1: Word, rev2: Word)

  datatype Message = Message(header: Header, payload: Bytes)

  /** The header in network order. */
  function HeaderBytes(h: Header): (b: Bytes)
    ensures |b| == HEADER_SIZE
  {
    Be16(h.magic) + Be16(h.version) + Be32(h.length) + h.rev1 + h.rev2
  }

  /** The header read back from 16 raw bytes. */
  function ParseHeader(b: Bytes): Header
    requires |b| == HEADER_SIZE
  {
    Header(FromBe16(b[0..2]), FromBe16(b[2..4]), FromBe32(b[4..8]), b[8..12], b[12..16])
  }

  lemma HeaderRoundTrip(h: Header)
    ensures ParseHeader(HeaderBytes(h)) == h
  {
    var b := HeaderBytes(h);
    assert b[0..2] == Be16(h.magic) && b[2..4] == Be16(h.version) && b[4..8] == Be32(h.length);
    var front := Be16(h.magic) + Be16(h.version) + Be32(h.length);
    assert b == front + h.rev1 + h.rev2 && |front| == 8;
    assert b[8..12] == h.rev1;
    assert b[12..] == h.rev2;
    assert b[12..16] == b[12..];
    Be16Inverse(h.magic, b[0..2]);
    Be16Inverse(h.version, b[0..2]);
    Be32Inverse(h.length, b[4..8]);
  }

  lemma HeaderOnto(b: Bytes)
    requires |b| == HEADER_SIZE
    ensures HeaderBytes(ParseHeader(b)) == b
  {
    Be16Inverse(0, b[0..2]);
    Be16Inverse(0, b[2..4]);
    Be32Inverse(0, b[4..8]);
    assert b == b[0..2] + b[2..4] + b[4..8] + b[8..12] + b[12..16];
  }

  /** `explicit Message(const std::string&)`: the length field is 32 bits wide. */
  function NewMessage(data: Bytes): Message {
    Message(Header(HEADER_MAGIC, HEADER_VERSION, Truncate32(|data|), ZERO_WORD, ZERO_WORD), data)
  }

  function NetStr(m: Message): Bytes {
    HeaderBytes(m.header) + m.payload
  }

  /** The test a receiver applies to a header; a limit of 0 means no limit. */
  predicate Acceptable(limit: u32, h: Header) {
    h.magic == HEADER_MAGIC && h.version == HEADER_VERSION && (limit == 0 || h.length <= limit)
  }

  predicate WellFormed(limit: u32, m: Message) {
    Acceptable(limit, m.header) && m.header.length == |m.payload|
  }

  ghost predicate AllWellFormed(limit: u32, ms: seq<Message>) {
    forall m | m in ms :: WellFormed(limit, m)
  }

  function EncodeAll(ms: seq<Message>): Bytes {
    if ms == [] then [] else NetStr(ms[0]) + EncodeAll(ms[1..])
  }

  lemma {:induction false} EncodeAllConcat(a: seq<Message>, b: seq<Message>)
    ensures EncodeAll(a + b) == EncodeAll(a) + EncodeAll(b)
  {
    if a == [] {
      assert a + b == b;
    } else {
      assert (a + b)[1..] == a[1..] + b;
      EncodeAllConcat(a[1..], b);
    }
  }

  lemma EncodeAllSnoc(ms: seq<Message>, m: Message)
    ensures EncodeAll(ms + [m]) == EncodeAll(ms) + NetStr(m)
  {
    EncodeAllConcat(ms, [m]);
    assert EncodeAll([m]) == NetStr(m) + EncodeAll([]);
  }

  /** Why a receiver cannot go on: it lacks header bytes, it lacks body bytes,
      or the header it read is refused. */
  datatype Stop = NeedHeader | NeedBody(header: Header) | BadHeader(header: Header)

  /** The frames found in a byte string, why the search stopped, and the bytes
      behind the last header or frame taken off. */
  datatype Outcome = Outcome(msgs: seq<Message>, stop: Stop, rest: Bytes)

  /** The bytes not yet turned into messages, a header already taken off included. */
  function Tail(o: Outcome): Bytes {
    match o.stop
    case NeedHeader => o.rest
    case NeedBody(h) => HeaderBytes(h) + o.rest
    case BadHeader(h) => HeaderBytes(h) + o.rest
  }

  predicate StopOk(limit: u32, o: Outcome) {
    match o.stop
    case NeedHeader => |o.rest| < HEADER_SIZE
    case NeedBody(h) => Acceptable(limit, h) && |o.rest| < h.length
    case BadHeader(h) => !Acceptable(limit, h)
  }

  /** The reference split of a whole byte string. */
  function Split(limit: u32, s: Bytes): (o: Outcome)
    ensures StopOk(limit, o)
    decreases |s|
  {
    if |s| < HEADER_SIZE then
      Outcome([], NeedHeader, s)
    else
      var h := ParseHeader(s[..HEADER_SIZE]);
      var body := s[HEADER_SIZE..];
      if !Acceptable(limit, h) then
        Outcome([], BadHeader(h), body)
      else if |body| < h.length then
        Outcome([], NeedBody(h), body)
      else
        var o := Split(limit, body[h.length..]);
        Outcome([Message(h, body[..h.length])] + o.msgs, o.stop, o.rest)
  }

  /** What it means for `o` to be a split of `s`, without saying how it is found. */
  ghost predicate IsSplit(limit: u32, s: Bytes, o: Outcome) {
    s == EncodeAll(o.msgs) + Tail(o) && AllWellFormed(limit, o.msgs) && StopOk(limit, o)
  }

  lemma IsSplitCons(limit: u32, m: Message, s: Bytes, o: Outcome)
    requires WellFormed(limit, m) && IsSplit(limit, s, o)
    ensures IsSplit(limit, NetStr(m) + s, o.(msgs := [m] + o.msgs))
  {
    hide HeaderBytes, ParseHeader;
    var q := o.(msgs := [m] + o.msgs);
    assert q.msgs[1..] == o.msgs;
    assert Tail(q) == Tail(o);
    Assoc(NetStr(m), EncodeAll(o.msgs), Tail(o));
  }

  lemma IsSplitNil(limit: u32, o: Outcome)
    requires o.msgs == [] && StopOk(limit, o)
    ensures IsSplit(limit, Tail(o), o)
  {
    hide HeaderBytes, ParseHeader;
    assert EncodeAll([]) + Tail(o) == Tail(o);
  }

  /** The reference split is a split. */
  lemma {:induction false} SplitSound(limit: u32, s: Bytes)
    ensures IsSplit(limit, s, Split(limit, s))
    decreases |s|
  {
    hide HeaderBytes, ParseHeader, EncodeAll, IsSplit, StopOk, Acceptable;
    var o := Split(limit, s);
    if |s| < HEADER_SIZE {
      IsSplitNil(limit, o);
    } else {
      var h, body := ParseHeader(s[..HEADER_SIZE]), s[HEADER_SIZE..];
      HeaderOnto(s[..HEADER_SIZE]);
      assert s == HeaderBytes(h) + body;
      if Acceptable(limit, h) && |body| >= h.length {
        var m, rest := Message(h, body[..h.length]), body[h.length..];
        SplitSound(limit, rest);
        IsSplitCons(limit, m, rest, Split(limit, rest));
        assert body == m.payload + rest;
        Assoc(HeaderBytes(h), m.payload, rest);
      } else {
        IsSplitNil(limit, o);
      }
    }
  }

  /** A header already taken off the buffer acts as if it were still in front of it. */
  lemma SplitAfterHeader(limit: u32, h: Header, body: Bytes)
    requires Acceptable(limit, h)
    ensures var o := Split(limit, HeaderBytes(h) + body);
            if |body| < h.length then
              o == Outcome([], NeedBody(h), body)
            else
              var p := Split(limit, body[h.length..]);
              o == Outcome([Message(h, body[..h.length])] + p.msgs, p.stop, p.rest)
  {
    var s := HeaderBytes(h) + body;
    assert s[..HEADER_SIZE] == HeaderBytes(h) && s[HEADER_SIZE..] == body;
    HeaderRoundTrip(h);
  }

  lemma SplitBadHeader(limit: u32, h: Header, body: Bytes)
    requires !Acceptable(limit, h)
    ensures Split(limit, HeaderBytes(h) + body) == Outcome([], BadHeader(h), body)
  {
    var s := HeaderBytes(h) + body;
    assert s[..HEADER_SIZE] == HeaderBytes(h) && s[HEADER_SIZE..] == body;
    HeaderRoundTrip(h);
  }

  /** A whole frame in front of a stream is the first message of its split. */
  lemma SplitFrame(limit: u32, m: Message, s: Bytes)
    requires WellFormed(limit, m)
    ensures Split(limit, NetStr(m) + s) == Split(limit, s).(msgs := [m] + Split(limit, s).msgs)
  {
    var body := m.payload + s;
    Assoc(HeaderBytes(m.header), m.payload, s);
    assert body[..m.header.length] == m.payload && body[m.header.length..] == s;
    SplitAfterHeader(limit, m.header, body);
  }

  /** A stream has only one split, so `IsSplit` defines `Split`. */
  lemma {:induction false} SplitUnique(limit: u32, s: Bytes, o: Outcome)
    requires IsSplit(limit, s, o)
    ensures o == Split(limit, s)
    decreases |o.msgs|
  {
    hide HeaderBytes, ParseHeader;
    if o.msgs == [] {
      assert s == Tail(o);
      match o.stop
      case NeedHeader =>
      case NeedBody(h) => SplitAfterHeader(limit, h, o.rest);
      case BadHeader(h) => SplitBadHeader(limit, h, o.rest);
    } else {
      var m, o' := o.msgs[0], o.(msgs := o.msgs[1..]);
      var s' := EncodeAll(o'.msgs) + Tail(o');
      assert m in o.msgs;
      assert forall x | x in o'.msgs :: x in o.msgs;
      SplitUnique(limit, s', o');
      Assoc(NetStr(m), EncodeAll(o'.msgs), Tail(o'));
      SplitFrame(limit, m, s');
    }
  }

  lemma IsSplitExtend(limit: u32, a: Bytes, b: Bytes, o: Outcome, p: Outcome)
    requires IsSplit(limit, a, o) && IsSplit(limit, Tail(o) + b, p)
    ensures IsSplit(limit, a + b, Outcome(o.msgs + p.msgs, p.stop, p.rest))
  {
    hide HeaderBytes, ParseHeader;
    var q := Outcome(o.msgs + p.msgs, p.stop, p.rest);
    EncodeAllConcat(o.msgs, p.msgs);
    var eo, ep, to, tp := EncodeAll(o.msgs), EncodeAll(p.msgs), Tail(o), Tail(p);
    assert Tail(q) == tp;
    assert (eo + to) + b == eo + (to + b);
    assert eo + (ep + tp) == (eo + ep) + tp;
  }

  lemma IsSplitRefused(limit: u32, a: Bytes, b: Bytes, o: Outcome)
    requires IsSplit(limit, a, o) && o.stop.BadHeader?
    ensures IsSplit(limit, a + b, o.(rest := o.rest + b))
  {
    hide EncodeAll, HeaderBytes;
    var e, h := EncodeAll(o.msgs), HeaderBytes(o.stop.header);
    assert (e + (h + o.rest)) + b == e + (h + (o.rest + b));
  }

  /** Splitting can be interrupted anywhere: the tail of a first part, put in front
      of what comes later, continues the split. */
  lemma SplitExtend(limit: u32, a: Bytes, b: Bytes)
    requires !Split(limit, a).stop.BadHeader?
    ensures var o, p := Split(limit, a), Split(limit, Tail(Split(limit, a)) + b);
            Split(limit, a + b) == Outcome(o.msgs + p.msgs, p.stop, p.rest)
  {
    var o := Split(limit, a);
    var p := Split(limit, Tail(o) + b);
    SplitSound(limit, a);
    SplitSound(limit, Tail(o) + b);
    IsSplitExtend(limit, a, b, o, p);
    SplitUnique(limit, a + b, Outcome(o.msgs + p.msgs, p.stop, p.rest));
  }

  /** A refused header ends the split for good. */
  lemma SplitRefused(limit: u32, a: Bytes, b: Bytes)
    requires Split(limit, a).stop.BadHeader?
    ensures Split(limit, a + b) == Split(limit, a).(rest := Split(limit, a).rest + b)
  {
    var o := Split(limit, a);
    SplitSound(limit, a);
    IsSplitRefused(limit, a, b, o);
    SplitUnique(limit, a + b, o.(rest := o.rest + b));
  }

  lemma SplitMonotone(limit: u32, a: Bytes, b: Bytes)
    ensures Split(limit, a).msgs <= Split(limit, a + b).msgs
  {
    if Split(limit, a).stop.BadHeader? {
      SplitRefused(limit, a, b);
    } else {
      SplitExtend(limit, a, b);
    }
  }

  /** Decoding inverts encoding. */
  lemma SplitEncode(limit: u32, ms: seq<Message>)
    requires AllWellFormed(limit, ms)
    ensures Split(limit, EncodeAll(ms)) == Outcome(ms, NeedHeader, [])
  {
    var o := Outcome(ms, NeedHeader, []);
    assert EncodeAll(ms) == EncodeAll(o.msgs) + Tail(o);
    SplitUnique(limit, EncodeAll(ms), o);
  }

  /** Taking a header off and putting it back changes nothing. */
  lemma SplitAtHeader(limit: u32, b: Bytes)
    requires |b| >= HEADER_SIZE
    ensures HeaderBytes(ParseHeader(b[..HEADER_SIZE])) + b[HEADER_SIZE..] == b
    ensures var h, rest := ParseHeader(b[..HEADER_SIZE]), b[HEADER_SIZE..];
            !Acceptable(limit, h) ==> Split(limit, b) == Outcome([], BadHeader(h), rest)
  {
    HeaderOnto(b[..HEADER_SIZE]);
  }

  /** New bytes for a split that was short of header bytes. */
  lemma SplitResumeHeader(limit: u32, a: Bytes, msgs: seq<Message>, rest: Bytes, b: Bytes)
    requires Split(limit, a) == Outcome(msgs, NeedHeader, rest)
    ensures var o := Split(limit, rest + b);
            Split(limit, a + b) == Outcome(msgs + o.msgs, o.stop, o.rest)
  {
    hide HeaderBytes, ParseHeader;
    SplitExtend(limit, a, b);
  }

  /** New bytes for a split that was short of body bytes. */
  lemma SplitResumeBody(limit: u32, a: Bytes, msgs: seq<Message>, h: Header, rest: Bytes, b: Bytes)
    requires Split(limit, a) == Outcome(msgs, NeedBody(h), rest)
    ensures var body := rest + b;
            if |body| < h.length then
              Split(limit, a + b) == Outcome(msgs, NeedBody(h), body)
            else
              var o := Split(limit, body[h.length..]);
              Split(limit, a + b)
              == Outcome(msgs + [Message(h, body[..h.length])] + o.msgs, o.stop, o.rest)
  {
    hide HeaderBytes, ParseHeader;
    SplitExtend(limit, a, b);
    Assoc(HeaderBytes(h), rest, b);
    var body := rest + b;
    SplitAfterHeader(limit, h, body);
    if |body| >= h.length {
      var m, o := Message(h, body[..h.length]), Split(limit, body[h.length..]);
      assert msgs + ([m] + o.msgs) == msgs + [m] + o.msgs;
    }
  }
}
