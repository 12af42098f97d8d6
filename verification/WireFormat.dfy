/** What stands at which byte. These statements do not go through the functions that write and read
    words: two programs agree on them without sharing any code. */
module WireFormat {
  import opened Bytes
  import opened Framing
  import opened RpcCodec
  import AsyncClient
  import Session

  const EIGHT_ZEROS: Bytes := [0, 0, 0, 0, 0, 0, 0, 0]

  lemma WordAt(x: u16)
    ensures Be16(x)[0] as int * 0x100 + Be16(x)[1] == x
  {
  }

  lemma LongWordAt(x: u32)
    ensures var b := Be32(x);
            ((b[0] as int * 0x100 + b[1]) * 0x100 + b[2]) * 0x100 + b[3] == x
  {
    WordAt(x / 0x1_0000);
    WordAt(x % 0x1_0000);
  }

  lemma WordRead(b: Bytes)
    requires |b| == 2
    ensures FromBe16(b) == b[0] as int * 0x100 + b[1]
  {
  }

  lemma LongWordRead(b: Bytes)
    requires |b| == 4
    ensures FromBe32(b) == ((b[0] as int * 0x100 + b[1]) * 0x100 + b[2]) * 0x100 + b[3]
  {
    WordRead(b[..2]);
    WordRead(b[2..]);
  }

  // ---------------------------------------------------------------------
  // The frame header
  // ---------------------------------------------------------------------

  /** Magic, version and length go out most significant byte first, the reserved words as they are. */
  lemma HeaderAt(h: Header)
    ensures var b := HeaderBytes(h);
            && b[0] as int * 0x100 + b[1] == h.magic
            && b[2] as int * 0x100 + b[3] == h.version
            && ((b[4] as int * 0x100 + b[5]) * 0x100 + b[6]) * 0x100 + b[7] == h.length
            && b[8..12] == h.rev1 && b[12..16] == h.rev2
  {
    hide Be16, Be32;
    var b := HeaderBytes(h);
    WordAt(h.magic);
    WordAt(h.version);
    LongWordAt(h.length);
    HeaderParts(h);
    var m, v, l := b[0..2], b[2..4], b[4..8];
    assert m[0] == b[0] && m[1] == b[1] && v[0] == b[2] && v[1] == b[3];
    assert l[0] == b[4] && l[1] == b[5] && l[2] == b[6] && l[3] == b[7];
  }

  lemma HeaderParts(h: Header)
    ensures var b := HeaderBytes(h);
            && b[0..2] == Be16(h.magic) && b[2..4] == Be16(h.version) && b[4..8] == Be32(h.length)
            && b[8..12] == h.rev1 && b[12..16] == h.rev2
  {
    hide Be16, Be32;
    var b := HeaderBytes(h);
    var front := Be16(h.magic) + Be16(h.version) + Be32(h.length);
    assert b == front + h.rev1 + h.rev2 && |front| == 8;
    assert b[8..12] == h.rev1;
    assert b[12..] == h.rev2;
    assert b[12..16] == b[12..];
  }

  /** A receiver takes on exactly the headers that begin with "tk", 0 and 1 and whose length, most
      significant byte first, is within the limit. */
  lemma AcceptedBytes(limit: u32, b: Bytes)
    requires |b| == HEADER_SIZE
    ensures var h, length := ParseHeader(b), ((b[4] as int * 0x100 + b[5]) * 0x100 + b[6]) * 0x100 + b[7];
            && h.length == length
            && (Acceptable(limit, h) <==> b[..4] == [0x74, 0x6b, 0x00, 0x01] && (limit == 0 || length <= limit))
  {
    WordRead(b[0..2]);
    WordRead(b[2..4]);
    LongWordRead(b[4..8]);
    assert b[..4] == [b[0], b[1], b[2], b[3]];
  }

  /** The frame around some bytes. Its length field has 32 bits. */
  lemma MessageBytes(d: Bytes)
    ensures var f := NetStr(NewMessage(d));
            && |f| == 16 + |d|
            && f[..4] == [0x74, 0x6b, 0x00, 0x01]
            && ((f[4] as int * 0x100 + f[5]) * 0x100 + f[6]) * 0x100 + f[7] == |d| % 0x1_0000_0000
            && f[8..16] == EIGHT_ZEROS
            && f[16..] == d
  {
    hide HeaderBytes;
    var h, f := NewMessage(d).header, NetStr(NewMessage(d));
    var b := HeaderBytes(h);
    HeaderAt(h);
    assert f[..16] == b;
    assert b[..4] == [b[0], b[1], b[2], b[3]];
    assert f[..4] == b[..4];
    assert f[8..16] == b[8..12] + b[12..16];
    assert ZERO_WORD + ZERO_WORD == EIGHT_ZEROS;
  }

  // ---------------------------------------------------------------------
  // The RPC headers
  // ---------------------------------------------------------------------

  lemma FieldsAt(h: RequestHeader)
    ensures var b := RequestHeaderBytes(h);
            && b[0] as int * 0x100 + b[1] == h.magic
            && b[2] as int * 0x100 + b[3] == h.version
            && b[4] as int * 0x100 + b[5] == h.serviceId
            && b[6] as int * 0x100 + b[7] == h.opcode
            && b[8..12] == h.rev1 && b[12..16] == h.rev2
  {
    hide Be16;
    var b := RequestHeaderBytes(h);
    WordAt(h.magic);
    WordAt(h.version);
    WordAt(h.serviceId);
    WordAt(h.opcode);
    var front := Be16(h.magic) + Be16(h.version) + Be16(h.serviceId) + Be16(h.opcode);
    assert b == front + h.rev1 + h.rev2 && |front| == 8;
    assert b[8..12] == h.rev1;
    assert b[12..] == h.rev2;
    assert b[12..16] == b[12..];
  }

  /** A request as it goes out: "tr", version 1, service id and opcode, eight zeros, the payload. */
  lemma RequestBytes(serviceId: u16, opcode: u16, d: Bytes)
    ensures var s := RequestStr(NewRequest(serviceId, opcode, d));
            && |s| == 16 + |d|
            && s[..4] == [0x74, 0x72, 0x00, 0x01]
            && s[4] as int * 0x100 + s[5] == serviceId && s[6] as int * 0x100 + s[7] == opcode
            && s[8..16] == EIGHT_ZEROS
            && s[16..] == d
  {
    hide RequestHeaderBytes;
    var h, s := NewRequest(serviceId, opcode, d).header, RequestStr(NewRequest(serviceId, opcode, d));
    var b := RequestHeaderBytes(h);
    FieldsAt(h);
    assert s[..16] == b;
    assert b[..4] == [b[0], b[1], b[2], b[3]];
    assert s[..4] == b[..4];
    assert s[8..16] == b[8..12] + b[12..16];
    assert ZERO_WORD + ZERO_WORD == EIGHT_ZEROS;
  }

  lemma ResponseHeaderAt(h: ResponseHeader)
    ensures var b := ResponseHeaderBytes(h);
            && b[0] == h.status
            && b[1] as int * 0x100 + b[2] == h.magic
            && b[3] as int * 0x100 + b[4] == h.version
            && b[5] as int * 0x100 + b[6] == h.serviceId
            && b[7] as int * 0x100 + b[8] == h.opcode
            && b[9..13] == h.rev1 && b[13..17] == h.rev2
  {
    hide FieldBytes;
    var f := RequestHeader(h.magic, h.version, h.serviceId, h.opcode, h.rev1, h.rev2);
    var b, c := ResponseHeaderBytes(h), RequestHeaderBytes(f);
    FieldsAt(f);
    assert b == [h.status] + c;
    assert b[9..13] == c[8..12] && b[13..17] == c[12..16];
  }

  lemma ResponseStrAt(r: ResponseMessage)
    requires r.header.magic == 0x7472 && r.header.version == 1 && r.header.rev1 == r.header.rev2 == ZERO_WORD
    ensures var s := ResponseStr(r);
            && |s| == 17 + |r.payload|
            && s[..5] == [r.header.status, 0x74, 0x72, 0x00, 0x01]
            && s[5] as int * 0x100 + s[6] == r.header.serviceId
            && s[7] as int * 0x100 + s[8] == r.header.opcode
            && s[9..17] == EIGHT_ZEROS
            && s[17..] == r.payload
  {
    hide ResponseHeaderBytes;
    var s, b := ResponseStr(r), ResponseHeaderBytes(r.header);
    ResponseHeaderAt(r.header);
    assert s[..17] == b;
    assert b[..5] == [b[0], b[1], b[2], b[3], b[4]];
    assert s[..5] == b[..5];
    assert s[9..17] == b[9..13] + b[13..17];
    assert ZERO_WORD + ZERO_WORD == EIGHT_ZEROS;
  }

  /** A reply as it goes out: status 0, "tr", version 1, the ids, eight zeros, the payload. */
  lemma ReplyBytes(serviceId: u16, opcode: u16, d: Bytes)
    ensures var s := ResponseStr(NewResponse(serviceId, opcode, d));
            && |s| == 17 + |d|
            && s[..5] == [0x00, 0x74, 0x72, 0x00, 0x01]
            && s[5] as int * 0x100 + s[6] == serviceId && s[7] as int * 0x100 + s[8] == opcode
            && s[9..17] == EIGHT_ZEROS
            && s[17..] == d
  {
    hide ResponseStr;
    ResponseStrAt(NewResponse(serviceId, opcode, d));
  }

  /** A rejection as it goes out: its status, "tr", version 1 and twelve zeros, the ids among them. */
  lemma RejectBytes(status: u8)
    ensures ResponseStr(NewReject(status)) == [status, 0x74, 0x72, 0x00, 0x01, 0, 0, 0, 0] + EIGHT_ZEROS
  {
    hide ResponseStr;
    var s := ResponseStr(NewReject(status));
    ResponseStrAt(NewReject(status));
    assert s == s[..5] + [s[5], s[6], s[7], s[8]] + s[9..17] + s[17..];
  }

  /** A server takes on exactly the strings that begin with "tr", 0 and 1 and have something behind
      the header; ids and payload are where `RequestBytes` puts them. */
  lemma ValidRequestBytes(str: Bytes)
    ensures var v := ValidRequest(str);
            && (v.Some? <==> |str| > 16 && str[..4] == [0x74, 0x72, 0x00, 0x01])
            && (v.Some? ==>
                  && v.value.header.serviceId == str[4] as int * 0x100 + str[5]
                  && v.value.header.opcode == str[6] as int * 0x100 + str[7]
                  && v.value.payload == str[16..])
  {
    if |str| >= 16 {
      var b := str[..16];
      WordRead(b[0..2]);
      WordRead(b[2..4]);
      WordRead(b[4..6]);
      WordRead(b[6..8]);
      assert str[..4] == [str[0], str[1], str[2], str[3]];
    }
  }

  // ---------------------------------------------------------------------
  // What the clients make of a response, whatever it is
  // ---------------------------------------------------------------------

  /** The first 17 bytes of a response, read without the codec. */
  lemma ResponseRead(p: Bytes)
    ensures ResponseParse(p).None? <==> |p| < 17
    ensures |p| >= 17 ==>
              var r := ResponseParse(p).value;
              && r.header.status == p[0]
              && (r.header.magic == RPC_MAGIC <==> p[1..3] == [0x74, 0x72])
              && r.header.serviceId == p[5] as int * 0x100 + p[6]
              && r.header.opcode == p[7] as int * 0x100 + p[8]
              && r.payload == p[17..]
  {
    if |p| >= 17 {
      var b := p[..17][1..];
      WordRead(b[0..2]);
      WordRead(b[4..6]);
      WordRead(b[6..8]);
      assert p[1..3] == [p[1], p[2]];
    }
  }

  /** What the handler of an asynchronous client is told about any message at all: a format error if
      it is shorter than 17 bytes or "tr" is not where it should be, else its status byte, and OK
      with ids and payload if that is 0. */
  lemma HandlerTold(m: Message)
    ensures var p := m.payload;
            AsyncClient.ReportOf(m)
            == if |p| < 17 || p[1..3] != [0x74, 0x72] then AsyncClient.Report(21, 0xFFFF, 0xFFFF, [])
               else if p[0] != 0 then AsyncClient.Report(p[0], 0xFFFF, 0xFFFF, [])
               else AsyncClient.Report(0, p[5] as int * 0x100 + p[6], p[7] as int * 0x100 + p[8], p[17..])
  {
    hide ParseResponseHeader;
    ResponseRead(m.payload);
  }

  /** The handler is told OK exactly about the written form of a response with the right magic and
      status 0, and then with its ids and payload. */
  lemma HandlerToldOkIff(m: Message, report: AsyncClient.Report)
    requires report.status == 0
    ensures AsyncClient.ReportOf(m) == report
       <==> exists r :: && m.payload == ResponseStr(r) && r.header.magic == 0x7472 && r.header.status == 0
                        && report == AsyncClient.Report(0, r.header.serviceId, r.header.opcode, r.payload)
  {
    hide ResponseStr, ResponseParse;
    var parsed := ResponseParse(m.payload);
    if parsed.Some? {
      ResponseRoundTrip(parsed.value, m.payload);
    }
    forall r | m.payload == ResponseStr(r)
      ensures parsed == Some(r)
    {
      ResponseRoundTrip(r, m.payload);
    }
  }

  /** What a blocking caller of `serviceId`/`opcode` is told about any message at all: a format error
      also if the ids are not its own. */
  lemma CallerTold(serviceId: u16, opcode: u16, p: Bytes)
    ensures Session.ViewOf(serviceId, opcode, p)
         == if |p| < 17 || p[1..3] != [0x74, 0x72]
               || p[5] as int * 0x100 + p[6] != serviceId || p[7] as int * 0x100 + p[8] != opcode then (21, [])
            else if p[0] != 0 then (p[0], [])
            else (0, p[17..])
  {
    hide ParseResponseHeader;
    ResponseRead(p);
  }
}
