/** The RPC layer inside a frame: a 16-byte request header or a 17-byte response header, then
    the service's own bytes. */
module RpcCodec {
  import opened Bytes
  import opened Framing
  import opened NetConn
  import R = Receiver

  datatype Option<+T> = None | Some(value: T)

  const RPC_MAGIC: u16 := 0x7472
  const RPC_VERSION: u16 := 0x01
  const REQUEST_HEADER_SIZE: nat := 16
  const RESPONSE_HEADER_SIZE: nat := 17

  const STATUS_OK: u8 := 0
  const INVALID_SERVICE: u8 := 3
  const INVALID_REQUEST: u8 := 4

  datatype RequestHeader =
    RequestHeader(magic: u16, version: u16, serviceId: u16, opcode: u16, rev1: Word, rev2: Word)

  datatype RequestMessage = RequestMessage(header: RequestHeader, payload: Bytes)

  datatype ResponseHeader =
    ResponseHeader(status: u8, magic: u16, version: u16, serviceId: u16, opcode: u16, rev1: Word, rev2: Word)

  datatype ResponseMessage = ResponseMessage(header: ResponseHeader, payload: Bytes)

  function NewRequest(serviceId: u16, opcode: u16, data: Bytes): RequestMessage {
    RequestMessage(RequestHeader(RPC_MAGIC, RPC_VERSION, serviceId, opcode, ZERO_WORD, ZERO_WORD), data)
  }

  function NewResponse(serviceId: u16, opcode: u16, data: Bytes): ResponseMessage {
    ResponseMessage(
      ResponseHeader(STATUS_OK, RPC_MAGIC, RPC_VERSION, serviceId, opcode, ZERO_WORD, ZERO_WORD), data)
  }

  /** A rejection names neither the service nor the opcode it answers. */
  function NewReject(status: u8): ResponseMessage {
    ResponseMessage(ResponseHeader(status, RPC_MAGIC, RPC_VERSION, 0, 0, ZERO_WORD, ZERO_WORD), [])
  }

  /** The four 16-bit fields and two reserved words both headers share. */
  function FieldBytes(magic: u16, version: u16, serviceId: u16, opcode: u16, rev1: Word, rev2: Word): (b: Bytes)
    ensures |b| == REQUEST_HEADER_SIZE
  {
    Be16(magic) + Be16(version) + Be16(serviceId) + Be16(opcode) + rev1 + rev2
  }

  function ParseFields(b: Bytes): RequestHeader
    requires |b| == REQUEST_HEADER_SIZE
  {
    RequestHeader(FromBe16(b[0..2]), FromBe16(b[2..4]), FromBe16(b[4..6]), FromBe16(b[6..8]), b[8..12], b[12..16])
  }

  function RequestHeaderBytes(h: RequestHeader): (b: Bytes)
    ensures |b| == REQUEST_HEADER_SIZE
  {
    FieldBytes(h.magic, h.version, h.serviceId, h.opcode, h.rev1, h.rev2)
  }

  function ResponseHeaderBytes(h: ResponseHeader): (b: Bytes)
    ensures |b| == RESPONSE_HEADER_SIZE
  {
    [h.status] + FieldBytes(h.magic, h.version, h.serviceId, h.opcode, h.rev1, h.rev2)
  }

  function ParseResponseHeader(b: Bytes): ResponseHeader
    requires |b| == RESPONSE_HEADER_SIZE
  {
    var f := ParseFields(b[1..]);
    ResponseHeader(b[0], f.magic, f.version, f.serviceId, f.opcode, f.rev1, f.rev2)
  }

  lemma FieldsRoundTrip(h: RequestHeader)
    ensures ParseFields(RequestHeaderBytes(h)) == h
  {
    var b := RequestHeaderBytes(h);
    assert b[0..2] == Be16(h.magic) && b[2..4] == Be16(h.version);
    assert b[4..6] == Be16(h.serviceId) && b[6..8] == Be16(h.opcode);
    var front := Be16(h.magic) + Be16(h.version) + Be16(h.serviceId) + Be16(h.opcode);
    assert b == front + h.rev1 + h.rev2 && |front| == 8;
    assert b[8..12] == h.rev1;
    assert b[12..] == h.rev2;
    assert b[12..16] == b[12..];
    Be16Inverse(h.magic, b[0..2]);
    Be16Inverse(h.version, b[0..2]);
    Be16Inverse(h.serviceId, b[0..2]);
    Be16Inverse(h.opcode, b[0..2]);
  }

  lemma FieldsOnto(b: Bytes)
    requires |b| == REQUEST_HEADER_SIZE
    ensures RequestHeaderBytes(ParseFields(b)) == b
  {
    Be16Inverse(0, b[0..2]);
    Be16Inverse(0, b[2..4]);
    Be16Inverse(0, b[4..6]);
    Be16Inverse(0, b[6..8]);
    assert b == b[0..2] + b[2..4] + b[4..6] + b[6..8] + b[8..12] + b[12..16];
  }

  function RequestStr(m: RequestMessage): Bytes {
    RequestHeaderBytes(m.header) + m.payload
  }

  function ResponseStr(m: ResponseMessage): Bytes {
    ResponseHeaderBytes(m.header) + m.payload
  }

  /** `RpcRequestMessageParse` */
  function RequestParse(str: Bytes): Option<RequestMessage> {
    if |str| < REQUEST_HEADER_SIZE then None
    else Some(RequestMessage(ParseFields(str[..REQUEST_HEADER_SIZE]), str[REQUEST_HEADER_SIZE..]))
  }

  /** `RpcResponseMessageParse` */
  function ResponseParse(str: Bytes): Option<ResponseMessage> {
    if |str| < RESPONSE_HEADER_SIZE then None
    else Some(ResponseMessage(ParseResponseHeader(str[..RESPONSE_HEADER_SIZE]), str[RESPONSE_HEADER_SIZE..]))
  }

  /** Parsing a request inverts writing it, and accepts nothing else. */
  lemma RequestRoundTrip(m: RequestMessage, str: Bytes)
    ensures RequestParse(str) == Some(m) <==> str == RequestStr(m)
  {
    hide RequestHeaderBytes, ParseFields;
    if str == RequestStr(m) {
      assert str[..REQUEST_HEADER_SIZE] == RequestHeaderBytes(m.header);
      FieldsRoundTrip(m.header);
    }
    if RequestParse(str) == Some(m) {
      FieldsOnto(str[..REQUEST_HEADER_SIZE]);
      assert str == str[..REQUEST_HEADER_SIZE] + str[REQUEST_HEADER_SIZE..];
    }
  }

  lemma ResponseHeaderRoundTrip(h: ResponseHeader, b: Bytes)
    requires |b| == RESPONSE_HEADER_SIZE
    ensures ParseResponseHeader(ResponseHeaderBytes(h)) == h
    ensures ResponseHeaderBytes(ParseResponseHeader(b)) == b
  {
    hide FieldBytes, ParseFields;
    var f := RequestHeader(h.magic, h.version, h.serviceId, h.opcode, h.rev1, h.rev2);
    assert ResponseHeaderBytes(h)[1..] == RequestHeaderBytes(f);
    FieldsRoundTrip(f);
    FieldsOnto(b[1..]);
    assert b == [b[0]] + b[1..];
  }

  lemma ResponseRoundTrip(m: ResponseMessage, str: Bytes)
    ensures ResponseParse(str) == Some(m) <==> str == ResponseStr(m)
  {
    hide ResponseHeaderBytes, ParseResponseHeader;
    if str == ResponseStr(m) {
      assert str[..RESPONSE_HEADER_SIZE] == ResponseHeaderBytes(m.header);
      ResponseHeaderRoundTrip(m.header, str[..RESPONSE_HEADER_SIZE]);
    }
    if ResponseParse(str) == Some(m) {
      ResponseHeaderRoundTrip(m.header, str[..RESPONSE_HEADER_SIZE]);
      assert str == str[..RESPONSE_HEADER_SIZE] + str[RESPONSE_HEADER_SIZE..];
    }
  }

  /** The requests a server takes on: right magic and version, and something behind the header. */
  function ValidRequest(str: Bytes): Option<RequestMessage> {
    match RequestParse(str)
    case None => None
    case Some(m) =>
      if m.header.magic == RPC_MAGIC && m.header.version == RPC_VERSION && m.payload != [] then Some(m) else None
  }

  /** The byte strings taken on are exactly the images of requests with the right magic and
      version and a non-empty payload. */
  lemma ValidRequestIff(str: Bytes, m: RequestMessage)
    ensures ValidRequest(str) == Some(m) <==>
              && str == RequestStr(m)
              && m.header.magic == RPC_MAGIC && m.header.version == RPC_VERSION && m.payload != []
  {
    hide RequestStr, RequestParse;
    RequestRoundTrip(m, str);
  }

  /** Whether the frame around `str` passes a receiver's limit and its length fits the field. */
  predicate Fits(limit: u32, str: Bytes) {
    |str| < TWO_TO_32 && (limit == 0 || |str| <= limit)
  }

  lemma FrameFits(limit: u32, str: Bytes)
    ensures WellFormed(limit, NewMessage(str)) <==> Fits(limit, str)
  {
  }

  /** From call to service: a request built for any id and opcode and any non-empty payload that
      fits, framed, cut into any legal completions and decoded, validates as that very request. */
  lemma RequestEndToEnd(limit: u32, role: Role, serviceId: u16, opcode: u16, payload: Bytes, es: seq<R.Event>)
    requires payload != [] && Fits(limit, RequestStr(NewRequest(serviceId, opcode, payload)))
    requires R.ErrorFree(es) && R.LegalRun(limit, role, R.Start(limit), es)
    requires R.Received(es) == NetStr(NewMessage(RequestStr(NewRequest(serviceId, opcode, payload))))
    ensures var r := R.Run(limit, role, R.Start(limit), es);
            && |r.delivered| == 1
            && ValidRequest(r.delivered[0].payload) == Some(NewRequest(serviceId, opcode, payload))
  {
    hide NetStr, RequestStr, RequestParse, Split, R.Run, R.LegalRun, R.Received;
    var req := NewRequest(serviceId, opcode, payload);
    OneFrameEndToEnd(limit, role, RequestStr(req), es);
    RequestRoundTrip(req, RequestStr(req));
  }

  /** From service to call: the same for every response, an empty payload included. */
  lemma ResponseEndToEnd(limit: u32, role: Role, m: ResponseMessage, es: seq<R.Event>)
    requires Fits(limit, ResponseStr(m))
    requires R.ErrorFree(es) && R.LegalRun(limit, role, R.Start(limit), es)
    requires R.Received(es) == NetStr(NewMessage(ResponseStr(m)))
    ensures var r := R.Run(limit, role, R.Start(limit), es);
            |r.delivered| == 1 && ResponseParse(r.delivered[0].payload) == Some(m)
  {
    hide NetStr, ResponseStr, ResponseParse, Split, R.Run, R.LegalRun, R.Received;
    OneFrameEndToEnd(limit, role, ResponseStr(m), es);
    ResponseRoundTrip(m, ResponseStr(m));
  }

  lemma OneFrameEndToEnd(limit: u32, role: Role, str: Bytes, es: seq<R.Event>)
    requires Fits(limit, str)
    requires R.ErrorFree(es) && R.LegalRun(limit, role, R.Start(limit), es)
    requires R.Received(es) == NetStr(NewMessage(str))
    ensures R.Run(limit, role, R.Start(limit), es).delivered == [NewMessage(str)]
  {
    hide NetStr, R.Run, R.LegalRun, R.Received, Split;
    var ms := [NewMessage(str)];
    FrameFits(limit, str);
    SplitEncode(limit, ms);
    assert EncodeAll(ms) == NetStr(ms[0]) + EncodeAll([]) == NetStr(ms[0]);
    R.ChunkingIndependence(limit, role, es);
    assert [] + ms == ms;
  }
}
