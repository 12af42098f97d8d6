/** The chunked writer as a machine: whole frames are appended to a buffer and leave it through
    one fixed block, at most 2048 bytes at a time. */
module Sender {
  import opened Bytes
  import opened Framing
  import opened NetConn

  /** `writes` holds the lengths of the writes started and not yet completed, oldest first;
      they all send from the one `block`. */
  datatype Sender = Sender(role: Role, life: Life, buffer: Bytes, block: Bytes,
                           status: SendStatus, writes: seq<nat>)

  /** The sending side of a new connection. */
  function New(role: Role): Sender {
    Sender(role, ALIVE, [], seq(IO_BLOCK_SIZE, _ => 0), Done, [])
  }

  predicate ValidBlock(s: Sender) {
    |s.block| == IO_BLOCK_SIZE && forall i | 0 <= i < |s.writes| :: 0 < s.writes[i] <= IO_BLOCK_SIZE
  }

  function ToWrite(buffered: nat): nat {
    Min(Truncate32(buffered), IO_BLOCK_SIZE)
  }

  function Append(s: Sender, m: Message): Sender {
    s.(buffer := s.buffer + NetStr(m))
  }

  /** The part of `do_write` under the lock. It does not look at the status again. */
  function LockedPart(s: Sender): (s': Sender)
    requires ValidBlock(s)
    ensures ValidBlock(s')
  {
    var n := ToWrite(|s.buffer|);
    if n == 0 then
      if s.role.Server? then s.(status := Done) else s
    else
      s.(buffer := s.buffer[n..], block := s.buffer[..n] + s.block[n..],
         status := Sending, writes := s.writes + [n])
  }

  function DoWrite(s: Sender): (s': Sender)
    requires ValidBlock(s)
    ensures ValidBlock(s')
  {
    if s.status.Done? && CanRun(s.life) then LockedPart(s) else s
  }

  /** `async_send_message`: a frame over the limit is refused, any other appended and tried. */
  function Send(s: Sender, limit: u32, m: Message): (s': Sender)
    requires ValidBlock(s)
    ensures ValidBlock(s')
  {
    if limit != 0 && m.header.length > limit then s else DoWrite(Append(s, m))
  }

  /** The oldest write has completed; these bytes have gone out. */
  function Emitted(s: Sender): Bytes
    requires ValidBlock(s) && s.writes != []
  {
    s.block[..s.writes[0]]
  }

  function WriteDone(s: Sender): (s': Sender)
    requires ValidBlock(s) && s.writes != []
    ensures ValidBlock(s')
  {
    DoWrite(s.(status := Done, writes := s.writes[1..]))
  }

  function WriteFailed(s: Sender, ec: ErrorCode): Sender
    requires s.writes != []
  {
    s.(writes := s.writes[1..], life := HandleSocketEc(s.role, s.life, ec))
  }

  /** One write at most, and the status says whether there is one. */
  predicate Exclusive(s: Sender) {
    ValidBlock(s) && (if s.status.Done? then s.writes == [] else |s.writes| == 1)
  }

  /** The bytes taken off the buffer whose write is not completed. */
  function InFlight(s: Sender): Bytes
    requires Exclusive(s)
  {
    if s.writes == [] then [] else s.block[..s.writes[0]]
  }

  /** Sending a frame. Over the limit nothing changes. Otherwise no byte is lost or reordered, there
      is one write at most, and a block that a write sends from is left alone. On a working
      connection without a write, one of at most 2048 bytes is started at once; bytes that
      `get_length` can see never stay behind without a write that will come back for them. */
  lemma SendKeepsExclusive(s: Sender, limit: u32, m: Message)
    requires Exclusive(s)
    ensures limit != 0 && m.header.length > limit ==> Send(s, limit, m) == s
    ensures limit == 0 || m.header.length <= limit ==>
              var s', visible := Send(s, limit, m), (|s.buffer| + |NetStr(m)|) % TWO_TO_32;
              && Exclusive(s') && s'.life == s.life && s'.role == s.role
              && InFlight(s') + s'.buffer == (InFlight(s) + s.buffer) + NetStr(m)
              && (s.writes != [] || !CanRun(s.life) ==> s'.writes == s.writes && s'.block == s.block)
              && (s.writes == [] && CanRun(s.life) && visible != 0 ==> s'.writes == [Min(visible, 2048)])
              && (CanRun(s.life) && Truncate32(|s'.buffer|) != 0 ==> s'.writes != [])
  {
    hide NetStr;
    Assoc(InFlight(s), s.buffer, NetStr(m));
    DoWriteKeepsExclusive(Append(s, m));
  }

  lemma DoWriteKeepsExclusive(s: Sender)
    requires Exclusive(s)
    ensures var s' := DoWrite(s);
            && Exclusive(s')
            && InFlight(s') + s'.buffer == InFlight(s) + s.buffer
            && s'.life == s.life && s'.role == s.role
            && (s.writes != [] || !CanRun(s.life) ==> s' == s)
            && (s.writes == [] && CanRun(s.life) && ToWrite(|s.buffer|) != 0 ==> s'.writes == [ToWrite(|s.buffer|)])
            && (CanRun(s.life) && Truncate32(|s'.buffer|) != 0 ==> s'.writes != [])
  {
    var n := ToWrite(|s.buffer|);
    if s.status.Done? && CanRun(s.life) && n != 0 {
      var b := s.buffer;
      assert (b[..n] + s.block[n..])[..n] == b[..n];
      assert b[..n] + b[n..] == b;
      assert [] + b == b;
    }
  }

  /** A completed write hands over exactly the oldest bytes and starts the next chunk. */
  lemma WriteDoneKeepsExclusive(s: Sender)
    requires Exclusive(s) && s.writes != []
    ensures var s' := WriteDone(s);
            && Exclusive(s')
            && Emitted(s) + (InFlight(s') + s'.buffer) == InFlight(s) + s.buffer
            && (CanRun(s.life) && Truncate32(|s'.buffer|) != 0 ==> s'.writes != [])
  {
    var s1 := s.(status := Done, writes := s.writes[1..]);
    DoWriteKeepsExclusive(s1);
    assert InFlight(s1) + s1.buffer == s.buffer;
  }
}
