/** The blocking socket the synchronous client works on, as an environment: the peer is any
    function of the bytes sent so far, and a script says how each operation turns out. */
module Sockets {
  import opened Bytes
  import opened NetConn

  /** How one operation ends: it succeeds, with up to `extra` bytes more than asked for, or it
      breaks after `count` bytes. `thenClosed` says that the call timer closed the connection
      while the operation was going on. */
  datatype Turn = Goes(extra: nat, thenClosed: bool) | Breaks(ec: ErrorCode, count: nat, thenClosed: bool)

  /** What a peer has sent never shrinks as more bytes reach it. */
  ghost predicate Monotone(peer: Bytes -> Bytes) {
    forall a: Bytes, b: Bytes :: peer(a) <= peer(a + b)
  }

  /** Copy bytes to the front of a block. */
  method Fill(block: array<u8>, bytes: Bytes)
    requires |bytes| <= block.Length
    modifies block
    ensures block[..|bytes|] == bytes
  {
    forall i | 0 <= i < |bytes| {
      block[i] := bytes[i];
    }
  }

  lemma FrontTaken(all: Bytes, from: nat, n: nat)
    requires from + n <= |all|
    ensures all[from..] == all[from..][..n] + all[from + n..]
  {
  }

  /** How a read turns out when `available` bytes are there, and how many it brings. */
  function ReadResult(turn: Turn, atLeast: nat, available: nat): (r: (ErrorCode, nat))
    ensures r.1 <= Min(IO_BLOCK_SIZE, available)
    ensures r.0.Success? && atLeast <= IO_BLOCK_SIZE ==> atLeast <= r.1
  {
    match turn
    case Goes(extra, _) =>
      if atLeast <= available then (Success, Min(atLeast + extra, Min(IO_BLOCK_SIZE, available))) else (Eof, 0)
    case Breaks(ec, count, _) =>
      (if ec.Success? then Eof else ec, Min(count, Min(IO_BLOCK_SIZE, available)))
  }

  class Socket {
    const peer: Bytes -> Bytes
    var outgoing: Bytes
    var consumed: nat
    var script: seq<Turn>

    /** Successful reads, and the lengths of the successful writes. */
    var readCount: nat
    var writeLengths: seq<nat>
    /** Some operation failed, or the connection was closed during one. */
    var disturbed: bool
    /** How the last failed operation ended. */
    var lastError: ErrorCode

    ghost predicate Valid()
      reads this
    {
      Monotone(peer) && consumed <= |peer(outgoing)|
    }

    /** The bytes sent by the peer and not yet read. */
    function Incoming(): Bytes
      requires consumed <= |peer(outgoing)|
      reads this
    {
      peer(outgoing)[consumed..]
    }

    constructor (peer: Bytes -> Bytes, script: seq<Turn>)
      requires Monotone(peer) && peer([]) == []
      ensures Valid() && this.peer == peer && outgoing == [] && Incoming() == []
      ensures readCount == 0 && writeLengths == [] && !disturbed
    {
      this.peer, this.script := peer, script;
      outgoing, consumed, readCount, writeLengths := [], 0, 0, [];
      disturbed, lastError := false, Success;
    }

    /** `boost::asio::read` with `transfer_at_least` into the fixed block. */
    method Read(block: array<u8>, atLeast: nat) returns (ec: ErrorCode, n: nat, closed: bool)
      requires Valid() && 0 < atLeast <= block.Length == IO_BLOCK_SIZE
      modifies this`consumed, this`script, this`readCount, this`disturbed, this`lastError, block
      ensures Valid() && n <= IO_BLOCK_SIZE
      ensures ec.Success? ==> atLeast <= n && old(Incoming()) == block[..n] + Incoming()
      ensures readCount == old(readCount) + (if ec.Success? then 1 else 0)
      ensures disturbed <==> old(disturbed) || !ec.Success? || closed
      ensures lastError == if ec.Success? then old(lastError) else ec
    {
      hide ReadResult, Monotone;
      var turn := if script == [] then Breaks(Eof, 0, false) else script[0];
      script := if script == [] then [] else script[1..];
      var available := Incoming();
      closed := turn.thenClosed;
      var result := ReadResult(turn, atLeast, |available|);
      ec, n := result.0, result.1;
      FrontTaken(peer(outgoing), consumed, n);
      Fill(block, available[..n]);
      consumed := consumed + n;
      readCount := readCount + if ec.Success? then 1 else 0;
      disturbed := disturbed || !ec.Success? || closed;
      lastError := if ec.Success? then lastError else ec;
    }

    /** `boost::asio::write` with `transfer_exactly`. */
    method Write(block: array<u8>, n: nat) returns (ec: ErrorCode, closed: bool)
      requires Valid() && n <= block.Length
      modifies this`outgoing, this`script, this`writeLengths, this`disturbed, this`lastError
      ensures Valid()
      ensures ec.Success? ==> outgoing == old(outgoing) + block[..n] && writeLengths == old(writeLengths) + [n]
      ensures !ec.Success? ==>
                old(outgoing) <= outgoing <= old(outgoing) + block[..n] && writeLengths == old(writeLengths)
      ensures disturbed <==> old(disturbed) || !ec.Success? || closed
      ensures lastError == if ec.Success? then old(lastError) else ec
    {
      var turn := if script == [] then Breaks(Eof, 0, false) else script[0];
      script := if script == [] then [] else script[1..];
      closed := turn.thenClosed;
      var sent := n;
      if turn.Goes? {
        ec := Success;
        writeLengths := writeLengths + [n];
      } else {
        ec := if turn.ec.Success? then Eof else turn.ec;
        sent := Min(turn.count, n);
      }
      assert peer(outgoing) <= peer(outgoing + block[..sent]);
      outgoing := outgoing + block[..sent];
      disturbed := disturbed || !ec.Success? || closed;
      lastError := if ec.Success? then lastError else ec;
    }
  }
}
