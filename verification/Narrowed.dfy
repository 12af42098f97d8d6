/** The asynchronous decoder with the lengths the program sees. `get_length` narrows to 32 bits, so
    the handlers follow this machine; it is the machine of `Receiver` as long as no completion
    brings the buffer to 2^32 bytes, and no longer. */
module Narrowed {
  import opened Bytes
  import opened Framing
  import opened NetConn
  import opened R = Receiver

  /** `get_length`. */
  function Seen(b: Bytes): u32 {
    Truncate32(|b|)
  }

  lemma SeenBound(b: Bytes)
    ensures Seen(b) <= |b| && (Seen(b) == |b| <==> |b| < TWO_TO_32)
  {
  }

  function DoRead(limit: u32, r: Receiver): Receiver
    decreases |r.buffer|, 1
  {
    SeenBound(r.buffer);
    if !CanRun(r.life) then r
    else if Seen(r.buffer) < HEADER_SIZE then r.(op := HeaderRead(HEADER_SIZE - Seen(r.buffer)))
    else TakeHeader(limit, r)
  }

  /** What follows once a header is in the buffer. */
  function TakeHeader(limit: u32, r: Receiver): Receiver
    requires |r.buffer| >= HEADER_SIZE
    decreases |r.buffer|, 0
  {
    var h, rest := ParseHeader(r.buffer[..HEADER_SIZE]), r.buffer[HEADER_SIZE..];
    if Acceptable(limit, h) then DoReadMsg(limit, r.(buffer := rest), h)
    else r.(op := Idle, buffer := rest, life := ShutdownAndClose(r.life))
  }

  function DoReadMsg(limit: u32, r: Receiver, h: Header): Receiver
    decreases |r.buffer|, 2
  {
    SeenBound(r.buffer);
    if !CanRun(r.life) then r
    else if Seen(r.buffer) < h.length then r.(op := BodyRead(h, BodyWanted(h, Seen(r.buffer))))
    else DoRead(limit, TakeBody(r, h))
  }

  function TakeBody(r: Receiver, h: Header): (r': Receiver)
    requires |r.buffer| >= h.length
    ensures |r'.buffer| == |r.buffer| - h.length
  {
    r.(buffer := r.buffer[h.length..], delivered := r.delivered + [Message(h, r.buffer[..h.length])])
  }

  function OnHeader(limit: u32, r: Receiver, chunk: Bytes): Receiver
    requires r.op.HeaderRead?
  {
    var r' := r.(op := Idle, buffer := r.buffer + chunk);
    SeenBound(r'.buffer);
    if Seen(r'.buffer) < HEADER_SIZE then DoRead(limit, r') else TakeHeader(limit, r')
  }

  function OnBody(limit: u32, r: Receiver, chunk: Bytes): Receiver
    requires r.op.BodyRead?
  {
    var h, r' := r.op.header, r.(op := Idle, buffer := r.buffer + chunk);
    SeenBound(r'.buffer);
    if Seen(r'.buffer) < h.length then DoReadMsg(limit, r', h) else DoRead(limit, TakeBody(r', h))
  }

  function Step(limit: u32, role: Role, r: Receiver, e: Event): Receiver
    requires Enabled(r, e)
  {
    match e
    case Completed(chunk) => if r.op.HeaderRead? then OnHeader(limit, r, chunk) else OnBody(limit, r, chunk)
    case _ => R.Step(limit, role, r, e)
  }

  /** The read in progress asks for what the narrowed length shows as missing. */
  predicate Waiting(limit: u32, r: Receiver) {
    match r.op
    case Idle => true
    case HeaderRead(k) => Seen(r.buffer) + k == HEADER_SIZE && k > 0
    case BodyRead(h, k) =>
      Acceptable(limit, h) && Seen(r.buffer) < h.length && k == BodyWanted(h, Seen(r.buffer))
  }

  predicate LegalRun(limit: u32, role: Role, r: Receiver, es: seq<Event>)
    decreases |es|
  {
    es == [] || (Enabled(r, es[0]) && LegalRun(limit, role, Step(limit, role, r, es[0]), es[1..]))
  }

  function Run(limit: u32, role: Role, r: Receiver, es: seq<Event>): Receiver
    requires LegalRun(limit, role, r, es)
    decreases |es|
  {
    if es == [] then r else Run(limit, role, Step(limit, role, r, es[0]), es[1..])
  }

  lemma {:induction false} DoReadExtends(limit: u32, r: Receiver)
    ensures r.delivered <= DoRead(limit, r).delivered
    decreases |r.buffer|, 1
  {
    SeenBound(r.buffer);
    if CanRun(r.life) && Seen(r.buffer) >= HEADER_SIZE {
      TakeHeaderExtends(limit, r);
    }
  }

  lemma {:induction false} TakeHeaderExtends(limit: u32, r: Receiver)
    requires |r.buffer| >= HEADER_SIZE
    ensures r.delivered <= TakeHeader(limit, r).delivered
    decreases |r.buffer|, 0
  {
    var h, rest := ParseHeader(r.buffer[..HEADER_SIZE]), r.buffer[HEADER_SIZE..];
    if Acceptable(limit, h) {
      DoReadMsgExtends(limit, r.(buffer := rest), h);
    }
  }

  lemma {:induction false} DoReadMsgExtends(limit: u32, r: Receiver, h: Header)
    ensures r.delivered <= DoReadMsg(limit, r, h).delivered
    decreases |r.buffer|, 2
  {
    SeenBound(r.buffer);
    if CanRun(r.life) && Seen(r.buffer) >= h.length {
      DoReadExtends(limit, TakeBody(r, h));
    }
  }

  /** A message delivered stays delivered. */
  lemma StepExtends(limit: u32, role: Role, r: Receiver, e: Event)
    requires Enabled(r, e)
    ensures r.delivered <= Step(limit, role, r, e).delivered
  {
    hide HeaderBytes, ParseHeader;
    if e.Completed? {
      var r' := r.(op := Idle, buffer := r.buffer + e.chunk);
      SeenBound(r'.buffer);
      if r.op.HeaderRead? {
        if Seen(r'.buffer) < HEADER_SIZE {
          DoReadExtends(limit, r');
        } else {
          TakeHeaderExtends(limit, r');
        }
      } else if Seen(r'.buffer) < r.op.header.length {
        DoReadMsgExtends(limit, r', r.op.header);
      } else {
        DoReadExtends(limit, TakeBody(r', r.op.header));
      }
    }
  }

  // ---------------------------------------------------------------------
  // When the two machines agree
  // ---------------------------------------------------------------------

  lemma {:induction false} DoReadAgrees(limit: u32, r: Receiver)
    requires |r.buffer| < TWO_TO_32
    ensures DoRead(limit, r) == R.DoRead(limit, r)
    decreases |r.buffer|, 0
  {
    hide HeaderBytes, ParseHeader, R.DoRead, R.DoReadMsg, Truncate32;
    SeenBound(r.buffer);
    if CanRun(r.life) {
      DoReadUnfold(limit, r);
      if |r.buffer| >= HEADER_SIZE {
        var h, rest := ParseHeader(r.buffer[..HEADER_SIZE]), r.buffer[HEADER_SIZE..];
        if Acceptable(limit, h) {
          DoReadMsgAgrees(limit, r.(buffer := rest), h);
        }
      }
    } else {
      Stopped(limit, r, Header(0, 0, 0, ZERO_WORD, ZERO_WORD));
    }
  }

  lemma {:induction false} DoReadMsgAgrees(limit: u32, r: Receiver, h: Header)
    requires |r.buffer| < TWO_TO_32 && Acceptable(limit, h)
    ensures DoReadMsg(limit, r, h) == R.DoReadMsg(limit, r, h)
    decreases |r.buffer|, 1
  {
    hide HeaderBytes, ParseHeader, R.DoRead, R.DoReadMsg, Truncate32;
    SeenBound(r.buffer);
    if CanRun(r.life) {
      DoReadMsgUnfold(limit, r, h);
      if |r.buffer| >= h.length {
        DoReadAgrees(limit, TakeBody(r, h));
      }
    } else {
      Stopped(limit, r, h);
    }
  }

  lemma Stopped(limit: u32, r: Receiver, h: Header)
    requires !CanRun(r.life)
    ensures R.DoRead(limit, r) == r && R.DoReadMsg(limit, r, h) == r
  {
  }

  /** A completion is handled as in `Receiver` if and only if the bytes it brings leave the buffer
      below 2^32 bytes: always for a header, and for a body unless its length exceeds 2^32 - 2048. */
  lemma CompletionAgreesIff(limit: u32, r: Receiver, chunk: Bytes)
    requires LegalChunk(r, chunk) && Waiting(limit, r)
    requires |r.buffer| < (if r.op.BodyRead? then r.op.header.length else HEADER_SIZE)
    ensures (if r.op.HeaderRead? then OnHeader(limit, r, chunk) else OnBody(limit, r, chunk))
            == OnChunk(limit, r, chunk)
       <==> |r.buffer| + |chunk| < TWO_TO_32
  {
    hide HeaderBytes, ParseHeader, Split;
    var b := r.buffer + chunk;
    SeenBound(b);
    if |b| < TWO_TO_32 {
      var r' := r.(op := Idle, buffer := b);
      if r.op.HeaderRead? {
        if |b| >= HEADER_SIZE {
          var h := ParseHeader(b[..HEADER_SIZE]);
          if Acceptable(limit, h) {
            DoReadMsgAgrees(limit, r'.(buffer := b[HEADER_SIZE..]), h);
          }
        } else {
          DoReadAgrees(limit, r');
        }
      } else if |b| < r.op.header.length {
        DoReadMsgAgrees(limit, r', r.op.header);
      } else {
        DoReadAgrees(limit, TakeBody(r', r.op.header));
      }
    } else {
      Deceived(limit, r, chunk);
    }
  }

  /** Beyond that the body is complete, but the program asks for more. */
  lemma Deceived(limit: u32, r: Receiver, chunk: Bytes)
    requires r.op.BodyRead? && LegalChunk(r, chunk)
    requires |r.buffer| < r.op.header.length && |r.buffer| + |chunk| >= TWO_TO_32
    ensures OnBody(limit, r, chunk).delivered == r.delivered
    ensures r.delivered < OnChunk(limit, r, chunk).delivered
  {
    hide HeaderBytes, ParseHeader, Split;
    var b := r.buffer + chunk;
    assert Seen(b) == |b| - TWO_TO_32;
  }

  /** In a state of the machine of `Receiver` the narrowed length is the true one. */
  lemma TrackedWaits(limit: u32, r: Receiver, received: Bytes)
    requires Tracks(limit, r, received)
    ensures Waiting(limit, r)
    ensures r.op.HeaderRead? ==> |r.buffer| < HEADER_SIZE
    ensures r.op.BodyRead? ==> |r.buffer| < r.op.header.length
  {
    hide Split;
  }

  predicate StaysShort(r: Receiver, e: Event) {
    e.Completed? ==> |r.buffer| + |e.chunk| < TWO_TO_32
  }

  /** No completion of the run brings the buffer to 2^32 bytes. */
  predicate AllFit(limit: u32, role: Role, r: Receiver, es: seq<Event>)
    requires R.LegalRun(limit, role, r, es)
    decreases |es|
  {
    es == [] || (StaysShort(r, es[0]) && AllFit(limit, role, R.Step(limit, role, r, es[0]), es[1..]))
  }

  lemma StepAgrees(limit: u32, role: Role, r: Receiver, e: Event)
    requires Waiting(limit, r) && Enabled(r, e)
    ensures StaysShort(r, e) ==> Step(limit, role, r, e) == R.Step(limit, role, r, e)
  {
    hide Split, OnHeader, OnBody, R.OnHeader, R.OnBody;
    if StaysShort(r, e) && e.Completed? {
      CompletionAgreesIff(limit, r, e.chunk);
    }
  }

  lemma {:induction false} RunAgrees(limit: u32, role: Role, r: Receiver, received: Bytes, es: seq<Event>)
    requires Tracks(limit, r, received) && R.LegalRun(limit, role, r, es) && AllFit(limit, role, r, es)
    ensures LegalRun(limit, role, r, es) && Run(limit, role, r, es) == R.Run(limit, role, r, es)
    decreases |es|
  {
    hide Step, R.Step, Tracks;
    if es != [] {
      TrackedWaits(limit, r, received);
      StepAgrees(limit, role, r, es[0]);
      StepTracks(limit, role, r, received, es[0]);
      RunAgrees(limit, role, R.Step(limit, role, r, es[0]), received + Arrived(es[0]), es[1..]);
    }
  }

  /** A limit of at most 2^32 - 2048 keeps every buffer below 2^32 bytes. */
  lemma {:induction false} LimitFits(limit: u32, role: Role, r: Receiver, received: Bytes, es: seq<Event>)
    requires 0 < limit <= TWO_TO_32 - IO_BLOCK_SIZE
    requires Tracks(limit, r, received) && R.LegalRun(limit, role, r, es)
    ensures AllFit(limit, role, r, es)
    decreases |es|
  {
    hide R.Step, Tracks;
    if es != [] {
      TrackedWaits(limit, r, received);
      StepTracks(limit, role, r, received, es[0]);
      LimitFits(limit, role, R.Step(limit, role, r, es[0]), received + Arrived(es[0]), es[1..]);
    }
  }

  // ---------------------------------------------------------------------
  // Exactly which limits are safe
  // ---------------------------------------------------------------------

  /** A full block of body bytes when more than a block is missing. */
  lemma FullBlock(limit: u32, role: Role, r: Receiver, e: Event)
    requires InBody(limit, r) && e == Completed(seq(IO_BLOCK_SIZE, _ => 0))
    requires |r.buffer| + IO_BLOCK_SIZE < r.op.header.length
    ensures Enabled(r, e) && Step(limit, role, r, e) == R.Step(limit, role, r, e)
    ensures var r' := R.Step(limit, role, r, e);
            InBody(limit, r') && r'.op.header == r.op.header && |r'.buffer| == |r.buffer| + IO_BLOCK_SIZE
  {
    hide HeaderBytes, ParseHeader, OnBody, R.OnBody;
    var missing := r.op.header.length - |r.buffer|;
    assert LegalChunk(r, e.chunk);
    BodyStep(limit, r, e.chunk);
    assert ReadsLeft(r) > 1 by {
      assert (missing + IO_BLOCK_SIZE - 1) / IO_BLOCK_SIZE
          == (missing - IO_BLOCK_SIZE + IO_BLOCK_SIZE - 1) / IO_BLOCK_SIZE + 1;
    }
    SeenBound(r.buffer);
    CompletionAgreesIff(limit, r, e.chunk);
  }

  /** The body that takes `k` full blocks and one byte, and whose last byte comes with a full block. */
  lemma {:induction false} DeceivingRun(limit: u32, role: Role, r: Receiver, k: nat) returns (es: seq<Event>)
    requires InBody(limit, r) && r.op.header.length > TWO_TO_32 - IO_BLOCK_SIZE
    requires |r.buffer| + IO_BLOCK_SIZE * k + 1 == r.op.header.length
    ensures R.LegalRun(limit, role, r, es)
    ensures !(LegalRun(limit, role, r, es) && Run(limit, role, r, es) == R.Run(limit, role, r, es))
    decreases k
  {
    hide Step, R.Step, HeaderBytes, ParseHeader;
    var e := Completed(seq(IO_BLOCK_SIZE, _ => 0));
    if k == 0 {
      es := [e];
      LastBlock(limit, role, r, e);
      RunOne(limit, role, r, e);
      assert es[1..] == [];
    } else {
      FullBlock(limit, role, r, e);
      var r' := R.Step(limit, role, r, e);
      var more := DeceivingRun(limit, role, r', k - 1);
      RunFront(limit, role, r, e, more);
      es := [e] + more;
      assert es[1..] == more;
    }
  }

  lemma LastBlock(limit: u32, role: Role, r: Receiver, e: Event)
    requires InBody(limit, r) && e == Completed(seq(IO_BLOCK_SIZE, _ => 0))
    requires |r.buffer| + 1 == r.op.header.length > TWO_TO_32 - IO_BLOCK_SIZE
    ensures Enabled(r, e) && Step(limit, role, r, e) != R.Step(limit, role, r, e)
  {
    hide HeaderBytes, ParseHeader, OnBody, R.OnBody;
    Deceived(limit, r, e.chunk);
  }

  /** The program decodes as the machine of `Receiver` does, in every run of a connection, if and
      only if its receive limit is set and at most 2^32 - 2048. */
  lemma SafeLimits(limit: u32, role: Role)
    ensures (forall es | R.LegalRun(limit, role, Start(limit), es) ::
               LegalRun(limit, role, Start(limit), es)
               && Run(limit, role, Start(limit), es) == R.Run(limit, role, Start(limit), es))
       <==> 0 < limit <= TWO_TO_32 - IO_BLOCK_SIZE
  {
    hide Step, R.Step, HeaderBytes, ParseHeader, Split;
    var r0 := Start(limit);
    if 0 < limit <= TWO_TO_32 - IO_BLOCK_SIZE {
      StartTracks(limit);
      forall es | R.LegalRun(limit, role, r0, es)
        ensures LegalRun(limit, role, r0, es) && Run(limit, role, r0, es) == R.Run(limit, role, r0, es)
      {
        LimitFits(limit, role, r0, [], es);
        RunAgrees(limit, role, r0, [], es);
      }
    } else {
      var es := UnsafeRun(limit, role);
    }
  }

  lemma StartTracks(limit: u32)
    ensures Tracks(limit, Start(limit), [])
  {
  }

  lemma UnsafeRun(limit: u32, role: Role) returns (es: seq<Event>)
    requires limit == 0 || limit > TWO_TO_32 - IO_BLOCK_SIZE
    ensures R.LegalRun(limit, role, Start(limit), es)
    ensures !(LegalRun(limit, role, Start(limit), es)
              && Run(limit, role, Start(limit), es) == R.Run(limit, role, Start(limit), es))
  {
    hide HeaderBytes, ParseHeader, Split, OnHeader, R.OnHeader;
    var length: u32 := TWO_TO_32 - IO_BLOCK_SIZE + 1;
    var h := Header(HEADER_MAGIC, HEADER_VERSION, length, ZERO_WORD, ZERO_WORD);
    var r0, e := Start(limit), Completed(HeaderBytes(h));
    var r1 := HeaderArrives(limit, role, h);
    assert InBody(limit, r1);
    StartTracks(limit);
    TrackedWaits(limit, r0, []);
    StepAgrees(limit, role, r0, e);
    var more := DeceivingRun(limit, role, r1, 0x1F_FFFF);
    hide Step, R.Step;
    RunFront(limit, role, r0, e, more);
    es := [e] + more;
    assert es[1..] == more;
  }
}
