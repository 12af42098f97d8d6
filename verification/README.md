# tzrpc: the framed transport and the RPC session

tzrpc carries RPC requests and responses in frames: a 16-byte big-endian header and `length`
bytes behind it. The same protocol is implemented three times, as server callbacks, as client
callbacks and as blocking client loops. This project models these implementations as classes,
proves each against a small machine or a direct postcondition, and proves what the machines do
over all runs.

| file | content |
|---|---|
| `Bytes.dfy`, `Framing.dfy` | big-endian words, headers, frames; `Split`, the reference meaning of a byte stream, and `IsSplit`, its definition without an algorithm |
| `NetConn.dfy`, `Buffer.dfy`, `TakenOff.dfy` | connection status and error codes; the byte queue; facts about what was taken off it |
| `Receiver.dfy`, `Sender.dfy` | the asynchronous decoder and the chunked writer as machines, with their runs |
| `FineReader.dfy` | the decoder in its separate steps, with other threads in between |
| `Narrowed.dfy` | the decoder with the 32-bit lengths the program sees, and exactly when it is the machine of `Receiver.dfy` |
| `ServerConn.dfy`, `ClientConn.dfy` | the two asynchronous connections, handler by handler, proved against these machines |
| `Socket.dfy`, `SyncConn.dfy`, `ReceiveLoop.dfy`, `Agreement.dfy` | the blocking connection, the socket it works on, its calls one after another, and the agreement of the three decoders |
| `Pipeline.dfy` | workers, writer, wire and decoder together, in fine steps |
| `RpcCodec.dfy`, `RpcInstance.dfy`, `XtraTask.dfy`, `Dispatch.dfy`, `Requests.dfy` | RPC headers; one request, the service, dispatcher, queue and worker loop; every run of them |
| `WireFormat.dfy` | which byte of a frame, a request or a response says what, stated without the codec |
| `Composition.dfy`, `RequestOrder.dfy` | dispatcher, queues and workers together with the connection that carries their responses; when these keep the order of the requests |
| `Session.dfy`, `Served.dfy` | the blocking `call_RPC`, which has one request at a time under way, and the dispatched service as its server |
| `AsyncClient.dfy`, `AsyncSession.dfy` | the asynchronous `call_RPC`, and what its handler is told in a session with the server of `Composition.dfy` |

## How the environment appears

An asynchronous operation in progress is a field (`readOp`, `writeOps`); its completion is a call
of the handler. A read completion with `transfer_at_least(k)` into the 2048-byte block brings k to
2048 bytes, cut in any way. A block being written leaves bit by bit, and a write can fail, or the
peer can answer, when any part of it has left. The blocking socket follows a script of successes and failures, each
of which may come together with the call timer closing the connection. The peer of a blocking
socket is any function from the bytes sent so far to the bytes sent back that only grows.

## Where the code differs from what it promises

- `get_length` narrows a 64-bit size to 32 bits (source/Core/Buffer.h:130-132). For a body of
  length L the length test decides rightly for every legal completion exactly when
  L <= 2^32 - 2048 (`Receiver.LengthTestExact`). The asynchronous classes are proved against
  `Narrowed`, which has the narrowed lengths. It takes the step of `Receiver` exactly when the
  completion leaves the buffer below 2^32 bytes (`Narrowed.CompletionAgreesIff`), and does so in
  every run exactly for receive limits from 1 to 2^32 - 2048 (`Narrowed.SafeLimits`); without a
  limit, or with a higher one, there is a run in which a complete body is not delivered. The
  blocking decoder returns the right messages all the same, but its number of reads is only known
  where the length cannot wrap around (`SyncConn.TcpConnSync.AwaitBody`).
- A request whose frame takes 2^32 bytes or more is not sent whole: what leaves is a well-formed
  frame around a first part of its bytes, or less than a header (`Session.OversizedIsCut`). If the
  RPC header is in that part, the server reads a request with the same ids and a shorter payload
  (`Session.OversizedIsAnotherRequest`).
- `do_write` tests `send_status_` outside the lock and not again under it. Two workers can both
  pass the test; a frame that is being sent is then overwritten (`Pipeline.RaceOverwritesBlock`).
  One write at a time holds exactly for the runs in which the locked part is entered at kDone
  (`Pipeline.OneWriteIff`), and it holds in particular when test and locked part are one step
  (`Pipeline.AtomicIsClean`). The absence of lost wakeups does not depend on this.
- A rejection carries service id 0 and opcode 0. The blocking client compares ids before it looks
  at the status, so the rejection's status reaches only a caller of service 0, opcode 0, while the
  asynchronous handler always sees it (`AsyncClient.RejectSeen`).
- A connection that has left kWorking can still deliver one message. Timers and writers run beside
  the read handler, so the close can fall between its tests and what follows them. It still
  delivers in some run exactly if, at the close, a body is being read or the handler is past the
  tests of `do_read_msg`, and one block can hold what the body lacks
  (`FineReader.LateDeliveryIff`); it still starts a read exactly if the handler is past the tests of
  `do_read` or `do_read_msg` with too few bytes (`FineReader.LateReadIff`). More than one of either
  never happens (`FineReader.ShutdownSafety`). `Receiver.LateDelivery` is a run with a read in
  progress at the close, `FineReader.LateDispatch` one with none.
- A thread already past the tests of `do_write` starts a write after the close if bytes are visible
  (`Pipeline.LateWriteReached`). No further write starts in any run exactly if no thread is past the
  tests with bytes to write or with another worker that may append some
  (`Pipeline.ClosedStartsNothingIff`); where nothing is appended any more, exactly if no thread is
  past the tests or no byte is visible (`Pipeline.ClosedStartsNothingIffVisible`). At most one write
  starts for each thread past the tests (`Pipeline.LateWritesBound`).
- Responses need not come in the order of the requests, as source/Client/include/RpcClient.h:37-38
  warns. The order is kept exactly in the runs in which every reply and every rejection is for the
  oldest request of the connection that has had none (`RequestOrder.RequestOrderIff`). Two workers
  break it (`RequestOrder.WorkersOvertake`), and one worker is not enough, because a rejection at
  dispatch overtakes what is queued (`RequestOrder.RejectionOvertakes`).
- A send buffer of exactly a multiple of 2^32 bytes looks empty and stays behind with every thread
  done. All that was appended has then been delivered if and only if the buffer is in fact empty
  (`Pipeline.AllDelivered`, `Composition.EveryRequestAnswered`).
- The call timer is not cancelled when a call ends, only when the next timed call arms it again
  (source/Client/RpcClientImpl.cpp:76-93), and `rpc_call_timeout` does not test `conn_sync_`. After
  a timed call that failed, the timer therefore fires on a released connection and dereferences a
  null pointer; `Session.RpcClientImpl.RpcCallTimeout` reports that as a fault, and `Session.TimerFault` is a
  run of it.

## Model

| member | source | states |
|---|---|---|
| Framing.HeaderRoundTrip | source/Core/Message.h:23-52 | reading a header from its network bytes gives it back; which bytes these are is said by `WireFormat.HeaderAt` |
| Framing.HeaderOnto | source/Core/Message.h:23-52 | any 16 bytes are the network form of the header read from them, reserved words untouched |
| WireFormat.HeaderAt | source/Core/Message.h:40-52 | magic, version and length go out most significant byte first at bytes 0, 2 and 4, the reserved words unchanged at 8 and 12 |
| WireFormat.AcceptedBytes | source/Network/TcpConnAsync.cpp:62-94 | a receiver takes on exactly the headers that begin with the bytes 74 6b 00 01 and whose length is within the limit |
| WireFormat.MessageBytes | source/Core/Message.h:66-88 | the frame of a message: 74 6b 00 01, its length modulo 2^32, eight zeros, its bytes |
| Framing.SplitSound | source/Network/TcpConnAsync.cpp:62-284 | the reference split accounts for every byte of the stream, contains only acceptable frames, and stops only where a header is short, a body is short or a header is refused |
| Framing.SplitUnique | source/Network/TcpConnAsync.cpp:62-284 | that description has one solution for every stream, so the reference is not one choice among several |
| Framing.SplitEncode | source/Core/Message.h:81-87 | decoding the concatenated network forms of any acceptable messages returns exactly these messages with nothing left |
| Framing.SplitExtend | source/Network/TcpConnAsync.cpp:97-137 | splitting can be interrupted after any byte and continued from what was left over |
| Buffers.Buffer.Append | source/Core/Buffer.h:57-66 | the frame is added behind what is there, header first |
| Buffers.Buffer.Consume | source/Core/Buffer.h:68-87 | min(sz, length) bytes leave the front in order; the result tells whether any could |
| Buffers.Buffer.ConsumeRaw | source/Core/Buffer.h:91-109 | exactly sz bytes move to the front of the block, whose rest is untouched; sz must not exceed what is there |
| Buffers.Buffer.FrontErase | source/Core/Buffer.h:111-120 | the first min(sz, length) bytes are gone |
| NetConn.ErrorsStop | source/Network/TcpConnAsync.cpp:380-409 | after any sequence of errors, on either side: the connection runs exactly if it ran and all were aborted operations; any other error has closed it (on the server with its operations cancelled), and an abort closes only a server's connection that had been cancelled |
| Receiver.ChunkingIndependence | source/Network/TcpConnAsync.cpp:62-284 | for every stream and every legal cutting into completions the whole receiver state is that of the reference split of the bytes received |
| Receiver.PartOfStream | source/Network/TcpConnAsync.cpp:62-284 | what has been delivered is a first part of the frames of the stream, all frames before the first refused header once one is refused |
| Receiver.OneReadInProgress | source/Network/TcpConnAsync.cpp:97-137 | between completions an error-free connection works if and only if a read of 1 to 2048 bytes is in progress |
| Receiver.WorksIff | source/Network/TcpConnAsync.cpp:139-284 | over every run, errors, timers and closes included: the connection works if and only if nothing stopped it and no header it received was refused; it then is in the state of the bytes received, with a read in progress unless one was aborted |
| Receiver.HeaderTakesOneRead | source/Network/TcpConnAsync.cpp:111-122 | a header phase needs exactly one completion, after which the header has been taken off |
| Receiver.BodyReadCount | source/Network/TcpConnAsync.cpp:209-219 | a body of length L entered with b buffered bytes takes exactly ceil((L-b)/2048) completions: none delivered before, the message then |
| Receiver.BufferBound | source/Network/TcpConnAsync.cpp:97-284 | in every reachable state: at most 15 bytes under a header read, fewer than L under a body read, at most 2063 or L+2047 after an append, and at most 2047 after each header and each body taken off, in every round of the recursion |
| Receiver.LengthTestExact | source/Core/Buffer.h:130-132 | the truncated length decides rightly for every legal completion if and only if L <= 2^32 - 2048 |
| Receiver.NeverTruncated | source/Network/TcpConnAsync.cpp:86-91 | a receive limit of at most 2^32 - 2048 keeps every buffer below 2^32 bytes in every run |
| Narrowed.CompletionAgreesIff | source/Core/Buffer.h:130-132 | a completion is handled as with true lengths if and only if it leaves fewer than 2^32 bytes in the buffer |
| Narrowed.SafeLimits | source/Network/TcpConnAsync.cpp:86-91 | every run with the narrowed lengths is the run with the true ones if and only if the receive limit is set and at most 2^32 - 2048 |
| Receiver.ReachableTracks | source/Network/TcpConnAsync.cpp:97-284 | in every run, errors and shutdown included, the delivered messages are a first part of the stream's, a read in progress knows its exact split, and cancelled implies not working |
| Receiver.ShutdownSafety | source/Network/TcpConnAsync.cpp:248-284 | the close falling between two handlers, over every run: never working again, no read started, at most one completion; one further message, the stream's next, exactly if that completion ends a body |
| FineReader.HandlerIsOneStep | source/Network/TcpConnAsync.cpp:97-284 | the separate steps of a handler that nothing interrupts are one step of the receiver machine, for every event |
| FineReader.EveryRunDeliversPrefix | source/Network/TcpConnAsync.cpp:97-284 | whatever other threads do between the steps of the handler, what is delivered is a first part of the stream's messages |
| FineReader.ShutdownSafety | source/Network/TcpConnAsync.cpp:97-284 | from any point of the read handler on, over every run after kWorking was left: never working again, at most one further read and at most one further message, the stream's next, each only if the state at that moment allows it |
| FineReader.LateDeliveryIff | source/Network/TcpConnAsync.cpp:195-284 | some run still delivers if and only if a body is being read or the handler is past the tests of do_read_msg, and the body lacks at most 2048 bytes |
| FineReader.LateReadIff | source/Network/TcpConnAsync.cpp:97-219 | some run still starts a read if and only if the handler is past the tests of do_read or do_read_msg with too few bytes |
| FineReader.LateDispatch | source/Network/TcpConnAsync.cpp:197-229 | a run in which the timer closes the connection behind those tests, no read is in progress, and the message is dispatched |
| Receiver.LateDelivery | source/Network/TcpConnAsync.cpp:248-284 | any message of 1 to 2048 bytes is delivered by a closed connection in a run that closes it between header and body |
| Sender.SendKeepsExclusive | source/Network/TcpConnAsync.cpp:286-354 | sending, with an atomic do_write: nothing changes over the limit; else no byte is lost or reordered, a block in use is left alone, a write is started at once on an idle working connection, and visible bytes stay only behind a write in progress |
| Pipeline.SendIsSteps | source/Network/TcpConnAsync.cpp:286-354 | append, status test and locked part without interruption are one send of the connection's sender |
| Pipeline.CompletedIsSteps | source/Network/TcpConnAsync.cpp:357-374 | the same for the completion handler |
| Sender.WriteDoneKeepsExclusive | source/Network/TcpConnAsync.cpp:357-374 | a completed write hands over exactly the oldest bytes, and the next chunk follows if there is one |
| ServerConn.TcpConnAsync.Start | source/Network/TcpConnAsync.cpp:49-53 | a started connection is working and waits for 16 header bytes |
| ServerConn.TcpConnAsync.ParseHeader | source/Network/TcpConnAsync.cpp:62-94 | 1 without effect below 16 bytes; otherwise the header is taken off and the result is 0 exactly if magic, version and limit are right |
| ServerConn.TcpConnAsync.ParseMsgBody | source/Network/TcpConnAsync.cpp:175-193 | the body is taken off whole or not at all; a negative result does not occur |
| ServerConn.TcpConnAsync.DoRead | source/Network/TcpConnAsync.cpp:97-137 | the recursion is that of the machine with the narrowed lengths, for buffers of any size; it terminates on (buffer length, phase) and its repeat branch is dead; no read is started while one is in progress |
| ServerConn.TcpConnAsync.DoReadMsg | source/Network/TcpConnAsync.cpp:195-245 | the same from the body phase, zero-length bodies included |
| ServerConn.TcpConnAsync.ReadHandler | source/Network/TcpConnAsync.cpp:139-173 | one header completion or failure is one step of the machine with the narrowed lengths, and of the receiver machine if it leaves fewer than 2^32 bytes |
| ServerConn.TcpConnAsync.ReadMsgHandler | source/Network/TcpConnAsync.cpp:248-284 | the same for one body completion or failure |
| ServerConn.TcpConnAsync.AsyncSendMessage | source/Network/TcpConnAsync.cpp:286-303 | over the limit nothing changes and -1 is returned; otherwise the frame is appended whole and a write tried |
| ServerConn.TcpConnAsync.DoWrite | source/Network/TcpConnAsync.cpp:306-354 | the new sender state, including block and status, is the machine's |
| ServerConn.TcpConnAsync.WriteHandler | source/Network/TcpConnAsync.cpp:357-374 | a completion frees the status and continues; a failure is the machine's shutdown step on both sides |
| ServerConn.TcpConnAsync.HandleSocketErrorCode | source/Network/TcpConnAsync.cpp:380-409 | status and cancelled flag after every error code |
| ServerConn.TcpConnAsync.OpsCancelTimeoutCall | source/Network/TcpConnAsync.cpp:446-457 | a fired timer cancels and closes, a cancelled one changes nothing |
| ClientConn.TcpConnAsync.RecvNetMessage | source/Client/TcpConnAsync.h:67-69 | the first read waits for 16 header bytes |
| ClientConn.TcpConnAsync.DoRead | source/Client/TcpConnAsync.cpp:145-180 | as on the server, against the same machine |
| ClientConn.TcpConnAsync.DoReadMsg | source/Client/TcpConnAsync.cpp:235-284 | as on the server |
| ClientConn.TcpConnAsync.ReadHandler | source/Client/TcpConnAsync.cpp:182-213 | one header completion or failure is one step of the machine |
| ClientConn.TcpConnAsync.ReadMsgHandler | source/Client/TcpConnAsync.cpp:287-325 | one body completion or failure is one step of the machines; the callback, if there is one, gets every message |
| ClientConn.TcpConnAsync.SendNetMessage | source/Client/TcpConnAsync.h:47-62 | over the limit nothing changes; otherwise the frame is appended whole and a write tried; when the result is true |
| ClientConn.TcpConnAsync.DoWrite | source/Client/TcpConnAsync.cpp:51-87 | the machine's step, where an empty buffer leaves the status as it is |
| ClientConn.TcpConnAsync.WriteHandler | source/Client/TcpConnAsync.cpp:90-105 | completion or failure is the machine's step |
| SyncConn.TcpConnSync.DoRead | source/Client/TcpConnSync.cpp:96-129 | the message returned is the first frame of residue plus bytes read and the rest is kept; undisturbed it fails only on a refused header, which closes the connection |
| SyncConn.TcpConnSync.AwaitHeader | source/Client/TcpConnSync.cpp:103-120 | one read if fewer than 16 bytes are buffered, none otherwise |
| SyncConn.TcpConnSync.AwaitBody | source/Client/TcpConnSync.cpp:138-155 | all body bytes are read, for any lengths; where the 32-bit length cannot wrap around, in exactly ceil((L-b)/2048) reads |
| SyncConn.TcpConnSync.DoReadMsg | source/Client/TcpConnSync.cpp:131-165 | the body and nothing else is taken off, with that number of reads and at most 2047 bytes left over |
| SyncConn.TcpConnSync.DoWrite | source/Client/TcpConnSync.cpp:167-197 | all bytes the 32-bit length shows go out in order, in the write lengths of Chunks; on failure a proper first part of these writes was made and a first part of the bytes has gone out |
| SyncConn.ChunksExact | source/Client/TcpConnSync.cpp:175-194 | these are ceil(n/2048) lengths, all but the last 2048, with sum n |
| SyncConn.TcpConnSync.SendNetMessage | source/Client/TcpConnSync.h:45-54 | over the limit nothing changes; success puts exactly the bytes that the 32-bit length shows onto the wire and keeps the rest; failure only by limit, status or a disturbed operation |
| Agreement.CallsSplit | source/Client/TcpConnSync.cpp:96-165 | any number of blocking calls, residue carried over, peel the reference split of the stream from the front |
| ReceiveLoop.ReceiveAll | source/Client/TcpConnSync.cpp:96-165 | receiving until a call fails returns a first part of the messages of the stream; undisturbed, all messages before its first refused header, with the connection closed at that header and every byte accounted for |
| Agreement.DecodersAgree | source/Client/TcpConnSync.cpp:41-165 | three decoders that have consumed parts of one stream, of different lengths and cut up differently: each has delivered a first part of its messages, and each that refused a header has delivered all messages before the stream's first bad one and refused that one |
| Pipeline.NoLostWakeup | source/Network/TcpConnAsync.cpp:286-374 | in separate steps and for any number of workers: kSend implies a completion still to come, and with every thread out of do_write and no write in progress nothing visible is left in the buffer |
| Pipeline.ClosedStartsNothing | source/Network/TcpConnAsync.cpp:317-325 | after a close, with no thread already past the tests, no run starts a write or touches the block |
| Pipeline.ClosedStartsNothingIff | source/Network/TcpConnAsync.cpp:306-354 | a closed connection starts no write in any run if and only if no thread is past the tests with bytes to write or another worker that may append some |
| Pipeline.ClosedStartsNothingIffVisible | source/Network/TcpConnAsync.cpp:306-354 | the same over runs that append nothing: if and only if no thread is past the tests or get_length shows nothing |
| Pipeline.LateWriteReached | source/Network/TcpConnAsync.cpp:310-340 | a legal run in which a closed connection starts a write |
| Pipeline.LateWritesBound | source/Network/TcpConnAsync.cpp:306-354 | in every run after a close, at most one write starts for each thread that was past the tests |
| Pipeline.OneWriteIff | source/Network/TcpConnAsync.cpp:306-354 | a run without write errors keeps one write at most, told by the status, if and only if the locked part is always entered at kDone (on the client also with an empty buffer) |
| Pipeline.AtomicIsClean | source/Core/Buffer.h:99-106 | runs in which test and locked part follow each other directly satisfy that condition |
| Pipeline.RaceOverwritesBlock | source/Network/TcpConnAsync.cpp:310-340 | a legal run of two workers in which the bytes emitted are not the bytes appended |
| Pipeline.FifoRefinement | source/Network/TcpConnAsync.cpp:97-374 | at every moment, blocks sent in part included, delivered frames, pending bytes, wire, rest of the block and buffer together are the frames appended; delivered is a first part of accepted; nothing is refused; a drained sender never leaves the decoder stuck |
| Pipeline.AllDelivered | source/Network/TcpConnAsync.cpp:286-374 | when every thread is done and the wire is empty, get_length of the buffer is zero, and every message appended has been delivered if and only if the buffer is empty |
| Pipeline.FramesNeverMix | source/Network/TcpConnAsync.cpp:295-300 | closes and write errors included, in the middle of a block as well: the bytes emitted decode to a first part of the log, whole frames only, the decoder has delivered a first part of that, and every worker's own order is kept |
| RpcCodec.RequestRoundTrip | source/RPC/RpcRequestMessage.h:89-111 | parsing yields m if and only if the bytes are those written for m; which bytes is said by `WireFormat.RequestBytes` |
| WireFormat.RequestBytes | source/RPC/RpcRequestMessage.h:51-111 | a request goes out as 74 72 00 01, service id and opcode most significant byte first, eight zeros, the payload |
| WireFormat.ValidRequestBytes | source/RPC/RpcInstance.cpp:14-46 | a server takes on exactly the strings of more than 16 bytes that begin with 74 72 00 01, and reads ids and payload from there |
| RpcCodec.ResponseRoundTrip | source/RPC/RpcResponseMessage.h:119-141 | the same for the 17-byte response header |
| WireFormat.ReplyBytes | source/RPC/RpcResponseMessage.h:47-141 | a reply goes out as 00 74 72 00 01, the ids, eight zeros, the payload |
| WireFormat.RejectBytes | source/RPC/RpcInstance.cpp:64-77 | a rejection goes out as its status, 74 72 00 01 and twelve zeros |
| RpcCodec.ValidRequestIff | source/RPC/RpcInstance.cpp:14-46 | the byte strings taken on are exactly those written for a request with right magic and version and non-empty payload |
| RpcCodec.RequestEndToEnd | source/RPC/RpcInstance.cpp:14-46 | any id, opcode and non-empty payload that fits survives building, framing, any chunking, decoding and validation |
| RpcCodec.ResponseEndToEnd | source/RPC/RpcResponseMessage.h:91-141 | the same for every response, empty payloads included |
| RpcInstances.RpcInstance.ValidateRequest | source/RPC/RpcInstance.cpp:14-46 | draining the buffer step by step accepts what the pure parser accepts with right magic, version and a non-empty rest, gives the same header and payload, and leaves the buffer empty |
| RpcInstances.RpcInstance.ReplyRpcMessage | source/RPC/RpcInstance.cpp:49-62 | one response with the request's ids goes behind everything sent before on the connection, if that still exists |
| RpcInstances.RpcInstance.Reject | source/RPC/RpcInstance.cpp:64-77 | the same for a rejection |
| RpcInstances.RpcInstance.SentIsOneFrame | source/RPC/RpcInstance.cpp:49-77 | a response given to a connection is one frame behind everything sent before, on its way at once on an idle working connection, or dropped over the limit |
| XtraTask.ReadAnswerRight | source/Protocol/ServiceImpl/XtraTaskService.cpp:190-226 | what each read request is answered with: code 0, OK and the same part, for an echo its own message behind "echo:"; -1 and no part for what cannot be read; nothing exactly without a known part |
| XtraTask.AnswerRight | source/Protocol/ServiceImpl/XtraTaskService.cpp:156-247 | rejected exactly for an opcode other than 1 and 2 or a read without a known part; otherwise replied to with the request's ids and the marshalled answer or the fixed text |
| XtraTask.XtraTaskService.HandleRPC | source/Protocol/ServiceImpl/XtraTaskService.cpp:156-175 | every request gets exactly one answer, the one its opcode and payload determine |
| XtraTask.XtraTaskService.ReadOpsImpl | source/Protocol/ServiceImpl/XtraTaskService.cpp:178-232 | one reply or one rejection on each path; the second opcode test never fires |
| XtraTask.XtraTaskService.WriteOpsImpl | source/Protocol/ServiceImpl/XtraTaskService.cpp:234-247 | one fixed reply |
| Dispatch.Dispatcher.RegisterService | source/RPC/Dispatcher.cpp:51-67 | nothing after init or a failed executor; otherwise exactly this id gets a new executor with an empty queue |
| Dispatch.Dispatcher.HandleRPC | source/RPC/Dispatcher.cpp:70-90 | either one rejection at once and no queue touched, or no answer yet and the request, still fit to be answered, at the end of its own service's queue only |
| Dispatch.Executor.HandleRPC | source/RPC/Executor.h:38-40 | the request is at the end of the queue |
| Dispatch.Executor.ServiceRound | source/RPC/Executor.cpp:88-113 | a round takes the oldest request and answers it once, or changes nothing |
| Requests.RequestConservation | source/RPC/Dispatcher.cpp:70-90 | in every run with any number of workers: delivered = rejected + queued + in execution + answered, no request has two calls, and each response follows from the request's own bytes |
| Requests.OldestFirst | source/RPC/Executor.cpp:88-113 | in every run a worker serves the same service, and no request of a service waits that is older than one already taken |
| Requests.WorkersNeverBlocked | source/RPC/Executor.cpp:92-113 | in every reachable state a busy worker can finish and an idle one can take what is queued for it |
| Composition.EveryRequestAnswered | source/RPC/RpcInstance.cpp:49-77 | in every run of dispatcher, queues, workers and one of the connections, write errors included: the client has decoded responses to different requests of this connection, each determined by its own request's bytes; when all is done there is exactly one for each if and only if the send buffer is empty |
| Composition.AnswerNeverBlocked | source/RPC/Executor.cpp:92-113 | in every reachable state of that system a worker that executes a request can answer it |
| Composition.PostIsSend | source/RPC/RpcInstance.cpp:49-77 | a call in that system is, once the thread has run through do_write, the send of the response's frame, and nothing over the limit |
| RequestOrder.RequestOrderIff | source/Client/include/RpcClient.h:37-38 | at the end of a run the calls of reply and reject are those for the oldest requests in request order if and only if each was made for the oldest request without one |
| RequestOrder.WorkersOvertake | source/RPC/Executor.cpp:88-113 | a legal run of two workers that ends with the two responses, which differ, in the reverse order |
| RequestOrder.RejectionOvertakes | source/RPC/Dispatcher.cpp:70-90 | a legal run of one worker in which a rejection overtakes a queued request |
| Session.RpcClientImpl.CallRPC | source/Client/RpcClientImpl.cpp:113-199 | for every request whose frame stays below 2^32 bytes: OK returns the service's reply to this very call; a kept connection is empty both ways and its result is the view of the server's response; a failure is a connect error exactly if no connection was made, a send error exactly if not all of the frame's writes were made, and else a receive error, the whole frame having gone out; undisturbed and within limits the connection is kept |
| Session.RpcClientImpl.RpcCallTimeout | source/Client/RpcClientImpl.cpp:96-111 | the timer closes the connection and keeps that invariant, or faults, exactly if there is no connection |
| Session.CallThenTimer | source/Client/RpcClientImpl.cpp:76-160 | the timer that fires after a call faults exactly if that call has released the connection |
| Session.TimerFault | source/Client/RpcClientImpl.cpp:76-160 | one call over the send limit and the timer after it do fault |
| Session.OversizedIsCut | source/Client/TcpConnSync.cpp:167-197 | an empty connection sends a whole frame if and only if it is below 2^32 bytes; else a frame around a first part of its bytes, or less than a header |
| Session.OversizedIsAnotherRequest | source/Client/RpcClientImpl.cpp:113-160 | the request sent then has the same ids and a shorter payload |
| Session.OneMoreRequest | source/RPC/RpcInstance.cpp:49-62 | after complete requests, one more frame adds exactly its own reply to the server's output, or nothing if its header is refused |
| Session.OkIsOwnReply | source/Client/RpcClientImpl.cpp:175-198 | the caller sees OK if and only if its payload is non-empty and the service replied, and then that reply |
| WireFormat.CallerTold | source/Client/RpcClientImpl.cpp:175-198 | what a blocking caller is told about any bytes received: a format error below 17 bytes, without 74 72 at byte 1 or with other ids; else the status byte; OK and the rest if that is 0 |
| Served.ResponseIsDispatched | source/RPC/Dispatcher.cpp:70-90 | the server of the session results can be the dispatcher with the registered service: its response is the immediate rejection or the service's answer to the validated request |
| Served.AnswerReadsIds | source/RPC/RpcInstance.cpp:49-77 | a response is a rejection or repeats the request's ids, and depends on ids and payload only |
| AsyncClient.RpcClientImpl.CallRPC | source/Client/RpcClientImpl.cpp:254-313 | without a connection one is made first; on OK the request is one frame behind all earlier ones and the receiving side is as before; exactly when the status is OK, and when the connection is discarded |
| AsyncClient.RpcClientImpl.Connect | source/Client/RpcClientImpl.cpp:260-286 | a new connection is already reading and has nothing to send |
| AsyncClient.RpcClientImpl.AsyncRecvWrapper | source/Client/RpcClientImpl.cpp:208-252 | one handler call per message, with its report |
| WireFormat.HandlerTold | source/Client/RpcClientImpl.cpp:208-252 | the report about any bytes received: a format error below 17 bytes or without 74 72 at byte 1; else the status byte; OK, ids and the rest if that is 0 |
| WireFormat.HandlerToldOkIff | source/Client/RpcClientImpl.cpp:208-252 | the handler is told OK exactly about the written form of a response with the right magic and status 0, and then with its ids and payload |
| AsyncClient.RpcClientImpl.ReadCompleted | source/Client/TcpConnAsync.cpp:287-325 | after every completion the handler has been called exactly once for each message of the connection, in order |
| AsyncClient.SessionReports | source/Client/RpcClientImpl.cpp:208-252 | over every run, whatever responses the server sends and in whatever order: the reports are their views in the order sent, as far as received and up to the first one over the limit; an error-free run that received everything has reported exactly these |
| AsyncSession.HandlerReports | source/Client/RpcClientImpl.cpp:208-313 | against dispatcher, queues and workers: the handler is told about different requests of the connection, of each what its bytes determine, in the order the server answered; in request order if that was kept; about each exactly once when all is answered and received |
| AsyncSession.AllCallsReported | source/Client/RpcClientImpl.cpp:208-313 | when all is done the reports, as a multiset, are those the calls should get: OK with ids and reply, or the status of the rejection; they are in call order if the server kept it |
| AsyncClient.RejectSeen | source/Client/RpcClientImpl.cpp:182-240 | a rejection's status always reaches the handler, and a blocking caller exactly for service 0, opcode 0 |
| AsyncClient.HandlerSeesReply | source/Client/RpcClientImpl.cpp:208-252 | the handler sees OK if and only if the service replied to a non-empty request, and then with its ids and payload |

## Left out

- Sockets, asio, strands and thread pools: they appear as completions, scripts and interleavings.
- Operation and call timers: a close can happen at any step; arming, rearming and the `was_timeout_` flag, hence the status RPC_CALL_TIMEOUT, are not modelled.
- Connection admission, configuration loading and runtime reload, thread-count adjustment, status pages, logging and `dump()`.
- The protobuf library: two uninterpreted functions in `XtraTask.Protobuf`; the sleep of the timeout request takes no time.
- `roo::EQueue` is not part of this model: a sequence with push at the end and pop at the front stands for it.
- RpcCodec.RequestEndToEnd: asks for a frame below 2^32 bytes, because the length field has 32 bits.
- Session.RpcClientImpl.CallRPC: says nothing about the connection after a request whose frame takes 2^32 bytes or more; what is sent then is said by `Session.OversizedIsCut`.
- Served.ResponseIsDispatched: asks for answers of the protobuf library below 2^32 - 17 bytes, because the length field has 32 bits.
- Pipeline.FifoRefinement: assumes that no write fails, because a failed write loses the bytes of its block; what remains true then is `Pipeline.FramesNeverMix`.
- Composition.EveryRequestAnswered: assumes that the locked part is entered at kDone, and that both limits admit the responses, because a response over the send limit is dropped and one over the client's limit closes the connection. The results of `RequestOrder` and `AsyncSession` assume the same.
- Pipeline.RaceOverwritesBlock: two writes in progress are taken to leave one after the other.
- FineReader.ShutdownSafety: has the true buffer lengths; for limits outside `Narrowed.SafeLimits` the narrowed ones are only followed handler by handler. The tests of `conn_stat_` and `was_cancelled` are one step, which loses nothing because the flag is never taken back.
- AsyncClient.SessionReports: is about one connection; completions that a discarded connection still reports are not followed.
- In `RpcInstance` the int that holds the message size is modelled with its 32-bit truncation; other counters are unbounded.
