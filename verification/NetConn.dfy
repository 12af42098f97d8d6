/** What server and client connections share: status values, error codes and how an
    error code ends a connection. */
module NetConn {
  const IO_BLOCK_SIZE: nat := 2048

  datatype Role = Server | Client

  datatype ConnStat = Working | Pending | Error | Closed

  datatype SendStatus = Sending | Done

  datatype ErrorCode = Success | Reset | TimedOut | BadDescriptor | Eof | Aborted | OtherError

  /** The life of a connection: its status and whether its operations were cancelled. */
  datatype Life = Life(stat: ConnStat, cancelled: bool)

  const ALIVE: Life := Life(Working, false)

  predicate CanRun(l: Life) {
    l.stat.Working? && !l.cancelled
  }

  /** `sock_shutdown_and_close`: a closed connection stays as it is, any other becomes closed. */
  function ShutdownAndClose(l: Life): Life {
    l.(stat := Closed)
  }

  function OpsCancel(l: Life): Life {
    l.(stat := Error, cancelled := true)
  }

  /** Every error but an aborted operation closes the socket. */
  predicate ClosesSocket(ec: ErrorCode) {
    !ec.Success? && !ec.Aborted?
  }

  function HandleSocketEc(role: Role, l: Life, ec: ErrorCode): Life {
    match role
    case Server => if ClosesSocket(ec) || l.cancelled then ShutdownAndClose(OpsCancel(l)) else l
    case Client => if ClosesSocket(ec) then ShutdownAndClose(l) else l
  }

  /** A cancelled connection does not work; `cancel_ops` sets both. */
  predicate Consistent(l: Life) {
    l.cancelled ==> !l.stat.Working?
  }

  /** Errors reported one after another, by reads and writes in any order. */
  function AfterErrors(role: Role, l: Life, ecs: seq<ErrorCode>): Life
    decreases |ecs|
  {
    if ecs == [] then l else AfterErrors(role, HandleSocketEc(role, l, ecs[0]), ecs[1..])
  }

  /** Whatever errors are reported: the connection still runs exactly if it ran before and all of
      them were aborted operations; after one that was not, it is closed, on the server with its
      operations cancelled; aborted operations alone only touch a server's connection that had
      been cancelled, and close it. */
  lemma {:induction false} ErrorsStop(role: Role, l: Life, ecs: seq<ErrorCode>)
    requires Consistent(l) && Success !in ecs
    ensures var l' := AfterErrors(role, l, ecs);
            && Consistent(l')
            && (CanRun(l') <==> CanRun(l) && forall ec | ec in ecs :: ec.Aborted?)
            && (if (exists ec | ec in ecs :: ClosesSocket(ec)) || (ecs != [] && role.Server? && l.cancelled) then
                  l' == Life(Closed, role.Server? || l.cancelled)
                else
                  l' == l)
    decreases |ecs|
  {
    if ecs != [] {
      assert ecs == [ecs[0]] + ecs[1..];
      ErrorsStop(role, HandleSocketEc(role, l, ecs[0]), ecs[1..]);
    }
  }
}
