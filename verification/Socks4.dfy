// The SOCKS4 handshake (SOCKS4.hpp) as the values it works on and the handlers that change them.
//
// A run is a sequence of events on one io thread: handlers run one at a time, the network and the
// clock decide when and how operations are answered. The class in Socks4Handshake.dfy performs
// these steps in place; Socks4Runs.dfy proves what holds of every run.

module Socks4 {
  import opened Wrappers
  import opened Net
  import opened Asio

  const REQUEST_LENGTH := 14
  const REPLY_LENGTH := 8

  // "Moose"; the request carries it with a terminating zero.
  const USER_ID: seq<Byte> := [77, 111, 111, 115, 101]

  datatype State = Start | HandleResolve | HandleRequestWrite | HandleReadResponse

  // An operation in progress, with the number of bytes already transferred.
  datatype Pending = Resolving | Writing(written: nat) | Reading(received: nat)

  // A handler of the handshake that is queued on the io context.
  datatype Handler = Resolved(error: Error, addresses: seq<Address>) | Transferred(error: Error)

  datatype World = World(
    state: State,
    port: Word,
    request: seq<Byte>,
    reply: seq<Byte>,
    buffersHeld: bool,
    socketOpen: bool,
    timer: Timer,
    pending: seq<Pending>,
    ready: seq<Handler>,
    completions: seq<Error>,
    wire: seq<Byte>)

  datatype Event =
    | Initiate                                                     // the initiating call
    | ResolveAnswered(error: Error, addresses: seq<Address>)       // the resolver has an answer
    | Wrote(count: nat)                                            // the socket took some more bytes
    | Arrived(bytes: seq<Byte>)                                    // a fragment of the reply arrived
    | TransferFailed(error: Error)                                 // the write or the read failed
    | TimerExpires                                                 // the deadline passed
    | TimerRuns(error: Error)                                      // the timer callback runs
    | HandlerRuns(handler: Handler)                                // a handler of the handshake runs
    | OwnerCloses                                                  // the socket's owner closes it

  ghost predicate Initial(w: World, port: Word) {
    && w.state == Start && w.port == port
    && |w.request| == REQUEST_LENGTH && |w.reply| == REPLY_LENGTH && w.buffersHeld
    && w.socketOpen && w.timer == Idle
    && w.pending == [] && w.ready == [] && w.completions == [] && w.wire == []
  }

  // ---------- wire format ----------

  function FirstV4(addresses: seq<Address>): Option<Octets> {
    if addresses == [] then None
    else if addresses[0].V4? then Some(addresses[0].octets)
    else FirstV4(addresses[1..])
  }

  function Encode(port: Word, target: Octets): (request: seq<Byte>)
    ensures |request| == REQUEST_LENGTH
  {
    [4, 1, port / 0x100, port % 0x100] + target + USER_ID + [0]
  }

  // The request as a SOCKS4 server reads it: "SOCKS: A protocol for TCP proxy across firewalls",
  // section 1, CONNECT.
  datatype Connect = Connect(port: Word, target: Octets, user: seq<Byte>)

  function UpToNul(s: seq<Byte>): Option<(seq<Byte>, seq<Byte>)> {
    if s == [] then None
    else if s[0] == 0 then Some(([], s[1..]))
    else match UpToNul(s[1..])
      case None => None
      case Some((user, rest)) => Some(([s[0]] + user, rest))
  }

  function ReadConnect(stream: seq<Byte>): Option<(Connect, seq<Byte>)> {
    if |stream| < 8 || stream[0] != 4 || stream[1] != 1 then None
    else match UpToNul(stream[8..])
      case None => None
      case Some((user, rest)) =>
        var port := (stream[2] as int) * 0x100 + stream[3];
        Some((Connect(port, stream[4..8], user), rest))
  }

  lemma {:induction false} UpToNulStops(s: seq<Byte>, rest: seq<Byte>)
    requires 0 !in s
    ensures UpToNul(s + [0] + rest) == Some((s, rest))
  {
    var t := s + [0] + rest;
    if s == [] {
      assert t[1..] == rest;
    } else {
      assert t[1..] == s[1..] + [0] + rest;
      UpToNulStops(s[1..], rest);
      assert [s[0]] + s[1..] == s;
    }
  }

  // Whatever follows it on the stream, the request is read back as a CONNECT for the target port
  // and address with user id "Moose", and nothing of what follows is taken with it.
  lemma EncodeIsConnect(port: Word, target: Octets, rest: seq<Byte>)
    ensures ReadConnect(Encode(port, target) + rest) == Some((Connect(port, target, USER_ID), rest))
  {
    var stream := Encode(port, target) + rest;
    assert stream[8..] == USER_ID + [0] + rest;
    assert stream[4..8] == target;
    UpToNulStops(USER_ID, rest);
  }

  // ---------- the handlers ----------

  function Complete(w: World, error: Error): World {
    w.(completions := w.completions + [error])
  }

  // Closing aborts a pending transfer. It does not touch a handler already queued, nor a resolve.
  function CloseSocket(w: World): World {
    if !w.socketOpen then w
    else if w.pending != [] && !w.pending[0].Resolving? then
      w.(socketOpen := false, pending := w.pending[1..], ready := w.ready + [Transferred(OperationAborted)])
    else w.(socketOpen := false)
  }

  // A transfer on a closed socket fails at once.
  function StartTransfer(w: World, transfer: Pending): World {
    if w.socketOpen then w.(pending := w.pending + [transfer])
    else w.(ready := w.ready + [Transferred(BadDescriptor)])
  }

  function OnStart(w: World): World {
    w.(state := HandleResolve, pending := w.pending + [Resolving])
  }

  function OnResolved(w: World, error: Error, addresses: seq<Address>): World {
    if error != NoError then Complete(w, error)
    else match FirstV4(addresses)
      case None => Complete(w, HostNotFound)
      case Some(target) =>
        StartTransfer(
          w.(request := Encode(w.port, target), timer := Armed, state := HandleRequestWrite), Writing(0))
  }

  function StatusError(status: Byte): Error {
    if status == 0x5b then Interrupted
    else if status == 0x5c || status == 0x5d then OperationNotPermitted
    else NoError
  }

  function OnTransferred(w: World, error: Error): World
    requires |w.reply| == REPLY_LENGTH
  {
    if w.state == HandleRequestWrite then
      if error != NoError then Complete(w, error)
      else if !w.socketOpen then Complete(w, TimedOut)
      else StartTransfer(w.(state := HandleReadResponse), Reading(0))
    else
      var v := w.(timer := Cancel(w.timer));
      if error != NoError then Complete(v, if error == OperationAborted then TimedOut else error)
      else if !v.socketOpen then Complete(v, TimedOut)
      else if v.reply[0] != 0 then Complete(v, ProtocolNotSupported)
      else if v.reply[1] != 0x5a then
        Complete(CloseSocket(v).(buffersHeld := false), StatusError(v.reply[1]))
      else Complete(v.(buffersHeld := false), NoError)
  }

  function OnTimer(w: World, error: Error): World {
    var v := w.(timer := Ran);
    if error == OperationAborted then v else CloseSocket(v)
  }

  // ---------- events ----------

  ghost predicate Enabled(w: World, e: Event) {
    && |w.request| == REQUEST_LENGTH && |w.reply| == REPLY_LENGTH
    && match e
       case Initiate => w.state == Start
       case ResolveAnswered(_, _) => w.pending != [] && w.pending[0] == Resolving
       case Wrote(n) =>
         n > 0 && w.pending != [] && w.pending[0].Writing? && w.pending[0].written + n <= REQUEST_LENGTH
       case Arrived(bytes) =>
         bytes != [] && w.pending != [] && w.pending[0].Reading?
         && w.pending[0].received + |bytes| <= REPLY_LENGTH
       case TransferFailed(error) => error != NoError && w.pending != [] && !w.pending[0].Resolving?
       case TimerExpires => w.timer == Armed
       case TimerRuns(error) => w.timer == Ready(error)
       case HandlerRuns(handler) => w.ready != [] && w.ready[0] == handler
       case OwnerCloses => true
  }

  // The first pending operation is answered and its handler queued.
  function Answer(w: World, handler: Handler): World
    requires w.pending != []
  {
    w.(pending := w.pending[1..], ready := w.ready + [handler])
  }

  function Overlay(buffer: seq<Byte>, at: nat, bytes: seq<Byte>): (r: seq<Byte>)
    requires at + |bytes| <= |buffer|
    ensures |r| == |buffer|
  {
    buffer[..at] + bytes + buffer[at + |bytes|..]
  }

  function OnWrote(w: World, n: nat): World
    requires w.pending != [] && w.pending[0].Writing? && w.pending[0].written + n <= |w.request|
  {
    var k := w.pending[0].written;
    var v := w.(wire := w.wire + w.request[k..k + n]);
    if k + n == REQUEST_LENGTH then Answer(v, Transferred(NoError)) else v.(pending := v.pending[0 := Writing(k + n)])
  }

  function OnArrived(w: World, bytes: seq<Byte>): World
    requires w.pending != [] && w.pending[0].Reading? && w.pending[0].received + |bytes| <= |w.reply|
  {
    var k := w.pending[0].received;
    var v := w.(reply := Overlay(w.reply, k, bytes));
    if k + |bytes| == REPLY_LENGTH then Answer(v, Transferred(NoError))
    else v.(pending := v.pending[0 := Reading(k + |bytes|)])
  }

  ghost function Step(w: World, e: Event): World
    requires Enabled(w, e)
  {
    match e
    case Initiate => OnStart(w)
    case ResolveAnswered(error, addresses) => Answer(w, Resolved(error, addresses))
    case Wrote(n) => OnWrote(w, n)
    case Arrived(bytes) => OnArrived(w, bytes)
    case TransferFailed(error) => Answer(w, Transferred(error))
    case TimerExpires => w.(timer := Ready(NoError))
    case TimerRuns(error) => OnTimer(w, error)
    case HandlerRuns(Resolved(error, addresses)) => OnResolved(w.(ready := w.ready[1..]), error, addresses)
    case HandlerRuns(Transferred(error)) => OnTransferred(w.(ready := w.ready[1..]), error)
    case OwnerCloses => CloseSocket(w)
  }

  // The world after a run from w, if every event of the run was enabled when it happened.
  ghost function Run(w: World, events: seq<Event>): Option<World> {
    if events == [] then Some(w)
    else
      var last := |events| - 1;
      match Run(w, events[..last])
      case None => None
      case Some(v) => if Enabled(v, events[last]) then Some(Step(v, events[last])) else None
  }
}
