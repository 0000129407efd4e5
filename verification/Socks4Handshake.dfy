// The SOCKS4 handshake as the object the source has: its state and buffers are changed in place by
// successive handler calls. Every method is proved to perform the step of module Socks4, so what
// Socks4Runs proves of every run holds of this object.

module Socks4Handshake {
  import opened Wrappers
  import opened Net
  import opened Asio
  import opened Socks4
  import opened Socks4Runs

  // The socket, the timer and the io context that the handshake works with.
  class Io {
    var socketOpen: bool
    var timer: Timer
    var pending: seq<Pending>
    var ready: seq<Handler>
    var completions: seq<Error>
    var wire: seq<Byte>

    constructor ()
      ensures socketOpen && timer == Idle && pending == [] && ready == [] && completions == [] && wire == []
    {
      socketOpen, timer, pending, ready, completions, wire := true, Idle, [], [], [], [];
    }
  }

  class Handshake {
    var state: State
    const port: Word
    const request: array<Byte>
    const reply: array<Byte>
    var buffersHeld: bool
    const io: Io

    ghost predicate Valid()
      reads this
    {
      request.Length == REQUEST_LENGTH && reply.Length == REPLY_LENGTH && request != reply
    }

    ghost function Contents(): World
      reads this, io, request, reply
    {
      World(state, port, request[..], reply[..], buffersHeld, io.socketOpen, io.timer,
            io.pending, io.ready, io.completions, io.wire)
    }

    constructor (port: Word, io: Io)
      requires io.socketOpen && io.timer == Idle
      requires io.pending == [] && io.ready == [] && io.completions == [] && io.wire == []
      ensures Valid() && Initial(Contents(), port)
      ensures this.io == io && fresh(request) && fresh(reply)
    {
      this.port := port;
      this.io := io;
      state := Start;
      buffersHeld := true;
      request := new Byte[REQUEST_LENGTH];
      reply := new Byte[REPLY_LENGTH];
    }

    method Complete(error: Error)
      modifies io`completions
      ensures Contents() == Socks4.Complete(old(Contents()), error)
    {
      io.completions := io.completions + [error];
    }

    method CloseSocket()
      modifies io
      ensures Contents() == Socks4.CloseSocket(old(Contents()))
    {
      if io.socketOpen {
        io.socketOpen := false;
        if io.pending != [] && !io.pending[0].Resolving? {
          io.pending := io.pending[1..];
          io.ready := io.ready + [Transferred(OperationAborted)];
        }
      }
    }

    method StartTransfer(transfer: Pending)
      modifies io
      ensures Contents() == Socks4.StartTransfer(old(Contents()), transfer)
    {
      if io.socketOpen {
        io.pending := io.pending + [transfer];
      } else {
        io.ready := io.ready + [Transferred(BadDescriptor)];
      }
    }

    // The initiating call.
    method Begin()
      requires Valid() && state == Start
      modifies this, io
      ensures Valid() && Contents() == OnStart(old(Contents()))
    {
      state := HandleResolve;
      io.pending := io.pending + [Resolving];
    }

    // The handler of async_resolve.
    method HandleResolved(error: Error, addresses: seq<Address>)
      requires Valid() && (error == NoError ==> state == HandleResolve)
      modifies this, io, request
      ensures Valid() && Contents() == OnResolved(old(Contents()), error, addresses)
    {
      if error != NoError {
        Complete(error);
        return;
      }
      var target: Octets := [0, 0, 0, 0];
      var gotone := false;
      var next := 0;
      while !gotone && next < |addresses|
        invariant next <= |addresses|
        invariant FirstV4(addresses) == if gotone then Some(target) else FirstV4(addresses[next..])
      {
        var address := addresses[next];
        next := next + 1;
        if address.V4? {
          target := address.octets;
          gotone := true;
        }
      }
      if !gotone {
        Complete(HostNotFound);
        return;
      }
      FillRequest(target);
      io.timer := Armed;
      state := HandleRequestWrite;
      StartTransfer(Writing(0));
    }

    // Every byte of the buffer is written, and none outside it.
    method FillRequest(target: Octets)
      requires Valid()
      modifies request
      ensures request[..] == Encode(port, target)
    {
      request[0] := 4;
      request[1] := 1;
      request[2] := port / 0x100;
      request[3] := port % 0x100;
      for i := 0 to 4
        invariant request[..4] == [4, 1, port / 0x100, port % 0x100]
        invariant request[4..4 + i] == target[..i]
      {
        request[4 + i] := target[i];
      }
      var name := USER_ID + [0];
      for i := 0 to |name|
        invariant request[..8] == [4, 1, port / 0x100, port % 0x100] + target
        invariant request[8..8 + i] == name[..i]
      {
        request[8 + i] := name[i];
      }
      assert request[..] == request[..8] + request[8..14];
    }

    // The handler of async_write and of async_read.
    method HandleTransferred(error: Error)
      requires Valid() && (state == HandleRequestWrite || state == HandleReadResponse)
      modifies this, io
      ensures Valid() && Contents() == OnTransferred(old(Contents()), error)
    {
      if state == HandleRequestWrite {
        if error != NoError {
          Complete(error);
          return;
        }
        if !io.socketOpen {
          Complete(TimedOut);
          return;
        }
        state := HandleReadResponse;
        StartTransfer(Reading(0));
      } else {
        io.timer := Cancel(io.timer);
        if error != NoError {
          Complete(if error == OperationAborted then TimedOut else error);
          return;
        }
        if !io.socketOpen {
          Complete(TimedOut);
          return;
        }
        if reply[0] != 0 {
          Complete(ProtocolNotSupported);
          return;
        }
        var result := NoError;
        if reply[1] != 0x5a {
          CloseSocket();
          if reply[1] == 0x5b {
            result := Interrupted;
          } else if reply[1] == 0x5c {
            result := OperationNotPermitted;
          } else if reply[1] == 0x5d {
            result := OperationNotPermitted;
          }
        }
        buffersHeld := false;
        Complete(result);
      }
    }

    // The callback of the timer.
    method HandleTimer(error: Error)
      requires Valid()
      modifies io
      ensures Valid() && Contents() == OnTimer(old(Contents()), error)
    {
      io.timer := Ran;
      if error == OperationAborted {
        return;
      }
      CloseSocket();
    }

    // A fragment of the reply is stored behind the bytes already received.
    method Receive(bytes: seq<Byte>)
      requires Valid() && io.pending != [] && io.pending[0].Reading?
      requires io.pending[0].received + |bytes| <= REPLY_LENGTH
      modifies io, reply
      ensures Valid() && Contents() == OnArrived(old(Contents()), bytes)
    {
      var k := io.pending[0].received;
      for i := 0 to |bytes|
        modifies reply
        invariant reply[..] == Overlay(old(reply[..]), k, bytes[..i])
      {
        ghost var before := reply[..];
        reply[k + i] := bytes[i];
        assert reply[..] == before[k + i := bytes[i]] == Overlay(old(reply[..]), k, bytes[..i + 1]);
      }
      assert bytes[..|bytes|] == bytes;
      if k + |bytes| == REPLY_LENGTH {
        io.pending, io.ready := io.pending[1..], io.ready + [Transferred(NoError)];
      } else {
        io.pending := io.pending[0 := Reading(k + |bytes|)];
      }
    }

    method Send(count: nat)
      requires Valid() && io.pending != [] && io.pending[0].Writing?
      requires io.pending[0].written + count <= REQUEST_LENGTH
      modifies io
      ensures Valid() && Contents() == OnWrote(old(Contents()), count)
    {
      var k := io.pending[0].written;
      io.wire := io.wire + request[k..k + count];
      if k + count == REQUEST_LENGTH {
        io.pending, io.ready := io.pending[1..], io.ready + [Transferred(NoError)];
      } else {
        io.pending := io.pending[0 := Writing(k + count)];
      }
    }

    // One event of a run.
    method Handle(e: Event)
      requires Valid() && Enabled(Contents(), e)
      requires e.HandlerRuns? ==>
                 match e.handler
                 case Resolved(error, _) => error == NoError ==> state == HandleResolve
                 case Transferred(_) => state == HandleRequestWrite || state == HandleReadResponse
      modifies this, io, request, reply
      ensures Valid() && Contents() == Step(old(Contents()), e)
    {
      match e
      case Initiate => Begin();
      case ResolveAnswered(error, addresses) =>
        io.pending, io.ready := io.pending[1..], io.ready + [Resolved(error, addresses)];
      case Wrote(n) => Send(n);
      case Arrived(bytes) => Receive(bytes);
      case TransferFailed(error) =>
        io.pending, io.ready := io.pending[1..], io.ready + [Transferred(error)];
      case TimerExpires => io.timer := Ready(NoError);
      case TimerRuns(error) => HandleTimer(error);
      case HandlerRuns(Resolved(error, addresses)) =>
        io.ready := io.ready[1..];
        HandleResolved(error, addresses);
      case HandlerRuns(Transferred(error)) =>
        io.ready := io.ready[1..];
        HandleTransferred(error);
      case OwnerCloses => CloseSocket();
    }
  }

  lemma {:induction false} PrefixRuns(w: World, events: seq<Event>, i: nat)
    requires Run(w, events).Some? && i <= |events|
    ensures Run(w, events[..i]).Some?
    ensures i < |events| ==> Enabled(Run(w, events[..i]).value, events[i])
                             && Run(w, events[..i + 1]) == Some(Step(Run(w, events[..i]).value, events[i]))
  {
    if i == |events| {
      assert events[..i] == events;
    } else {
      var n := |events| - 1;
      if i < n {
        PrefixRuns(w, events[..n], i);
        assert events[..n][..i] == events[..i] && events[..n][..i + 1] == events[..i + 1];
      } else {
        assert events[..n + 1] == events;
      }
    }
  }

  // An io thread that plays any run to a fresh handshake arrives at the world of that run, and no
  // assertion of a handler fails on the way.
  method Play(h: Handshake, events: seq<Event>)
    requires h.Valid() && Initial(h.Contents(), h.port)
    requires Run(h.Contents(), events).Some?
    modifies h, h.io, h.request, h.reply
    ensures h.Valid() && Run(old(h.Contents()), events) == Some(h.Contents())
  {
    ghost var w0 := h.Contents();
    assert events[..0] == [];
    for i := 0 to |events|
      invariant h.Valid() && Run(w0, events[..i]) == Some(h.Contents())
    {
      PrefixRuns(w0, events, i);
      OnePlace(w0, h.port, events[..i], h.Contents());
      h.Handle(events[i]);
    }
    assert events[..|events|] == events;
  }
}
