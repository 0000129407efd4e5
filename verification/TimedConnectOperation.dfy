// The timed connect as the resumable object the source has. Every method is proved to perform the
// step of module TimedConnect.

module TimedConnectOperation {
  import opened Wrappers
  import opened Net
  import opened Asio
  import opened TimedConnect

  class Operation {
    const protocol: int
    var coro: Coro
    var stringsHeld: bool
    var socketOpen: bool
    var timer: Timer
    var pending: seq<Pending>
    var ready: seq<Handler>
    var completions: seq<Error>

    ghost function Contents(): World
      reads this
    {
      World(protocol, coro, stringsHeld, socketOpen, timer, pending, ready, completions)
    }

    constructor (protocol: int, socketOpen: bool)
      ensures Initial(Contents(), protocol) && this.socketOpen == socketOpen
    {
      this.protocol := protocol;
      this.socketOpen := socketOpen;
      coro, stringsHeld, timer, pending, ready, completions := AtStart, true, Idle, [], [], [];
    }

    method Complete(error: Error)
      modifies this
      ensures Contents() == TimedConnect.Complete(old(Contents()), error)
    {
      completions := completions + [error];
      coro := Terminated;
    }

    method CloseSocket()
      modifies this
      ensures Contents() == TimedConnect.CloseSocket(old(Contents()))
    {
      if socketOpen {
        socketOpen := false;
        if pending != [] && pending[0].Connecting? {
          pending := pending[1..];
          ready := ready + [Resumed(OperationAborted, [])];
        }
      }
    }

    method StartConnect(endpoints: seq<Endpoint>)
      modifies this
      ensures Contents() == TimedConnect.StartConnect(old(Contents()), endpoints)
    {
      if endpoints == [] {
        ready := ready + [Resumed(NotFound, [])];
      } else {
        socketOpen := true;
        pending := pending + [Connecting(endpoints)];
      }
    }

    // The call operator: continues where the coroutine yielded.
    method Reenter(error: Error, results: seq<Endpoint>)
      modifies this
      ensures Contents() == Resume(old(Contents()), error, results)
    {
      match coro
      case AtStart =>
        if protocol == 0 {
          pending := pending + [Resolving(AnyFamily)];
        } else if protocol == 4 {
          pending := pending + [Resolving(OnlyV4)];
        } else if protocol == 6 {
          pending := pending + [Resolving(OnlyV6)];
        } else {
          Complete(NoProtocolOption);
          return;
        }
        coro := AfterResolve;
      case AfterResolve =>
        if error != NoError {
          Complete(error);
          return;
        }
        timer := Armed;
        coro := AfterConnect;
        StartConnect(results);
      case AfterConnect =>
        timer := Cancel(timer);
        if error != NoError {
          Complete(if error == OperationAborted then TimedOut else error);
          return;
        }
        if !socketOpen {
          Complete(TimedOut);
          return;
        }
        stringsHeld := false;
        Complete(error);
      case Terminated =>
    }

    method HandleTimer(error: Error)
      modifies this
      ensures Contents() == OnTimer(old(Contents()), error)
    {
      timer := Ran;
      if error == OperationAborted {
        return;
      }
      CloseSocket();
    }

    // One event of a run.
    method Handle(e: Event)
      requires Enabled(Contents(), e)
      modifies this
      ensures Contents() == Step(old(Contents()), e)
    {
      match e
      case Initiate => Reenter(NoError, []);
      case ResolveAnswered(error, results) => pending, ready := pending[1..], ready + [Resumed(error, results)];
      case AttemptFails(error) =>
        var left := pending[0].endpoints;
        if |left| > 1 {
          pending := pending[0 := Connecting(left[1..])];
        } else {
          pending, ready := pending[1..], ready + [Resumed(error, [])];
        }
      case AttemptSucceeds => pending, ready := pending[1..], ready + [Resumed(NoError, [])];
      case TimerExpires => timer := Ready(NoError);
      case TimerRuns(error) => HandleTimer(error);
      case HandlerRuns(handler) =>
        ready := ready[1..];
        Reenter(handler.error, handler.results);
      case OwnerCloses => CloseSocket();
    }
  }

  lemma {:induction false} PrefixRuns(w: World, events: seq<Event>, i: nat)
    requires Run(w, events).Some? && i < |events|
    ensures Run(w, events[..i]).Some? && Enabled(Run(w, events[..i]).value, events[i])
    ensures Run(w, events[..i + 1]) == Some(Step(Run(w, events[..i]).value, events[i]))
  {
    var n := |events| - 1;
    if i < n {
      PrefixRuns(w, events[..n], i);
      assert events[..n][..i] == events[..i] && events[..n][..i + 1] == events[..i + 1];
    } else {
      assert events[..n + 1] == events;
    }
  }

  // An io thread that plays any run to a fresh operation arrives at the world of that run. The
  // operation has then completed at most once, with its timer no longer armed, and the socket is as
  // the last event left it that opened or closed it.
  method Play(operation: Operation, events: seq<Event>)
    requires Initial(operation.Contents(), operation.protocol)
    requires Run(operation.Contents(), events).Some?
    modifies operation
    ensures Run(old(operation.Contents()), events) == Some(operation.Contents())
    ensures |operation.completions| <= 1 && (operation.completions != [] ==> operation.timer != Armed)
    ensures operation.socketOpen <==> Opened(old(operation.socketOpen), events)
  {
    ghost var w0 := operation.Contents();
    assert events[..0] == [];
    for i := 0 to |events|
      invariant Run(w0, events[..i]) == Some(operation.Contents())
    {
      PrefixRuns(w0, events, i);
      operation.Handle(events[i]);
    }
    assert events[..|events|] == events;
    OnePlaceAndTimer(w0, operation.protocol, events, operation.Contents());
    SocketIsOpened(w0, operation.protocol, events, operation.Contents());
  }
}
