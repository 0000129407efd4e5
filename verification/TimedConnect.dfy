// Resolve and connect with a timeout (TimedConnect.hpp): a coroutine resumed by its own handlers,
// racing a timer that closes the socket. Runs are sequences of events on one io thread.

module TimedConnect {
  import opened Wrappers
  import opened Net
  import opened Asio

  datatype Family = AnyFamily | OnlyV4 | OnlyV6

  // Where the coroutine continues when it is entered again.
  datatype Coro = AtStart | AfterResolve | AfterConnect | Terminated

  // A range connect in progress holds the endpoints left to try; the first is being tried.
  datatype Pending = Resolving(family: Family) | Connecting(endpoints: seq<Endpoint>)

  datatype Handler = Resumed(error: Error, results: seq<Endpoint>)

  datatype World = World(
    protocol: int,
    coro: Coro,
    stringsHeld: bool,
    socketOpen: bool,
    timer: Timer,
    pending: seq<Pending>,
    ready: seq<Handler>,
    completions: seq<Error>)

  datatype Event =
    | Initiate
    | ResolveAnswered(error: Error, results: seq<Endpoint>)
    | AttemptFails(error: Error)
    | AttemptSucceeds
    | TimerExpires
    | TimerRuns(error: Error)
    | HandlerRuns(handler: Handler)
    | OwnerCloses

  ghost predicate Initial(w: World, protocol: int) {
    && w.protocol == protocol && w.coro == AtStart && w.stringsHeld && w.timer == Idle
    && w.pending == [] && w.ready == [] && w.completions == []
  }

  // ---------- the coroutine ----------

  function Complete(w: World, error: Error): World {
    w.(completions := w.completions + [error], coro := Terminated)
  }

  function CloseSocket(w: World): World {
    if !w.socketOpen then w
    else if w.pending != [] && w.pending[0].Connecting? then
      w.(socketOpen := false, pending := w.pending[1..], ready := w.ready + [Resumed(OperationAborted, [])])
    else w.(socketOpen := false)
  }

  // A range connect opens the socket for each endpoint; with no endpoint it fails at once.
  function StartConnect(w: World, endpoints: seq<Endpoint>): World {
    if endpoints == [] then w.(ready := w.ready + [Resumed(NotFound, [])])
    else w.(socketOpen := true, pending := w.pending + [Connecting(endpoints)])
  }

  function StartResolve(w: World, family: Family): World {
    w.(coro := AfterResolve, pending := w.pending + [Resolving(family)])
  }

  function Resume(w: World, error: Error, results: seq<Endpoint>): World {
    match w.coro
    case AtStart =>
      if w.protocol == 0 then StartResolve(w, AnyFamily)
      else if w.protocol == 4 then StartResolve(w, OnlyV4)
      else if w.protocol == 6 then StartResolve(w, OnlyV6)
      else Complete(w, NoProtocolOption)
    case AfterResolve =>
      if error != NoError then Complete(w, error)
      else StartConnect(w.(timer := Armed, coro := AfterConnect), results)
    case AfterConnect =>
      var v := w.(timer := Cancel(w.timer));
      if error != NoError then Complete(v, if error == OperationAborted then TimedOut else error)
      else if !v.socketOpen then Complete(v, TimedOut)
      else Complete(v.(stringsHeld := false), NoError)
    case Terminated => w
  }

  function OnTimer(w: World, error: Error): World {
    var v := w.(timer := Ran);
    if error == OperationAborted then v else CloseSocket(v)
  }

  // ---------- events ----------

  // The resolver gives addresses of the family it was asked for.
  predicate Fits(family: Family, address: Address) {
    match family
    case AnyFamily => true
    case OnlyV4 => address.V4?
    case OnlyV6 => address.V6?
  }

  ghost predicate Enabled(w: World, e: Event) {
    match e
    case Initiate => w.coro == AtStart
    case ResolveAnswered(_, results) =>
      w.pending != [] && w.pending[0].Resolving? && forall r <- results :: Fits(w.pending[0].family, r.address)
    case AttemptFails(error) => error != NoError && w.pending != [] && w.pending[0].Connecting?
    case AttemptSucceeds => w.pending != [] && w.pending[0].Connecting?
    case TimerExpires => w.timer == Armed
    case TimerRuns(error) => w.timer == Ready(error)
    case HandlerRuns(handler) => w.ready != [] && w.ready[0] == handler
    case OwnerCloses => true
  }

  function Answer(w: World, handler: Handler): World
    requires w.pending != []
  {
    w.(pending := w.pending[1..], ready := w.ready + [handler])
  }

  function OnAttemptFails(w: World, error: Error): World
    requires w.pending != [] && w.pending[0].Connecting?
  {
    var left := w.pending[0].endpoints;
    if |left| > 1 then w.(pending := w.pending[0 := Connecting(left[1..])])
    else Answer(w, Resumed(error, []))
  }

  ghost function Step(w: World, e: Event): World
    requires Enabled(w, e)
  {
    match e
    case Initiate => Resume(w, NoError, [])
    case ResolveAnswered(error, results) => Answer(w, Resumed(error, results))
    case AttemptFails(error) => OnAttemptFails(w, error)
    case AttemptSucceeds => Answer(w, Resumed(NoError, []))
    case TimerExpires => w.(timer := Ready(NoError))
    case TimerRuns(error) => OnTimer(w, error)
    case HandlerRuns(handler) => Resume(w.(ready := w.ready[1..]), handler.error, handler.results)
    case OwnerCloses => CloseSocket(w)
  }

  ghost function Run(w: World, events: seq<Event>): Option<World> {
    if events == [] then Some(w)
    else
      var last := |events| - 1;
      match Run(w, events[..last])
      case None => None
      case Some(v) => if Enabled(v, events[last]) then Some(Step(v, events[last])) else None
  }

  // ---------- what a run says by itself ----------

  ghost predicate Closes(e: Event) {
    e.OwnerCloses? || (e.TimerRuns? && e.error != OperationAborted)
  }

  // The socket was closed after the last handler ran: while connecting, after the connect started.
  ghost predicate ClosedSince(run: seq<Event>) {
    run != [] &&
    var last := run[|run| - 1];
    !last.HandlerRuns? && (Closes(last) || ClosedSince(run[..|run| - 1]))
  }

  // The endpoints that the last handler was given to connect to.
  ghost function Results(run: seq<Event>): seq<Endpoint> {
    if run == [] then []
    else
      var last := run[|run| - 1];
      if last.HandlerRuns? then last.handler.results else Results(run[..|run| - 1])
  }

  ghost predicate Offered(run: seq<Event>) {
    Results(run) != []
  }

  // The connect started: the first handler was given endpoints.
  ghost predicate Opens(run: seq<Event>, e: Event) {
    e.HandlerRuns? && HandlersRun(run) == 0 && e.handler.error == NoError && e.handler.results != []
  }

  // Whether the socket is open after a run, by the last event that opened or closed it.
  ghost predicate Opened(before: bool, run: seq<Event>) {
    if run == [] then before
    else
      var front, last := run[..|run| - 1], run[|run| - 1];
      !Closes(last) && (Opens(front, last) || Opened(before, front))
  }

  ghost function HandlersRun(run: seq<Event>): nat {
    if run == [] then 0
    else HandlersRun(run[..|run| - 1]) + (if run[|run| - 1].HandlerRuns? then 1 else 0)
  }

  ghost predicate IsProtocol(protocol: int) {
    protocol == 0 || protocol == 4 || protocol == 6
  }

  ghost function Verdict(protocol: int, run: seq<Event>, e: Event): Option<Error> {
    match e
    case Initiate => if IsProtocol(protocol) then None else Some(NoProtocolOption)
    case HandlerRuns(Resumed(error, _)) =>
      if HandlersRun(run) == 0 then                                        // the resolve
        if error == NoError then None else Some(error)
      else if error == OperationAborted then Some(TimedOut)                // the connect
      else if error != NoError then Some(error)
      else if ClosedSince(run) then Some(TimedOut)
      else Some(NoError)
    case _ => None
  }

  // The resolve arms the timer, unless it failed; the end of the connect cancels it; an expiry and a
  // cancelled wait are queued, and then run once.
  ghost function TimerOf(run: seq<Event>): Timer {
    if run == [] then Idle
    else
      var front := run[..|run| - 1];
      match run[|run| - 1]
      case TimerExpires => Ready(NoError)
      case TimerRuns(_) => Ran
      case HandlerRuns(Resumed(error, _)) =>
        if HandlersRun(front) == 0 then (if error == NoError then Armed else TimerOf(front))
        else if TimerOf(front) == Armed then Ready(OperationAborted)
        else TimerOf(front)
      case _ => TimerOf(front)
  }

  // The number of attempts that failed, and the error of the last.
  ghost function Failures(run: seq<Event>): nat {
    if run == [] then 0
    else Failures(run[..|run| - 1]) + (if run[|run| - 1].AttemptFails? then 1 else 0)
  }

  ghost function LastFailure(run: seq<Event>): Error {
    if run == [] then NoError
    else if run[|run| - 1].AttemptFails? then run[|run| - 1].error
    else LastFailure(run[..|run| - 1])
  }

  // What the connect ends with: the first success, or the failure of the last endpoint, or not_found
  // if there was none; or it was aborted while endpoints were left.
  ghost function Outcome(run: seq<Event>): Error {
    if AttemptSucceeds in run then NoError
    else if Failures(run) < |Results(run)| then OperationAborted
    else if Results(run) == [] then NotFound
    else LastFailure(run)
  }

  // ---------- the invariant ----------

  ghost function Tokens(w: World): nat {
    (if w.coro == AtStart then 1 else 0) + |w.pending| + |w.ready| + |w.completions|
  }

  ghost predicate Inv(w: World, run: seq<Event>) {
    && Tokens(w) == 1
    && (w.stringsHeld <==> NoError !in w.completions)
    && match w.coro
       case AtStart => w.timer == Idle && HandlersRun(run) == 0
       case AfterResolve =>
         && w.timer == Idle && HandlersRun(run) == 0 && IsProtocol(w.protocol) && w.completions == []
         && (w.pending != [] ==> w.pending[0].Resolving?)
       case AfterConnect =>
         && w.timer != Idle && HandlersRun(run) == 1 && w.completions == []
         && (Offered(run) ==> (w.socketOpen <==> !ClosedSince(run)))
         && (w.pending != [] ==> Offered(run) && w.socketOpen
                                 && w.pending[0].Connecting? && w.pending[0].endpoints != [])
         && (w.ready != [] && w.ready[0].error == NoError ==> Offered(run) && AttemptSucceeds in run)
         && (w.ready != [] && !Offered(run) ==> w.ready[0].error == NotFound)
       case Terminated => w.timer != Armed && |w.completions| == 1
  }

  lemma Snoc(run: seq<Event>, e: Event)
    ensures (run + [e])[..|run|] == run && (run + [e])[|run|] == e
  {
  }

  // One event keeps the invariant and delivers exactly what the verdict says.
  ghost predicate Advances(w: World, run: seq<Event>, e: Event)
    requires Enabled(w, e)
  {
    var v := Step(w, e);
    && Inv(v, run + [e])
    && v.protocol == w.protocol
    && v.completions
       == match Verdict(w.protocol, run, e) case None => w.completions case Some(error) => w.completions + [error]
  }

  lemma AnswersAdvance(w: World, run: seq<Event>, e: Event)
    requires Inv(w, run) && Enabled(w, e)
    requires e.ResolveAnswered? || e.AttemptFails? || e.AttemptSucceeds? || e.TimerExpires?
    ensures Advances(w, run, e)
  {
    Snoc(run, e);
  }

  lemma ClosesAdvance(w: World, run: seq<Event>, e: Event)
    requires Inv(w, run) && Enabled(w, e) && (e.TimerRuns? || e.OwnerCloses?)
    ensures Advances(w, run, e)
  {
    Snoc(run, e);
  }

  lemma ResumesAdvance(w: World, run: seq<Event>, e: Event)
    requires Inv(w, run) && Enabled(w, e) && (e.Initiate? || e.HandlerRuns?)
    ensures Advances(w, run, e)
  {
    Snoc(run, e);
  }

  lemma StepAdvances(w: World, run: seq<Event>, e: Event)
    requires Inv(w, run) && Enabled(w, e)
    ensures Advances(w, run, e)
  {
    match e
    case Initiate => ResumesAdvance(w, run, e);
    case HandlerRuns(_) => ResumesAdvance(w, run, e);
    case TimerRuns(_) => ClosesAdvance(w, run, e);
    case OwnerCloses => ClosesAdvance(w, run, e);
    case _ => AnswersAdvance(w, run, e);
  }

  ghost predicate Reached(w0: World, protocol: int, run: seq<Event>, w: World) {
    Initial(w0, protocol) && Run(w0, run) == Some(w)
  }

  lemma {:induction false} RunKeepsInv(w0: World, protocol: int, run: seq<Event>, w: World)
    requires Reached(w0, protocol, run, w)
    ensures Inv(w, run) && w.protocol == protocol
  {
    if run != [] {
      var n := |run| - 1;
      assert run[..n] + [run[n]] == run;
      var v := Run(w0, run[..n]).value;
      RunKeepsInv(w0, protocol, run[..n], v);
      StepAdvances(v, run[..n], run[n]);
    }
  }

  // ---------- theorems ----------

  // At any time exactly one of: the initial call, one pending operation, one queued handler, one
  // delivered completion. The timer is never left armed once the operation has completed.
  lemma OnePlaceAndTimer(w0: World, protocol: int, run: seq<Event>, w: World)
    requires Reached(w0, protocol, run, w)
    ensures Tokens(w) == 1
    ensures w.completions != [] ==> w.timer != Armed
  {
    RunKeepsInv(w0, protocol, run, w);
  }

  // The strings are held until the operation has succeeded, and so for as long as an operation or
  // a handler may still use them.
  lemma StringsOutliveOperations(w0: World, protocol: int, run: seq<Event>, w: World)
    requires Reached(w0, protocol, run, w)
    ensures w.pending != [] || w.ready != [] ==> w.stringsHeld
    ensures !w.stringsHeld <==> w.completions == [NoError]
  {
    RunKeepsInv(w0, protocol, run, w);
    if w.completions != [] {
      assert w.completions == [w.completions[0]];
    }
  }

  lemma CompletionIsVerdict(w0: World, protocol: int, run: seq<Event>, w: World, e: Event)
    requires Reached(w0, protocol, run, w) && Enabled(w, e)
    ensures Step(w, e).completions
         == match Verdict(protocol, run, e) case None => w.completions case Some(error) => [error]
    ensures Verdict(protocol, run, e).Some? ==> w.completions == []
  {
    RunKeepsInv(w0, protocol, run, w);
    StepAdvances(w, run, e);
    if Verdict(protocol, run, e).Some? {
      assert Tokens(Step(w, e)) == 1;
    }
  }

  // Success is reported exactly when an attempt succeeded and nothing closed the socket between
  // the start of the connect and the last handler; the socket is then open.
  lemma SuccessIff(w0: World, protocol: int, run: seq<Event>, w: World, e: Event)
    requires Reached(w0, protocol, run, w) && Enabled(w, e) && w.completions == []
    ensures Step(w, e).completions == [NoError]
      <==> HandlersRun(run) == 1 && e.HandlerRuns? && e.handler.error == NoError && !ClosedSince(run)
    ensures Step(w, e).completions == [NoError] ==>
              Step(w, e).socketOpen && AttemptSucceeds in run && IsProtocol(protocol)
  {
    RunKeepsInv(w0, protocol, run, w);
    CompletionIsVerdict(w0, protocol, run, w, e);
    if Step(w, e).completions == [NoError] {
      assert w.coro == AfterConnect;
      ProtocolIsKnown(w0, protocol, run, w);
    }
  }

  lemma {:induction false} ProtocolIsKnown(w0: World, protocol: int, run: seq<Event>, w: World)
    requires Reached(w0, protocol, run, w) && (w.coro == AfterResolve || w.coro == AfterConnect)
    ensures IsProtocol(protocol)
  {
    var n := |run| - 1;
    var v := Run(w0, run[..n]).value;
    RunKeepsInv(w0, protocol, run[..n], v);
    if v.coro != AtStart {
      ProtocolIsKnown(w0, protocol, run[..n], v);
    }
  }

  // Once the timeout has closed the socket during the connect, the operation fails, even if a
  // success was queued already; it then reports timed_out.
  lemma ClosedNeverSucceeds(w0: World, protocol: int, run: seq<Event>, w: World, e: Event)
    requires Reached(w0, protocol, run, w) && Enabled(w, e) && w.completions == []
    requires HandlersRun(run) == 1 && ClosedSince(run)
    ensures Step(w, e).completions != [NoError]
    ensures e.HandlerRuns? && (e.handler.error == NoError || e.handler.error == OperationAborted) ==>
              Step(w, e).completions == [TimedOut]
  {
    RunKeepsInv(w0, protocol, run, w);
    CompletionIsVerdict(w0, protocol, run, w, e);
  }

  // Other values of the template parameter fail in the initiating call, which starts nothing.
  lemma UnknownProtocol(w0: World, protocol: int, run: seq<Event>, w: World)
    requires Reached(w0, protocol, run, w) && !IsProtocol(protocol)
    ensures w.timer == Idle && w.pending == [] && w.ready == []
    ensures w.coro == AtStart || w.completions == [NoProtocolOption]
  {
    if run != [] {
      var n := |run| - 1;
      UnknownProtocol(w0, protocol, run[..n], Run(w0, run[..n]).value);
    }
    RunKeepsInv(w0, protocol, run, w);
  }

  lemma SocketOfStep(w: World, run: seq<Event>, e: Event)
    requires Inv(w, run) && Enabled(w, e)
    ensures Step(w, e).socketOpen <==> !Closes(e) && (Opens(run, e) || w.socketOpen)
  {
  }

  // The socket is open or closed as the last event of the run that opens or closes it says.
  lemma {:induction false} SocketIsOpened(w0: World, protocol: int, run: seq<Event>, w: World)
    requires Reached(w0, protocol, run, w)
    ensures w.socketOpen <==> Opened(w0.socketOpen, run)
  {
    if run != [] {
      var n := |run| - 1;
      var v := Run(w0, run[..n]).value;
      SocketIsOpened(w0, protocol, run[..n], v);
      RunKeepsInv(w0, protocol, run[..n], v);
      SocketOfStep(v, run[..n], run[n]);
    }
  }

  // The header documents the socket as closed on error. No completion with an error closes it, so
  // it is closed then exactly if it never opened or something else closed it last; once there was
  // an endpoint to connect to, exactly if something closed it since the connect began.
  lemma ClosedOnErrorIff(w0: World, protocol: int, run: seq<Event>, w: World, e: Event)
    requires Reached(w0, protocol, run, w) && Enabled(w, e) && w.completions == []
    requires Step(w, e).completions != [] && Step(w, e).completions != [NoError]
    ensures !Step(w, e).socketOpen <==> !Opened(w0.socketOpen, run)
    ensures HandlersRun(run) == 1 && Offered(run) ==> (!Step(w, e).socketOpen <==> ClosedSince(run))
  {
    RunKeepsInv(w0, protocol, run, w);
    SocketIsOpened(w0, protocol, run, w);
    CompletionIsVerdict(w0, protocol, run, w, e);
    KeepsSocket(w, run, e);
    SocketOfStep(w, run, e);
  }

  lemma KeepsSocket(w: World, run: seq<Event>, e: Event)
    requires Inv(w, run) && Enabled(w, e) && Verdict(w.protocol, run, e).Some?
    ensures !Closes(e) && !Opens(run, e)
  {
  }

  lemma Happens(w0: World, protocol: int, run: seq<Event>, w: World, e: Event) returns (run': seq<Event>, w': World)
    requires Reached(w0, protocol, run, w) && Enabled(w, e)
    ensures Reached(w0, protocol, run', w') && w' == Step(w, e) && run' == run + [e]
  {
    run', w' := run + [e], Step(w, e);
    assert run'[..|run|] == run;
  }

  // A refused connect leaves the socket open.
  lemma RefusedLeavesSocketOpen(w0: World, protocol: int, endpoint: Endpoint, refused: Error)
    requires Initial(w0, protocol) && IsProtocol(protocol) && Filtered(protocol, [endpoint])
    requires refused != NoError && refused != OperationAborted
    ensures exists run, w :: Reached(w0, protocol, run, w) && w.completions == [refused] && w.socketOpen
  {
    var run, w := ConnectIsReachable(w0, protocol, endpoint);
    run, w := Happens(w0, protocol, run, w, AttemptFails(refused));
    run, w := Happens(w0, protocol, run, w, HandlerRuns(Resumed(refused, [])));
  }

  // So does a failed resolve, if the socket was open before.
  lemma UnresolvedLeavesSocketOpen(w0: World, protocol: int, failed: Error)
    requires Initial(w0, protocol) && IsProtocol(protocol) && w0.socketOpen && failed != NoError
    ensures exists run, w :: Reached(w0, protocol, run, w) && w.completions == [failed] && w.socketOpen
  {
    var run, w := [], w0;
    run, w := Happens(w0, protocol, run, w, Initiate);
    run, w := Happens(w0, protocol, run, w, ResolveAnswered(failed, []));
    run, w := Happens(w0, protocol, run, w, HandlerRuns(Resumed(failed, [])));
  }

  // ---------- the timer, the resolve and the attempts ----------

  // What is under way, from the events alone.
  ghost predicate Shows(w: World, run: seq<Event>) {
    && w.timer == TimerOf(run) && (HandlersRun(run) == 0 ==> w.timer == Idle)
    && match w.coro
       case AtStart => Failures(run) == 0 && AttemptSucceeds !in run
       case AfterResolve =>
         && Failures(run) == 0 && AttemptSucceeds !in run
         && (w.pending != [] ==>
               w.pending[0] == Resolving(match w.protocol case 4 => OnlyV4 case 6 => OnlyV6 case _ => AnyFamily))
         && (w.ready != [] ==> Filtered(w.protocol, w.ready[0].results))
       case AfterConnect =>
         && Filtered(w.protocol, Results(run)) && Failures(run) <= |Results(run)|
         && (w.pending != [] ==> AttemptSucceeds !in run && Failures(run) < |Results(run)|
                                 && w.pending[0] == Connecting(Results(run)[Failures(run)..]))
         && (w.ready != [] ==> w.ready[0].error == Outcome(run))
       case Terminated => true
  }

  ghost predicate Filtered(protocol: int, results: seq<Endpoint>) {
    && (protocol == 4 ==> forall r <- results :: r.address.V4?)
    && (protocol == 6 ==> forall r <- results :: r.address.V6?)
  }

  lemma InSnoc(run: seq<Event>, e: Event)
    ensures AttemptSucceeds in run + [e] <==> AttemptSucceeds in run || e == AttemptSucceeds
  {
  }

  lemma HandlerShows(w: World, run: seq<Event>, e: Event)
    requires Inv(w, run) && Shows(w, run) && Enabled(w, e) && (e.Initiate? || e.HandlerRuns?)
    ensures Shows(Step(w, e), run + [e])
  {
    Snoc(run, e);
    InSnoc(run, e);
  }

  lemma NetworkShows(w: World, run: seq<Event>, e: Event)
    requires Inv(w, run) && Shows(w, run) && Enabled(w, e)
    requires e.ResolveAnswered? || e.AttemptFails? || e.AttemptSucceeds?
    ensures Shows(Step(w, e), run + [e])
  {
    Snoc(run, e);
    InSnoc(run, e);
  }

  lemma CloseShows(w: World, run: seq<Event>, e: Event)
    requires Inv(w, run) && Shows(w, run) && Enabled(w, e)
    requires e.TimerExpires? || e.TimerRuns? || e.OwnerCloses?
    ensures Shows(Step(w, e), run + [e])
  {
    Snoc(run, e);
    InSnoc(run, e);
  }

  lemma {:induction false} RunShows(w0: World, protocol: int, run: seq<Event>, w: World)
    requires Reached(w0, protocol, run, w)
    ensures Shows(w, run)
  {
    if run != [] {
      var n := |run| - 1;
      assert run[..n] + [run[n]] == run;
      var v, e := Run(w0, run[..n]).value, run[n];
      RunShows(w0, protocol, run[..n], v);
      RunKeepsInv(w0, protocol, run[..n], v);
      match e
      case Initiate => HandlerShows(v, run[..n], e);
      case HandlerRuns(_) => HandlerShows(v, run[..n], e);
      case TimerExpires => CloseShows(v, run[..n], e);
      case TimerRuns(_) => CloseShows(v, run[..n], e);
      case OwnerCloses => CloseShows(v, run[..n], e);
      case _ => NetworkShows(v, run[..n], e);
    }
  }

  // The timer is not set before the connect begins; then it is armed until it expires or the
  // operation completes.
  lemma TimeoutIsSet(w0: World, protocol: int, run: seq<Event>, w: World)
    requires Reached(w0, protocol, run, w)
    ensures w.timer == TimerOf(run)
    ensures HandlersRun(run) == 0 ==> w.timer == Idle
    ensures HandlersRun(run) == 1 && w.completions == [] ==> (w.timer == Armed <==> TimerExpires !in run)
  {
    RunShows(w0, protocol, run, w);
    RunKeepsInv(w0, protocol, run, w);
    if w.completions == [] {
      RunIsArmedUntilExpiry(w0, protocol, run, w);
    }
  }

  lemma {:induction false} RunIsArmedUntilExpiry(w0: World, protocol: int, run: seq<Event>, w: World)
    requires Reached(w0, protocol, run, w) && w.completions == []
    ensures if HandlersRun(run) == 1 then w.timer == Armed <==> TimerExpires !in run else TimerExpires !in run
  {
    RunKeepsInv(w0, protocol, run, w);
    if run != [] {
      var n := |run| - 1;
      assert run[..n] + [run[n]] == run;
      var v := Run(w0, run[..n]).value;
      RunKeepsInv(w0, protocol, run[..n], v);
      RunIsArmedUntilExpiry(w0, protocol, run[..n], v);
    }
  }

  // The resolver is asked for the family that the protocol names.
  lemma ResolvesFamily(w0: World, protocol: int, run: seq<Event>, w: World, family: Family)
    requires Reached(w0, protocol, run, w) && w.pending == [Resolving(family)]
    ensures family == match protocol case 4 => OnlyV4 case 6 => OnlyV6 case _ => AnyFamily
  {
    RunShows(w0, protocol, run, w);
    RunKeepsInv(w0, protocol, run, w);
  }

  // With a filter only addresses of that family are tried, each endpoint in its turn: those left
  // are the results without the first ones, one for each attempt that failed.
  lemma AttemptsInOrder(w0: World, protocol: int, run: seq<Event>, w: World)
    requires Reached(w0, protocol, run, w) && w.pending != [] && w.pending[0].Connecting?
    ensures Failures(run) < |Results(run)| && w.pending[0].endpoints == Results(run)[Failures(run)..]
    ensures Filtered(protocol, Results(run))
  {
    RunShows(w0, protocol, run, w);
    RunKeepsInv(w0, protocol, run, w);
  }

  // What the handler of the connect is given, and with it what the operation delivers, is the first
  // success, the failure of the last endpoint, not_found or the abort.
  lemma ConnectEndsWith(w0: World, protocol: int, run: seq<Event>, w: World, handler: Handler)
    requires Reached(w0, protocol, run, w) && Enabled(w, HandlerRuns(handler)) && HandlersRun(run) == 1
    ensures handler.error == Outcome(run)
    ensures Step(w, HandlerRuns(handler)).completions
         == [if Outcome(run) == OperationAborted then TimedOut
             else if Outcome(run) == NoError && ClosedSince(run) then TimedOut
             else Outcome(run)]
  {
    RunShows(w0, protocol, run, w);
    RunKeepsInv(w0, protocol, run, w);
    CompletionIsVerdict(w0, protocol, run, w, HandlerRuns(handler));
  }

  // A connect that nobody answers times out: the timer closes the socket and timed_out is reported.
  lemma TimeoutIsReachable(w0: World, protocol: int, endpoint: Endpoint) returns (run: seq<Event>, w: World)
    requires Initial(w0, protocol) && IsProtocol(protocol) && Filtered(protocol, [endpoint])
    ensures Reached(w0, protocol, run, w) && TimerRuns(NoError) in run && OwnerCloses !in run
    ensures w.completions == [TimedOut] && !w.socketOpen
  {
    run, w := ConnectIsReachable(w0, protocol, endpoint);
    run, w := Happens(w0, protocol, run, w, TimerExpires);
    run, w := Happens(w0, protocol, run, w, TimerRuns(NoError));
    run, w := Happens(w0, protocol, run, w, HandlerRuns(Resumed(OperationAborted, [])));
  }

  lemma ConnectIsReachable(w0: World, protocol: int, endpoint: Endpoint) returns (run: seq<Event>, w: World)
    requires Initial(w0, protocol) && IsProtocol(protocol) && Filtered(protocol, [endpoint])
    ensures Reached(w0, protocol, run, w) && OwnerCloses !in run
    ensures w.coro == AfterConnect && w.socketOpen && w.timer == Armed && w.completions == []
    ensures w.pending == [Connecting([endpoint])] && w.ready == []
  {
    run, w := [], w0;
    run, w := Happens(w0, protocol, run, w, Initiate);
    run, w := Happens(w0, protocol, run, w, ResolveAnswered(NoError, [endpoint]));
    run, w := Happens(w0, protocol, run, w, HandlerRuns(Resumed(NoError, [endpoint])));
  }

  ghost function StepsLeft(w: World): nat {
    match w.coro
    case AtStart => 3
    case AfterResolve => 2
    case AfterConnect => 1
    case Terminated => 0
  }

  ghost function CallsMade(run: seq<Event>): nat {
    if run == [] then 0
    else CallsMade(run[..|run| - 1]) + (if run[|run| - 1].Initiate? || run[|run| - 1].HandlerRuns? then 1 else 0)
  }

  // The coroutine is entered at most three times, and until it completes either the network owes
  // an answer or it can be entered.
  lemma {:induction false} CompletesInBoundedSteps(w0: World, protocol: int, run: seq<Event>, w: World)
    requires Reached(w0, protocol, run, w)
    ensures CallsMade(run) + StepsLeft(w) <= 3
    ensures w.completions == [] && w.pending == [] ==>
              (w.coro == AtStart && Enabled(w, Initiate)) || (|w.ready| == 1 && Enabled(w, HandlerRuns(w.ready[0])))
  {
    RunKeepsInv(w0, protocol, run, w);
    if run != [] {
      var n := |run| - 1;
      var v := Run(w0, run[..n]).value;
      RunKeepsInv(w0, protocol, run[..n], v);
      CompletesInBoundedSteps(w0, protocol, run[..n], v);
    }
  }

  // The timer expired as event i of the run, when nothing had been delivered yet.
  ghost predicate ExpiredUncompleted(w0: World, run: seq<Event>, i: int) {
    0 <= i < |run| && run[i] == TimerExpires && Run(w0, run[..i]).Some? && Run(w0, run[..i]).value.completions == []
  }

  // A timer that still closes the socket after a completion had expired before that completion.
  lemma {:induction false} LateCloseExpiredBefore(w0: World, protocol: int, run: seq<Event>, w: World)
    requires Reached(w0, protocol, run, w) && Enabled(w, TimerRuns(NoError))
    ensures exists i :: ExpiredUncompleted(w0, run, i)
  {
    var n := |run| - 1;
    var v := Run(w0, run[..n]).value;
    RunKeepsInv(w0, protocol, run[..n], v);
    if run[n] != TimerExpires {
      assert Enabled(v, TimerRuns(NoError));
      LateCloseExpiredBefore(w0, protocol, run[..n], v);
      var i :| ExpiredUncompleted(w0, run[..n], i);
      assert run[..n][..i] == run[..i];
      assert ExpiredUncompleted(w0, run, i);
    } else {
      assert ExpiredUncompleted(w0, run, n);
    }
  }
}
