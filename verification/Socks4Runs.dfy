// What holds of every run of the SOCKS4 handshake, in every interleaving of resolve, write, read,
// timeout and close, and for every way the network splits the bytes.

module Socks4Runs {
  import opened Wrappers
  import opened Net
  import opened Asio
  import opened Socks4

  // ---------- what a run says by itself, without looking at any world ----------

  // The socket has been closed by its owner or by the timer callback.
  ghost predicate Closed(run: seq<Event>) {
    exists i :: 0 <= i < |run| && Closes(run[i])
  }

  ghost predicate Closes(e: Event) {
    e.OwnerCloses? || (e.TimerRuns? && e.error != OperationAborted)
  }

  // The number of transfers (first the write, then the read) whose handler has run.
  ghost function TransfersRun(run: seq<Event>): nat {
    if run == [] then 0
    else
      var last := run[|run| - 1];
      TransfersRun(run[..|run| - 1]) + (if last.HandlerRuns? && last.handler.Transferred? then 1 else 0)
  }

  // Every handler of the handshake that has run was given no error.
  ghost predicate AllSucceeded(run: seq<Event>) {
    forall i :: 0 <= i < |run| && run[i].HandlerRuns? ==> run[i].handler.error == NoError
  }

  // The bytes of the reply, however they were split.
  ghost function ReplyBytes(run: seq<Event>): seq<Byte> {
    if run == [] then []
    else
      var last := run[|run| - 1];
      ReplyBytes(run[..|run| - 1]) + (if last.Arrived? then last.bytes else [])
  }

  // The first IPv4 address of a successful resolve whose handler has run.
  ghost function Target(run: seq<Event>): Option<Octets> {
    if run == [] then None
    else
      var last := run[|run| - 1];
      if last.HandlerRuns? && last.handler.Resolved? && last.handler.error == NoError
      then FirstV4(last.handler.addresses)
      else Target(run[..|run| - 1])
  }

  // What the event e after the run delivers to the completion handler, if anything.
  ghost function Verdict(run: seq<Event>, e: Event): Option<Error> {
    if !e.HandlerRuns? then None
    else match e.handler
      case Resolved(error, addresses) =>
        if error != NoError then Some(error)
        else if forall a <- addresses :: a.V6? then Some(HostNotFound)
        else None
      case Transferred(error) =>
        if TransfersRun(run) == 0 then                                     // the write
          if error != NoError then Some(error)
          else if Closed(run) then Some(TimedOut)
          else None
        else if error != NoError then                                      // the read
          Some(if error == OperationAborted then TimedOut else error)
        else if Closed(run) then Some(TimedOut)
        else if |ReplyBytes(run)| < 2 then None
        else if ReplyBytes(run)[0] != 0 then Some(ProtocolNotSupported)
        else Some(StatusError(ReplyBytes(run)[1]))
  }

  // ---------- the invariant ----------

  ghost function Tokens(w: World): nat {
    (if w.state == Start then 1 else 0) + |w.pending| + |w.ready| + |w.completions|
  }

  ghost predicate Inv(w: World, run: seq<Event>) {
    && |w.request| == REQUEST_LENGTH && |w.reply| == REPLY_LENGTH
    && Tokens(w) == 1
    && (w.socketOpen ==> !Closed(run))
    && (w.completions == [] ==> w.buffersHeld && AllSucceeded(run) && (!w.socketOpen ==> Closed(run)))
    && match w.state
       case Start =>
         w.timer == Idle && TransfersRun(run) == 0 && ReplyBytes(run) == [] && w.wire == []
       case HandleResolve =>
         && w.timer == Idle && TransfersRun(run) == 0 && ReplyBytes(run) == [] && w.wire == []
         && (w.pending != [] ==> w.pending[0] == Resolving)
         && (w.ready != [] ==> w.ready[0].Resolved?)
       case HandleRequestWrite =>
         && w.timer != Idle && Target(run).Some? && w.request == Encode(w.port, Target(run).value)
         && ReplyBytes(run) == []
         && TransfersRun(run) == |w.completions|
         && w.wire <= w.request
         && (w.completions != [] && AllSucceeded(run) ==> w.wire == w.request)
         && (w.pending != [] ==> w.socketOpen && w.pending[0].Writing? && w.pending[0].written < REQUEST_LENGTH
                                 && w.wire == w.request[..w.pending[0].written])
         && (w.ready != [] ==> w.ready[0].Transferred? && (w.ready[0].error == NoError ==> w.wire == w.request))
       case HandleReadResponse =>
         && w.timer != Idle && Target(run).Some? && w.wire == Encode(w.port, Target(run).value)
         && TransfersRun(run) == 1 + |w.completions|
         && (w.completions != [] ==> w.timer != Armed)
         && (w.pending != [] ==> w.socketOpen && w.pending[0].Reading? && w.pending[0].received < REPLY_LENGTH
                                 && ReplyBytes(run) == w.reply[..w.pending[0].received])
         && (w.ready != [] ==> w.ready[0].Transferred? && (w.ready[0].error == NoError ==> ReplyBytes(run) == w.reply))
  }

  lemma Snoc(run: seq<Event>, e: Event)
    ensures (run + [e])[..|run|] == run && (run + [e])[|run|] == e
    ensures Closed(run + [e]) == (Closed(run) || Closes(e))
  {
    if Closed(run) {
      var i :| 0 <= i < |run| && Closes(run[i]);
      assert (run + [e])[i] == run[i];
    }
    assert (run + [e])[|run|] == e;
  }

  lemma {:induction false} FirstV4Some(addresses: seq<Address>)
    ensures FirstV4(addresses).None? <==> forall a <- addresses :: a.V6?
  {
    if addresses != [] {
      FirstV4Some(addresses[1..]);
      assert addresses[0] in addresses;
      assert forall a :: a in addresses <==> a == addresses[0] || a in addresses[1..];
    }
  }

  // One event keeps the invariant and delivers exactly what the verdict says.
  ghost predicate Advances(w: World, run: seq<Event>, e: Event)
    requires Enabled(w, e)
  {
    var v := Step(w, e);
    && Inv(v, run + [e])
    && v.port == w.port
    && v.completions == match Verdict(run, e) case None => w.completions case Some(error) => w.completions + [error]
  }

  lemma AnswersAdvance(w: World, run: seq<Event>, e: Event)
    requires Inv(w, run) && Enabled(w, e)
    requires e.Initiate? || e.ResolveAnswered? || e.TransferFailed? || e.TimerExpires?
    ensures Advances(w, run, e)
  {
    Snoc(run, e);
  }

  lemma WroteAdvances(w: World, run: seq<Event>, n: nat)
    requires Inv(w, run) && Enabled(w, Wrote(n))
    ensures Advances(w, run, Wrote(n))
  {
    Snoc(run, Wrote(n));
  }

  lemma ArrivedAdvances(w: World, run: seq<Event>, bytes: seq<Byte>)
    requires Inv(w, run) && Enabled(w, Arrived(bytes))
    ensures Advances(w, run, Arrived(bytes))
  {
    Snoc(run, Arrived(bytes));
  }

  lemma ClosingKeepsInv(w: World, run: seq<Event>, e: Event)
    requires Inv(w, run) && Closes(e)
    ensures Inv(CloseSocket(w), run + [e])
  {
    Snoc(run, e);
    match w.state
    case Start =>
    case HandleResolve =>
    case HandleRequestWrite =>
    case HandleReadResponse =>
  }

  lemma OwnerCloseAdvances(w: World, run: seq<Event>)
    requires Inv(w, run)
    ensures Advances(w, run, OwnerCloses)
  {
    ClosingKeepsInv(w, run, OwnerCloses);
  }

  lemma TimerRanKeepsInv(w: World, run: seq<Event>)
    requires Inv(w, run) && w.timer.Ready?
    ensures Inv(w.(timer := Ran), run)
  {
  }

  lemma TimerAdvances(w: World, run: seq<Event>, error: Error)
    requires Inv(w, run) && Enabled(w, TimerRuns(error))
    ensures Advances(w, run, TimerRuns(error))
  {
    var e, v := TimerRuns(error), w.(timer := Ran);
    Snoc(run, e);
    if error != OperationAborted {
      TimerRanKeepsInv(w, run);
      ClosingKeepsInv(v, run, e);
    }
  }

  lemma ResolvedAdvances(w: World, run: seq<Event>, e: Event)
    requires Inv(w, run) && Enabled(w, e) && e.HandlerRuns? && e.handler.Resolved?
    ensures Advances(w, run, e)
  {
    Snoc(run, e);
    FirstV4Some(e.handler.addresses);
  }

  lemma TransferredAdvances(w: World, run: seq<Event>, e: Event)
    requires Inv(w, run) && Enabled(w, e) && e.HandlerRuns? && e.handler.Transferred?
    ensures Advances(w, run, e)
  {
    Snoc(run, e);
  }

  lemma StepAdvances(w: World, run: seq<Event>, e: Event)
    requires Inv(w, run) && Enabled(w, e)
    ensures Advances(w, run, e)
  {
    match e
    case Wrote(n) => WroteAdvances(w, run, n);
    case Arrived(bytes) => ArrivedAdvances(w, run, bytes);
    case TimerRuns(error) => TimerAdvances(w, run, error);
    case OwnerCloses => OwnerCloseAdvances(w, run);
    case HandlerRuns(Resolved(_, _)) => ResolvedAdvances(w, run, e);
    case HandlerRuns(Transferred(_)) => TransferredAdvances(w, run, e);
    case _ => AnswersAdvance(w, run, e);
  }

  lemma {:induction false} RunKeepsInv(w0: World, run: seq<Event>, w: World, port: Word)
    requires Initial(w0, port) && Run(w0, run) == Some(w)
    ensures Inv(w, run) && w.port == port
  {
    if run != [] {
      var n := |run| - 1;
      var v := Run(w0, run[..n]).value;
      RunKeepsInv(w0, run[..n], v, port);
      StepAdvances(v, run[..n], run[n]);
      assert run[..n] + [run[n]] == run;
    }
  }

  // ---------- completion ----------

  // w is a world that some run leads to, and e can happen next.
  ghost predicate Reached(w0: World, port: Word, run: seq<Event>, w: World) {
    Initial(w0, port) && Run(w0, run) == Some(w)
  }

  // In every reachable world the operation is in exactly one place: the initial call, one pending
  // operation, one queued handler or one delivered completion. The assertions at the head of the
  // handlers hold whenever a handler can run.
  lemma OnePlace(w0: World, port: Word, run: seq<Event>, w: World)
    requires Reached(w0, port, run, w)
    ensures Tokens(w) == 1
    ensures forall addresses :: Enabled(w, HandlerRuns(Resolved(NoError, addresses))) ==> w.state == HandleResolve
    ensures forall error :: Enabled(w, HandlerRuns(Transferred(error))) ==>
              w.state == HandleRequestWrite || w.state == HandleReadResponse
  {
    RunKeepsInv(w0, run, w, port);
  }

  // What is delivered, and when, is a function of the run alone.
  lemma CompletionIsVerdict(w0: World, port: Word, run: seq<Event>, w: World, e: Event)
    requires Reached(w0, port, run, w) && Enabled(w, e)
    ensures Step(w, e).completions == match Verdict(run, e) case None => w.completions case Some(error) => [error]
    ensures Verdict(run, e).Some? ==> w.completions == []
  {
    RunKeepsInv(w0, run, w, port);
    StepAdvances(w, run, e);
    if Verdict(run, e).Some? {
      assert Tokens(Step(w, e)) == 1;
    }
  }

  // The read has finished without error on a socket nobody closed, after a resolve and a write
  // that succeeded too.
  ghost predicate ReplyComplete(run: seq<Event>, e: Event) {
    && e == HandlerRuns(Transferred(NoError))
    && AllSucceeded(run) && Target(run).Some? && TransfersRun(run) == 1
    && !Closed(run)
    && |ReplyBytes(run)| == REPLY_LENGTH
  }

  lemma Delivers(error: Error)
    ensures [] + [error] == [error] && ([error] == [NoError] <==> error == NoError)
  {
    assert [error][0] == error && [NoError][0] == NoError;
  }

  // One event, from a reachable world that has not completed: what it delivers is the verdict.
  lemma NextDelivers(w0: World, port: Word, run: seq<Event>, w: World, e: Event)
    requires Reached(w0, port, run, w) && Enabled(w, e) && w.completions == []
    ensures Step(w, e).completions == match Verdict(run, e) case None => [] case Some(error) => [error]
    ensures Step(w, e).completions == [NoError] <==> Verdict(run, e) == Some(NoError)
  {
    RunKeepsInv(w0, run, w, port);
    StepAdvances(w, run, e);
    if Verdict(run, e).Some? {
      Delivers(Verdict(run, e).value);
    }
  }

  // Without error the handshake ends with a reply that refuses nothing; of all complete replies,
  // only those of another protocol and those that grant the request leave the socket open.
  lemma ReplyDecides(w0: World, port: Word, run: seq<Event>, w: World, e: Event)
    requires Reached(w0, port, run, w) && Enabled(w, e) && w.completions == []
    ensures Verdict(run, e) == Some(NoError)
      <==> ReplyComplete(run, e) && ReplyBytes(run)[0] == 0 && !(0x5b <= ReplyBytes(run)[1] <= 0x5d)
    ensures ReplyComplete(run, e) ==>
              (Step(w, e).socketOpen <==> ReplyBytes(run)[0] != 0 || ReplyBytes(run)[1] == 0x5a)
  {
    RunKeepsInv(w0, run, w, port);
  }

  lemma SuccessIff(w0: World, port: Word, run: seq<Event>, w: World, e: Event)
    requires Reached(w0, port, run, w) && Enabled(w, e) && w.completions == []
    ensures Step(w, e).completions == [NoError] && Step(w, e).socketOpen
      <==> ReplyComplete(run, e) && ReplyBytes(run)[0] == 0x00 && ReplyBytes(run)[1] == 0x5a
  {
    ReplyDecides(w0, port, run, w, e);
    NextDelivers(w0, port, run, w, e);
  }

  // A server that refuses with a status the protocol does not define makes the handshake report
  // success on a closed socket. This is the only way.
  lemma SuccessOnClosedSocketIff(w0: World, port: Word, run: seq<Event>, w: World, e: Event)
    requires Reached(w0, port, run, w) && Enabled(w, e) && w.completions == []
    ensures Step(w, e).completions == [NoError] && !Step(w, e).socketOpen
      <==> ReplyComplete(run, e) && ReplyBytes(run)[0] == 0x00 && !(0x5a <= ReplyBytes(run)[1] <= 0x5d)
  {
    ReplyDecides(w0, port, run, w, e);
    NextDelivers(w0, port, run, w, e);
  }

  // The handshake fails without closing the socket when the reply is not SOCKS4.
  lemma WrongProtocolLeavesSocketOpen(w0: World, port: Word, run: seq<Event>, w: World, e: Event)
    requires Reached(w0, port, run, w) && Enabled(w, e) && w.completions == []
    requires ReplyComplete(run, e)
    ensures ReplyBytes(run)[0] != 0 <==> Step(w, e).completions == [ProtocolNotSupported]
    ensures Step(w, e).socketOpen <==> ReplyBytes(run)[0] != 0 || ReplyBytes(run)[1] == 0x5a
  {
    RunKeepsInv(w0, run, w, port);
    StepAdvances(w, run, e);
  }

  // A refusal with a status of the protocol closes the socket and reports why.
  lemma RefusalIsReported(w0: World, port: Word, run: seq<Event>, w: World, e: Event)
    requires Reached(w0, port, run, w) && Enabled(w, e) && w.completions == []
    requires ReplyComplete(run, e) && ReplyBytes(run)[0] == 0
    ensures var status, v := ReplyBytes(run)[1], Step(w, e);
            && (status == 0x5b ==> v.completions == [Interrupted] && !v.socketOpen)
            && (status == 0x5c ==> v.completions == [OperationNotPermitted] && !v.socketOpen)
            && (status == 0x5d ==> v.completions == [OperationNotPermitted] && !v.socketOpen)
  {
    RunKeepsInv(w0, run, w, port);
    StepAdvances(w, run, e);
  }

  // A write error is passed on as it is, even an abort by the timeout, and leaves the timer alone.
  lemma WriteErrorIsRaw(w0: World, port: Word, run: seq<Event>, w: World, error: Error)
    requires Reached(w0, port, run, w) && Enabled(w, HandlerRuns(Transferred(error)))
    requires TransfersRun(run) == 0 && error != NoError
    ensures var v := Step(w, HandlerRuns(Transferred(error))); v.completions == [error] && v.timer == w.timer
  {
    RunKeepsInv(w0, run, w, port);
  }

  // The timeout is meant for the entire operation. After a close it is reported as timed_out exactly
  // if the handler comes with a success (or that error), or with an abort of the read; an abort of
  // the write is not.
  lemma TimeoutIsReportedIff(w0: World, port: Word, run: seq<Event>, w: World, error: Error)
    requires Reached(w0, port, run, w) && Enabled(w, HandlerRuns(Transferred(error)))
    requires Closed(run)
    ensures Step(w, HandlerRuns(Transferred(error))).completions == [TimedOut]
      <==> error == NoError || error == TimedOut || (error == OperationAborted && TransfersRun(run) > 0)
  {
    RunKeepsInv(w0, run, w, port);
    assert w.completions == [];
    NextDelivers(w0, port, run, w, HandlerRuns(Transferred(error)));
    if Verdict(run, HandlerRuns(Transferred(error))).Some? {
      assert [TimedOut][0] == TimedOut;
    }
  }

  // Once the timer (or the owner) has closed the socket, no handler reports success, not even one
  // that was queued with a success before.
  lemma ClosedNeverSucceeds(w0: World, port: Word, run: seq<Event>, w: World, e: Event)
    requires Reached(w0, port, run, w) && Enabled(w, e) && w.completions == []
    requires Closed(run)
    ensures Step(w, e).completions != [NoError]
    ensures w.ready == [Transferred(NoError)] && e == HandlerRuns(w.ready[0]) ==> Step(w, e).completions == [TimedOut]
  {
    NextDelivers(w0, port, run, w, e);
  }

  lemma RunSnoc(w: World, events: seq<Event>, v: World, e: Event)
    requires Run(w, events) == Some(v) && Enabled(v, e)
    ensures Run(w, events + [e]) == Some(Step(v, e))
  {
    assert (events + [e])[..|events|] == events;
  }

  // Every reply of eight bytes can be the complete reply to a request for any target, so none of
  // the cases above is empty.
  lemma EveryReplyIsReachable(w0: World, port: Word, target: Octets, reply: seq<Byte>)
    returns (run: seq<Event>, w: World)
    requires Initial(w0, port) && |reply| == REPLY_LENGTH
    ensures Reached(w0, port, run, w) && w.completions == [] && w.state == HandleReadResponse && w.timer == Armed
    ensures Enabled(w, HandlerRuns(Transferred(NoError))) && ReplyComplete(run, HandlerRuns(Transferred(NoError)))
    ensures ReplyBytes(run) == reply && Target(run) == Some(target)
  {
    run, w := RequestIsReachable(w0, port, target);
    var e, u := Arrived(reply), w;
    RunKeepsInv(w0, run, u, port);
    RunSnoc(w0, run, u, e);
    StepAdvances(u, run, e);
    Snoc(run, e);
    assert [] + reply == reply;
    run, w := run + [e], Step(u, e);
  }

  lemma RequestIsReachable(w0: World, port: Word, target: Octets) returns (run: seq<Event>, w: World)
    requires Initial(w0, port)
    ensures Reached(w0, port, run, w) && w.completions == [] && Target(run) == Some(target)
    ensures w.state == HandleReadResponse && w.pending == [Reading(0)] && w.ready == [] && w.timer == Armed
    ensures !Closed(run) && AllSucceeded(run) && ReplyBytes(run) == [] && TransfersRun(run) == 1
  {
    run, w := WriteIsReachable(w0, port, target);
    run, w := Happens(w0, port, run, w, Wrote(REQUEST_LENGTH));
    run, w := Happens(w0, port, run, w, HandlerRuns(Transferred(NoError)));
    RunKeepsInv(w0, run, w, port);
  }

  lemma WriteIsReachable(w0: World, port: Word, target: Octets) returns (run: seq<Event>, w: World)
    requires Initial(w0, port)
    ensures Reached(w0, port, run, w) && Target(run) == Some(target)
    ensures |w.request| == REQUEST_LENGTH && |w.reply| == REPLY_LENGTH
    ensures w.state == HandleRequestWrite && w.pending == [Writing(0)] && w.ready == []
    ensures w.socketOpen && w.timer == Armed && w.completions == []
    ensures TimerExpires !in run && OwnerCloses !in run
  {
    run, w := [], w0;
    run, w := Happens(w0, port, run, w, Initiate);
    run, w := Happens(w0, port, run, w, ResolveAnswered(NoError, [V4(target)]));
    run, w := Happens(w0, port, run, w, HandlerRuns(Resolved(NoError, [V4(target)])));
  }

  lemma ExpiredWriteIsReachable(w0: World, port: Word, target: Octets) returns (run: seq<Event>, w: World)
    requires Initial(w0, port)
    ensures Reached(w0, port, run, w) && Target(run) == Some(target) && OwnerCloses !in run
    ensures |w.request| == REQUEST_LENGTH && |w.reply| == REPLY_LENGTH
    ensures w.state == HandleRequestWrite && w.pending == [Writing(0)] && w.ready == []
    ensures w.socketOpen && w.timer == Ready(NoError) && w.completions == []
  {
    run, w := WriteIsReachable(w0, port, target);
    run, w := Happens(w0, port, run, w, TimerExpires);
  }

  lemma TimeoutAbortsWrite(w: World)
    requires |w.request| == REQUEST_LENGTH && |w.reply| == REPLY_LENGTH
    requires w.state == HandleRequestWrite && w.pending == [Writing(0)] && w.ready == [] && w.socketOpen
    requires w.timer == Ready(NoError) && w.completions == []
    ensures var v := Step(w, TimerRuns(NoError));
            && Enabled(v, HandlerRuns(Transferred(OperationAborted))) && !v.socketOpen
            && Step(v, HandlerRuns(Transferred(OperationAborted))) == v.(ready := [], completions := [OperationAborted])
  {
  }

  // The timeout closes the socket during the write, for any target, and the handshake reports
  // operation_aborted.
  lemma AbortedWriteIsReachable(w0: World, port: Word, target: Octets) returns (run: seq<Event>, w: World)
    requires Initial(w0, port)
    ensures Reached(w0, port, run, w) && Target(run) == Some(target)
    ensures TimerRuns(NoError) in run && OwnerCloses !in run
    ensures w.completions == [OperationAborted] && !w.socketOpen
  {
    var before, v := ExpiredWriteIsReachable(w0, port, target);
    TimeoutAbortsWrite(v);
    run, w := Happens(w0, port, before, v, TimerRuns(NoError));
    run, w := Happens(w0, port, run, w, HandlerRuns(Transferred(OperationAborted)));
    assert run == before + [TimerRuns(NoError), HandlerRuns(Transferred(OperationAborted))];
  }

  lemma Happens(w0: World, port: Word, run: seq<Event>, w: World, e: Event) returns (run': seq<Event>, w': World)
    requires Reached(w0, port, run, w) && Enabled(w, e)
    ensures Reached(w0, port, run', w') && w' == Step(w, e) && run' == run + [e]
    ensures Target(run') == if e.HandlerRuns? && e.handler.Resolved? && e.handler.error == NoError
                            then FirstV4(e.handler.addresses) else Target(run)
  {
    RunSnoc(w0, run, w, e);
    Snoc(run, e);
    run', w' := run + [e], Step(w, e);
  }

  // ---------- the socket, the buffers and the timer, from the events alone ----------

  // A complete reply of the protocol has been handled.
  ghost predicate Answered(run: seq<Event>) {
    run != [] &&
    var front, last := run[..|run| - 1], run[|run| - 1];
    (ReplyComplete(front, last) && ReplyBytes(front)[0] == 0) || Answered(front)
  }

  // It did not grant the request.
  ghost predicate Refused(run: seq<Event>) {
    run != [] &&
    var front, last := run[..|run| - 1], run[|run| - 1];
    (ReplyComplete(front, last) && ReplyBytes(front)[0] == 0 && ReplyBytes(front)[1] != 0x5a) || Refused(front)
  }

  // The resolve arms the timer, if it gives an address to connect to; the end of the read cancels
  // it; an expiry and a cancelled wait are queued, and then run once.
  ghost function TimerOf(run: seq<Event>): Timer {
    if run == [] then Idle
    else
      var front := run[..|run| - 1];
      match run[|run| - 1]
      case TimerExpires => Ready(NoError)
      case TimerRuns(_) => Ran
      case HandlerRuns(Resolved(NoError, addresses)) =>
        if forall a <- addresses :: a.V6? then TimerOf(front) else Armed
      case HandlerRuns(Transferred(_)) =>
        if TransfersRun(front) == 1 && TimerOf(front) == Armed then Ready(OperationAborted) else TimerOf(front)
      case _ => TimerOf(front)
  }

  ghost function BytesWritten(run: seq<Event>): nat {
    if run == [] then 0
    else BytesWritten(run[..|run| - 1]) + (if run[|run| - 1].Wrote? then run[|run| - 1].count else 0)
  }

  // What a world shows of a run that led to it.
  ghost predicate Shows(w: World, run: seq<Event>) {
    && (w.socketOpen <==> !Closed(run) && !Refused(run))
    && (w.buffersHeld <==> !Answered(run))
    && w.timer == TimerOf(run)
    && |w.wire| == BytesWritten(run)
  }

  // The handlers of the handshake only complete or go on; how is in the verdict and the reply.
  lemma TransferredShows(w: World, run: seq<Event>, e: Event)
    requires Inv(w, run) && Shows(w, run) && Enabled(w, e) && e.HandlerRuns? && e.handler.Transferred?
    ensures Shows(Step(w, e), run + [e])
  {
    Snoc(run, e);
  }

  lemma ResolvedShows(w: World, run: seq<Event>, e: Event)
    requires Inv(w, run) && Shows(w, run) && Enabled(w, e) && e.HandlerRuns? && e.handler.Resolved?
    ensures Shows(Step(w, e), run + [e])
  {
    Snoc(run, e);
    FirstV4Some(e.handler.addresses);
  }

  lemma OthersShow(w: World, run: seq<Event>, e: Event)
    requires Inv(w, run) && Shows(w, run) && Enabled(w, e) && !e.HandlerRuns?
    ensures Shows(Step(w, e), run + [e])
  {
    Snoc(run, e);
  }

  lemma {:induction false} RunShows(w0: World, port: Word, run: seq<Event>, w: World)
    requires Reached(w0, port, run, w)
    ensures Shows(w, run)
  {
    if run != [] {
      var n := |run| - 1;
      assert run[..n] + [run[n]] == run;
      var v, e := Run(w0, run[..n]).value, run[n];
      RunShows(w0, port, run[..n], v);
      RunKeepsInv(w0, run[..n], v, port);
      if !e.HandlerRuns? {
        OthersShow(v, run[..n], e);
      } else if e.handler.Resolved? {
        ResolvedShows(v, run[..n], e);
      } else {
        TransferredShows(v, run[..n], e);
      }
    }
  }

  // The socket is closed exactly if its owner or an expired timer closed it, or a complete reply of
  // the protocol did not grant the request. No other event touches it, before or after completion;
  // the callback of a cancelled wait does not.
  lemma SocketIsOpenIff(w0: World, port: Word, run: seq<Event>, w: World)
    requires Reached(w0, port, run, w)
    ensures w.socketOpen <==> !Closed(run) && !Refused(run)
    ensures Enabled(w, TimerRuns(OperationAborted)) ==>
              Step(w, TimerRuns(OperationAborted)) == w.(timer := Ran)
  {
    RunShows(w0, port, run, w);
  }

  // The buffers are given back exactly after a complete reply of the protocol, and never while an
  // operation or a handler may still use them.
  lemma BuffersAreHeldIff(w0: World, port: Word, run: seq<Event>, w: World)
    requires Reached(w0, port, run, w)
    ensures w.buffersHeld <==> !Answered(run)
    ensures w.pending != [] || w.ready != [] ==> w.buffersHeld
  {
    RunShows(w0, port, run, w);
    RunKeepsInv(w0, run, w, port);
  }

  lemma GrantedIsReachable(w0: World, port: Word, target: Octets) returns (run: seq<Event>, w: World)
    requires Initial(w0, port)
    ensures Reached(w0, port, run, w) && Target(run) == Some(target) && w.completions == [NoError] && w.socketOpen
    ensures Enabled(w, TimerRuns(OperationAborted))
  {
    var before, v := EveryReplyIsReachable(w0, port, target, [0, 0x5a, 0, 0, 0, 0, 0, 0]);
    var e := HandlerRuns(Transferred(NoError));
    SuccessIff(w0, port, before, v, e);
    run, w := Happens(w0, port, before, v, e);
  }

  // A connection that was granted is still open after the callback of the timer cancelled then.
  lemma GrantedStaysOpen(w0: World, port: Word, target: Octets) returns (run: seq<Event>, w: World)
    requires Initial(w0, port)
    ensures Reached(w0, port, run, w) && Target(run) == Some(target)
    ensures TimerRuns(OperationAborted) in run && w.completions == [NoError] && w.socketOpen
  {
    var before, v := GrantedIsReachable(w0, port, target);
    SocketIsOpenIff(w0, port, before, v);
    run, w := Happens(w0, port, before, v, TimerRuns(OperationAborted));
  }

  // ---------- progress ----------

  // The number of calls into the handshake that can still happen.
  ghost function StepsLeft(w: World): nat {
    if w.completions != [] then 0
    else match w.state
      case Start => 4
      case HandleResolve => 3
      case HandleRequestWrite => 2
      case HandleReadResponse => 1
  }

  ghost function CallsMade(run: seq<Event>): nat {
    if run == [] then 0
    else CallsMade(run[..|run| - 1]) + (if run[|run| - 1].Initiate? || run[|run| - 1].HandlerRuns? then 1 else 0)
  }

  lemma AnswersKeepSteps(w: World, e: Event)
    requires Enabled(w, e) && !e.Initiate? && !e.HandlerRuns?
    ensures StepsLeft(Step(w, e)) == StepsLeft(w)
  {
  }

  lemma CallsUseSteps(w: World, run: seq<Event>, e: Event)
    requires Inv(w, run) && Enabled(w, e) && (e.Initiate? || e.HandlerRuns?)
    ensures StepsLeft(Step(w, e)) < StepsLeft(w)
  {
    assert w.completions == [];
  }

  lemma {:induction false} CallsAreBounded(w0: World, port: Word, run: seq<Event>, w: World)
    requires Reached(w0, port, run, w)
    ensures CallsMade(run) + StepsLeft(w) <= 4
  {
    if run != [] {
      var n := |run| - 1;
      var v := Run(w0, run[..n]).value;
      CallsAreBounded(w0, port, run[..n], v);
      if run[n].Initiate? || run[n].HandlerRuns? {
        RunKeepsInv(w0, run[..n], v, port);
        CallsUseSteps(v, run[..n], run[n]);
      } else {
        AnswersKeepSteps(v, run[n]);
      }
    }
  }

  // The handshake is called at most four times, and it is never stuck: until it completes, either
  // the network owes an answer or the next call can be made.
  lemma CompletesInBoundedSteps(w0: World, port: Word, run: seq<Event>, w: World)
    requires Reached(w0, port, run, w)
    ensures CallsMade(run) + StepsLeft(w) <= 4
    ensures w.completions == [] && w.pending == [] ==>
              (w.state == Start && Enabled(w, Initiate)) || (|w.ready| == 1 && Enabled(w, HandlerRuns(w.ready[0])))
  {
    RunKeepsInv(w0, run, w, port);
    CallsAreBounded(w0, port, run, w);
  }

  // ---------- the timer ----------

  // The timer expired as event i of the run, when nothing had been delivered yet.
  ghost predicate ExpiredUncompleted(w0: World, run: seq<Event>, i: int) {
    0 <= i < |run| && run[i] == TimerExpires && Run(w0, run[..i]).Some? && Run(w0, run[..i]).value.completions == []
  }

  lemma TimerOfStep(w: World, e: Event)
    requires Enabled(w, e)
    ensures var t := Step(w, e).timer;
            match e
            case TimerExpires => t == Ready(NoError)
            case TimerRuns(_) => t == Ran
            case HandlerRuns(_) => t == w.timer || t == Armed || t == Cancel(w.timer)
            case _ => t == w.timer
  {
  }

  lemma ExpiryComesFromExpires(w: World, run: seq<Event>, e: Event)
    requires Inv(w, run) && Enabled(w, e)
    requires var v := Step(w, e); v.timer == Ready(NoError) && (v.completions == [] || v.state == HandleReadResponse)
    ensures w.completions == [] || w.state == HandleReadResponse
    ensures if e == TimerExpires then w.completions == [] else w.timer == Ready(NoError)
  {
    TimerOfStep(w, e);
    if e.HandlerRuns? {
      assert w.completions == [];
    }
  }

  lemma {:induction false} ExpiryHasHappened(w0: World, port: Word, run: seq<Event>, w: World)
    requires Reached(w0, port, run, w) && w.timer == Ready(NoError)
    requires w.completions == [] || w.state == HandleReadResponse
    ensures exists i :: ExpiredUncompleted(w0, run, i)
  {
    RunKeepsInv(w0, run, w, port);
    var n := |run| - 1;
    var v := Run(w0, run[..n]).value;
    RunKeepsInv(w0, run[..n], v, port);
    ExpiryComesFromExpires(v, run[..n], run[n]);
    if run[n] != TimerExpires {
      ExpiryHasHappened(w0, port, run[..n], v);
      var i :| ExpiredUncompleted(w0, run[..n], i);
      assert run[..n][..i] == run[..i];
      assert ExpiredUncompleted(w0, run, i);
    } else {
      assert ExpiredUncompleted(w0, run, n);
    }
  }

  // Until the write has completed, an armed timer stays armed until it expires.
  ghost predicate ArmedUntilExpiry(w: World, run: seq<Event>) {
    && (w.state == Start || w.state == HandleResolve ==> TimerExpires !in run)
    && (w.state == HandleRequestWrite ==> (w.timer == Armed <==> TimerExpires !in run))
  }

  lemma StepIsArmedUntilExpiry(w: World, run: seq<Event>, e: Event)
    requires Enabled(w, e) && ArmedUntilExpiry(w, run)
    requires w.state == Start || w.state == HandleResolve ==> w.timer == Idle
    requires e.HandlerRuns? ==> w.state != Start && (e.handler.Resolved? <==> w.state == HandleResolve)
    ensures ArmedUntilExpiry(Step(w, e), run + [e])
  {
    TimerOfStep(w, e);
    assert TimerExpires in run + [e] <==> TimerExpires in run || e == TimerExpires;
  }

  lemma {:induction false} RunIsArmedUntilExpiry(w0: World, port: Word, run: seq<Event>, w: World)
    requires Reached(w0, port, run, w)
    ensures ArmedUntilExpiry(w, run)
  {
    if run != [] {
      var n := |run| - 1;
      assert run[..n] + [run[n]] == run;
      var v := Run(w0, run[..n]).value;
      RunIsArmedUntilExpiry(w0, port, run[..n], v);
      RunKeepsInv(w0, run[..n], v, port);
      assert v.ready != [] ==> v.state != Start && (v.ready[0].Resolved? <==> v.state == HandleResolve);
      StepIsArmedUntilExpiry(v, run[..n], run[n]);
    }
  }

  lemma {:induction false} WaitsExpireOrAreCancelled(run: seq<Event>)
    ensures TimerOf(run).Ready? ==> TimerOf(run).error == NoError || TimerOf(run).error == OperationAborted
  {
    if run != [] {
      WaitsExpireOrAreCancelled(run[..|run| - 1]);
    }
  }

  // After completion the timer is armed exactly if the write was the last step and its expiry did
  // not come before; a completion from the resolver never armed it. After it only the owner and an
  // expired timer close the socket; if the timer does so after the read completed, then its expiry
  // was queued before that.
  lemma TimerAfterCompletion(w0: World, port: Word, run: seq<Event>, w: World)
    requires Reached(w0, port, run, w) && w.completions != []
    ensures w.state == HandleResolve ==> w.timer == Idle
    ensures w.timer == Armed <==> w.state == HandleRequestWrite && TimerExpires !in run
    ensures w.state == HandleReadResponse && Enabled(w, TimerRuns(NoError)) ==>
              exists i :: ExpiredUncompleted(w0, run, i)
    ensures forall e :: Enabled(w, e) && w.socketOpen && !Step(w, e).socketOpen ==>
              e == OwnerCloses || e == TimerRuns(NoError)
  {
    RunKeepsInv(w0, run, w, port);
    RunIsArmedUntilExpiry(w0, port, run, w);
    RunShows(w0, port, run, w);
    WaitsExpireOrAreCancelled(run);
    if w.state == HandleReadResponse && w.timer == Ready(NoError) {
      ExpiryHasHappened(w0, port, run, w);
    }
  }

  // ---------- the wire ----------

  // What has been sent is the beginning of one CONNECT request, as far as the socket took it; once
  // the write has succeeded it is all of it, and the server reads the target from it.
  lemma WireIsConnect(w0: World, port: Word, run: seq<Event>, w: World)
    requires Reached(w0, port, run, w)
    ensures w.wire != [] ==> Target(run).Some?
    ensures Target(run).Some? && w.wire != [] ==>
              BytesWritten(run) <= REQUEST_LENGTH && w.wire == Encode(port, Target(run).value)[..BytesWritten(run)]
    ensures |w.wire| == BytesWritten(run)
    ensures TransfersRun(run) > 0 && AllSucceeded(run) ==>
              Target(run).Some? && |w.wire| == REQUEST_LENGTH
              && ReadConnect(w.wire) == Some((Connect(port, Target(run).value, USER_ID), []))
  {
    RunShows(w0, port, run, w);
    RunKeepsInv(w0, run, w, port);
    if TransfersRun(run) > 0 && AllSucceeded(run) {
      EncodeIsConnect(port, Target(run).value, []);
      assert Encode(port, Target(run).value) + [] == Encode(port, Target(run).value);
    }
  }

  // A resolve without error sends the request to the first IPv4 address among the results, and
  // fails with host_not_found exactly when there is none.
  lemma {:induction false} FirstV4IsFirst(addresses: seq<Address>, i: nat)
    requires i < |addresses| && addresses[i].V4? && forall j :: 0 <= j < i ==> addresses[j].V6?
    ensures FirstV4(addresses) == Some(addresses[i].octets)
  {
    if i > 0 {
      FirstV4IsFirst(addresses[1..], i - 1);
    }
  }

  lemma HostNotFoundIff(w0: World, port: Word, run: seq<Event>, w: World, addresses: seq<Address>)
    requires Reached(w0, port, run, w) && Enabled(w, HandlerRuns(Resolved(NoError, addresses)))
    ensures var v := Step(w, HandlerRuns(Resolved(NoError, addresses)));
            && (v.completions == [HostNotFound] <==> forall a <- addresses :: a.V6?)
            && (v.completions == [] <==> v.state == HandleRequestWrite && v.timer == Armed)
  {
    RunKeepsInv(w0, run, w, port);
    FirstV4Some(addresses);
  }

  // ---------- fragmentation ----------

  ghost function Arrivals(fragments: seq<seq<Byte>>): seq<Event> {
    if fragments == [] then [] else Arrivals(fragments[..|fragments| - 1]) + [Arrived(fragments[|fragments| - 1])]
  }

  ghost function Joined(fragments: seq<seq<Byte>>): seq<Byte> {
    if fragments == [] then [] else Joined(fragments[..|fragments| - 1]) + fragments[|fragments| - 1]
  }

  lemma JoinedNonempty(fragments: seq<seq<Byte>>)
    requires fragments != [] && [] !in fragments
    ensures Joined(fragments) != []
  {
    assert fragments[|fragments| - 1] in fragments;
  }

  lemma ArrivalsJoin(w: World, a: seq<Byte>, b: seq<Byte>)
    requires |w.request| == REQUEST_LENGTH && |w.reply| == REPLY_LENGTH
    requires |w.pending| == 1 && w.pending[0].Reading? && a != [] && b != []
    requires w.pending[0].received + |a| + |b| <= REPLY_LENGTH
    ensures Enabled(OnArrived(w, a), Arrived(b)) && OnArrived(OnArrived(w, a), b) == OnArrived(w, a + b)
  {
    var k := w.pending[0].received;
    assert Overlay(Overlay(w.reply, k, a), k + |a|, b) == Overlay(w.reply, k, a + b);
  }

  // However the network splits the bytes of the reply, the world after them is the same.
  lemma {:induction false} FragmentationIsInvisible(w: World, fragments: seq<seq<Byte>>)
    requires |w.request| == REQUEST_LENGTH && |w.reply| == REPLY_LENGTH
    requires |w.pending| == 1 && w.pending[0].Reading?
    requires fragments != [] && [] !in fragments
    requires w.pending[0].received + |Joined(fragments)| <= REPLY_LENGTH
    ensures Run(w, Arrivals(fragments)) == Some(OnArrived(w, Joined(fragments)))
  {
    var n := |fragments| - 1;
    var before, last := fragments[..n], fragments[n];
    assert last in fragments;
    if before == [] {
      assert Joined(fragments) == last;
      RunSnoc(w, [], w, Arrived(last));
      assert Arrivals(fragments) == [] + [Arrived(last)];
    } else {
      assert [] !in before;
      FragmentationIsInvisible(w, before);
      JoinedNonempty(before);
      ArrivalsJoin(w, Joined(before), last);
      RunSnoc(w, Arrivals(before), OnArrived(w, Joined(before)), Arrived(last));
    }
  }
}
