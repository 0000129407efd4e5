// Classes with a mutex whose write guards count releases (Mutexed.hpp), as interleaved steps of
// any number of threads. The increment is not atomic: it is a load and a store.

module MutexedModel {
  import opened Wrappers
  import opened Counters

  type Thread = nat

  // What a thread is doing with its guard. Stored: counted, the mutex still held.
  // Released: given back, not yet counted.
  datatype Guard = Out | Holding(writing: bool) | Loaded(value: UInt64) | Stored | Released

  datatype Shared = Shared(owner: Option<Thread>, incarnation: UInt64)

  datatype Action = Acquire(writing: bool) | Upgrade | Downgrade | Load | Store | Unlock

  // The guard's destructor counts before the base class gives the mutex back. The other order is
  // here to show what depends on it.
  datatype Order = CountThenUnlock | UnlockThenCount

  ghost predicate CanAct(order: Order, t: Thread, g: Guard, s: Shared, a: Action) {
    match a
    case Acquire(_) => g == Out && s.owner == None
    case Upgrade => g.Holding?
    case Downgrade => g.Holding?
    case Load => g == if order == CountThenUnlock then Holding(true) else Released
    case Store => g.Loaded?
    case Unlock => if order == CountThenUnlock then g == Holding(false) || g == Stored else g.Holding?
  }

  ghost function Act(order: Order, t: Thread, g: Guard, s: Shared, a: Action): (Guard, Shared)
    requires CanAct(order, t, g, s, a)
  {
    match a
    case Acquire(writing) => (Holding(writing), s.(owner := Some(t)))
    case Upgrade => (Holding(true), s)
    case Downgrade => (Holding(false), s)
    case Load => (Loaded(s.incarnation), s)
    case Store => (if order == CountThenUnlock then Stored else Out, s.(incarnation := Increment(g.value)))
    case Unlock => (if g == Holding(true) then Released else Out, s.(owner := None))
  }

  datatype World = World(shared: Shared, guards: map<Thread, Guard>)

  datatype Event = Event(thread: Thread, action: Action)

  function GuardOf(w: World, t: Thread): Guard {
    if t in w.guards then w.guards[t] else Out
  }

  ghost predicate Enabled(order: Order, w: World, e: Event) {
    CanAct(order, e.thread, GuardOf(w, e.thread), w.shared, e.action)
  }

  ghost function Step(order: Order, w: World, e: Event): World
    requires Enabled(order, w, e)
  {
    var (g, s) := Act(order, e.thread, GuardOf(w, e.thread), w.shared, e.action);
    World(s, w.guards[e.thread := g])
  }

  // The counter starts at one: zero marks an overflow.
  const INITIAL := World(Shared(None, 1), map[])

  ghost function Run(order: Order, run: seq<Event>): Option<World> {
    if run == [] then Some(INITIAL)
    else
      var last := |run| - 1;
      match Run(order, run[..last])
      case None => None
      case Some(w) => if Enabled(order, w, run[last]) then Some(Step(order, w, run[last])) else None
  }

  // ---------- what a run says by itself ----------

  // The mode that a thread last gave its guard.
  ghost predicate Writing(run: seq<Event>, t: Thread) {
    run != [] &&
    var last := run[|run| - 1];
    if last.thread == t && (last.action.Acquire? || last.action.Upgrade? || last.action.Downgrade?)
    then last.action == Upgrade || last.action == Acquire(true)
    else Writing(run[..|run| - 1], t)
  }

  // The number of guards released in write mode, whatever mode they were acquired in.
  ghost function WriteReleases(run: seq<Event>): nat {
    if run == [] then 0
    else
      var before, last := run[..|run| - 1], run[|run| - 1];
      WriteReleases(before) + (if last.action == Unlock && Writing(before, last.thread) then 1 else 0)
  }

  // ---------- the invariant ----------

  ghost predicate OnlyOwner(w: World) {
    forall t :: t in w.guards && w.guards[t] != Out ==> w.shared.owner == Some(t)
  }

  ghost predicate OwnerHolds(w: World, run: seq<Event>) {
    w.shared.owner.Some? ==>
      var t := w.shared.owner.value;
      match GuardOf(w, t)
      case Out => false
      case Holding(writing) => writing == Writing(run, t)
      case Loaded(value) => Writing(run, t) && value == w.shared.incarnation
      case Stored => Writing(run, t)
      case Released => false
  }

  ghost function Counted(w: World): nat {
    if w.shared.owner.Some? && GuardOf(w, w.shared.owner.value) == Stored then 1 else 0
  }

  ghost predicate Inv(w: World, run: seq<Event>) {
    && OnlyOwner(w) && OwnerHolds(w, run)
    && w.shared.incarnation == Plus(1, WriteReleases(run) + Counted(w))
  }

  lemma StepKeepsInv(w: World, run: seq<Event>, e: Event)
    requires Inv(w, run) && Enabled(CountThenUnlock, w, e)
    ensures Inv(Step(CountThenUnlock, w, e), run + [e])
  {
    assert (run + [e])[..|run|] == run;
  }

  lemma {:induction false} RunKeepsInv(run: seq<Event>, w: World)
    requires Run(CountThenUnlock, run) == Some(w)
    ensures Inv(w, run)
  {
    if run != [] {
      var n := |run| - 1;
      var v := Run(CountThenUnlock, run[..n]).value;
      RunKeepsInv(run[..n], v);
      StepKeepsInv(v, run[..n], run[n]);
      assert run[..n] + [run[n]] == run;
    }
  }

  // ---------- theorems ----------

  // Two threads never hold the mutex, nor are they ever both inside the increment.
  lemma MutualExclusion(run: seq<Event>, w: World, t: Thread, u: Thread)
    requires Run(CountThenUnlock, run) == Some(w)
    requires GuardOf(w, t) != Out && GuardOf(w, u) != Out
    ensures t == u && w.shared.owner == Some(t)
  {
    RunKeepsInv(run, w);
  }

  // No update is lost: in every interleaving the counter is one more than the number of releases
  // in write mode, modulo 2^64, plus the one that has counted and still holds the mutex.
  lemma EveryReleaseCounts(run: seq<Event>, w: World)
    requires Run(CountThenUnlock, run) == Some(w)
    ensures w.shared.owner == None ==> w.shared.incarnation == (1 + WriteReleases(run)) % MODULUS
    ensures w.shared.incarnation == (1 + WriteReleases(run) + Counted(w)) % MODULUS
  {
    RunKeepsInv(run, w);
    PlusIsModulo(1, WriteReleases(run) + Counted(w));
  }

  // A thread that holds the mutex can always go on to release it, whatever the others do: what is
  // left of its release is at most load, store and unlock. The others wait meanwhile.
  lemma OwnerCanRelease(run: seq<Event>, w: World, t: Thread)
    requires Run(CountThenUnlock, run) == Some(w) && w.shared.owner == Some(t)
    ensures match GuardOf(w, t)
            case Holding(writing) =>
              Enabled(CountThenUnlock, w, Event(t, if writing then Load else Unlock))
            case Loaded(_) => Enabled(CountThenUnlock, w, Event(t, Store))
            case Stored => Enabled(CountThenUnlock, w, Event(t, Unlock))
            case _ => false
    ensures forall u, a :: Enabled(CountThenUnlock, w, Event(u, a)) ==> u == t
  {
    RunKeepsInv(run, w);
  }

  // With the mutex free every thread without a guard can acquire one, in either mode.
  lemma FreeCanBeAcquired(run: seq<Event>, w: World, t: Thread, writing: bool)
    requires Run(CountThenUnlock, run) == Some(w) && w.shared.owner == None
    ensures Enabled(CountThenUnlock, w, Event(t, Acquire(writing)))
  {
    RunKeepsInv(run, w);
  }

  // Zero marks an overflow: with the mutex free it is read after 2^64 - 1 releases, modulo 2^64.
  lemma ZeroMarksOverflow(run: seq<Event>, w: World)
    requires Run(CountThenUnlock, run) == Some(w) && w.shared.owner == None
    ensures w.shared.incarnation == 0 <==> WriteReleases(run) % MODULUS == MODULUS - 1
  {
    EveryReleaseCounts(run, w);
    var n := WriteReleases(run);
    PlusIsModulo(1, n);
    NextModulo(n);
  }

  ghost predicate After(run: seq<Event>, w: World, releases: nat, zero: bool, one: bool) {
    && Run(UnlockThenCount, run) == Some(w) && WriteReleases(run) == releases
    && (Writing(run, 0) <==> zero) && (Writing(run, 1) <==> one)
  }

  lemma Extends(run: seq<Event>, w: World, e: Event, releases: nat, zero: bool, one: bool)
    requires After(run, w, releases, zero, one) && Enabled(UnlockThenCount, w, e)
    requires e.thread <= 1 && !e.action.Upgrade? && !e.action.Downgrade?
    ensures var mode := e.action.Acquire?;
            After(run + [e], Step(UnlockThenCount, w, e),
                  releases + (if e.action == Unlock && (if e.thread == 0 then zero else one) then 1 else 0),
                  if mode && e.thread == 0 then e.action.writing else zero,
                  if mode && e.thread == 1 then e.action.writing else one)
  {
    assert (run + [e])[..|run|] == run;
  }

  lemma TwoReleases() returns (run: seq<Event>)
    ensures After(run, World(Shared(None, 1), map[0 := Released, 1 := Released]), 2, true, true)
  {
    var r1, w1 := [Event(0, Acquire(true))], World(Shared(Some(0), 1), map[0 := Holding(true)]);
    Extends([], INITIAL, r1[0], 0, false, false);
    assert [] + r1 == r1;
    var e2, w2 := Event(0, Unlock), World(Shared(None, 1), map[0 := Released]);
    Extends(r1, w1, e2, 0, true, false);
    assert w1.guards[0 := Released] == w2.guards;
    var e3, w3 := Event(1, Acquire(true)), World(Shared(Some(1), 1), map[0 := Released, 1 := Holding(true)]);
    Extends(r1 + [e2], w2, e3, 1, true, false);
    assert w2.guards[1 := Holding(true)] == w3.guards;
    var e4, w4 := Event(1, Unlock), World(Shared(None, 1), map[0 := Released, 1 := Released]);
    Extends(r1 + [e2] + [e3], w3, e4, 1, true, true);
    assert w3.guards[1 := Released] == w4.guards;
    run := r1 + [e2] + [e3] + [e4];
  }

  // Were the mutex given back first, two releases could count as one.
  lemma OtherOrderLosesUpdates()
    ensures exists run, w :: Run(UnlockThenCount, run) == Some(w) && w.shared.owner == None
              && (forall t :: GuardOf(w, t) == Out)
              && WriteReleases(run) == 2 && w.shared.incarnation == 2
  {
    var run := TwoReleases();
    var w4 := World(Shared(None, 1), map[0 := Released, 1 := Released]);
    var e5, w5 := Event(0, Load), World(Shared(None, 1), map[0 := Loaded(1), 1 := Released]);
    Extends(run, w4, e5, 2, true, true);
    assert w4.guards[0 := Loaded(1)] == w5.guards;
    var e6, w6 := Event(1, Load), World(Shared(None, 1), map[0 := Loaded(1), 1 := Loaded(1)]);
    Extends(run + [e5], w5, e6, 2, true, true);
    assert w5.guards[1 := Loaded(1)] == w6.guards;
    var e7, w7 := Event(0, Store), World(Shared(None, 2), map[0 := Out, 1 := Loaded(1)]);
    Extends(run + [e5] + [e6], w6, e7, 2, true, true);
    assert w6.guards[0 := Out] == w7.guards;
    var e8, w8 := Event(1, Store), World(Shared(None, 2), map[0 := Out, 1 := Out]);
    Extends(run + [e5] + [e6] + [e7], w7, e8, 2, true, true);
    assert w7.guards[1 := Out] == w8.guards;
    assert Run(UnlockThenCount, run + [e5] + [e6] + [e7] + [e8]) == Some(w8);
  }
}
