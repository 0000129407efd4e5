// The mutex base class and its guards as the objects the source has. Every step of a guard is the
// atomic action of MutexedModel for its thread.

module Mutexed {
  import opened Wrappers
  import opened Counters
  import opened MutexedModel

  class MutexedObject {
    var owner: Option<Thread>
    var incarnation: UInt64

    ghost function Contents(): Shared
      reads this
    {
      Shared(owner, incarnation)
    }

    constructor ()
      ensures Contents() == INITIAL.shared
    {
      owner, incarnation := None, 1;
    }

    // Blocks until the mutex is free; the caller runs when it is.
    method AcquireReadLock(thread: Thread) returns (lock: ScopedLock)
      requires owner == None
      modifies this
      ensures fresh(lock) && lock.Valid() && lock.issuer == this && lock.thread == thread
      ensures (lock.Contents(), Contents()) == Act(CountThenUnlock, thread, Out, old(Contents()), Acquire(false))
    {
      lock := new ScopedLock(this, thread, false);
    }

    method AcquireWriteLock(thread: Thread) returns (lock: ScopedLock)
      requires owner == None
      modifies this
      ensures fresh(lock) && lock.Valid() && lock.issuer == this && lock.thread == thread
      ensures (lock.Contents(), Contents()) == Act(CountThenUnlock, thread, Out, old(Contents()), Acquire(true))
    {
      lock := new ScopedLock(this, thread, true);
    }
  }

  // A guard. One that has not been released belongs to the thread that owns the mutex.
  class ScopedLock {
    const issuer: MutexedObject
    const thread: Thread
    var writing: bool
    var phase: Guard

    ghost predicate Valid()
      reads this, issuer
    {
      phase != Released && (phase != Out ==> issuer.owner == Some(thread))
    }

    ghost function Contents(): Guard
      reads this
    {
      if phase.Holding? then Holding(writing) else phase
    }

    constructor (issuer: MutexedObject, thread: Thread, writing: bool)
      requires issuer.owner == None
      modifies issuer
      ensures Valid() && this.issuer == issuer && this.thread == thread
      ensures (Contents(), issuer.Contents())
           == Act(CountThenUnlock, thread, Out, old(issuer.Contents()), Acquire(writing))
    {
      this.issuer, this.thread, this.writing := issuer, thread, writing;
      phase := Holding(writing);
      new;
      issuer.owner := Some(thread);
    }

    method Upgrade()
      requires Valid() && phase.Holding?
      modifies this
      ensures Valid()
      ensures (Contents(), issuer.Contents())
           == Act(CountThenUnlock, thread, old(Contents()), old(issuer.Contents()), MutexedModel.Upgrade)
    {
      writing := true;
    }

    method Downgrade()
      requires Valid() && phase.Holding?
      modifies this
      ensures Valid()
      ensures (Contents(), issuer.Contents())
           == Act(CountThenUnlock, thread, old(Contents()), old(issuer.Contents()), MutexedModel.Downgrade)
    {
      writing := false;
    }

    // The two halves of the increment.
    method LoadIncarnation()
      requires Valid() && Contents() == Holding(true)
      modifies this
      ensures Valid()
      ensures (Contents(), issuer.Contents())
           == Act(CountThenUnlock, thread, old(Contents()), old(issuer.Contents()), Load)
    {
      phase := Loaded(issuer.incarnation);
    }

    method StoreIncarnation()
      requires Valid() && phase.Loaded?
      modifies this, issuer
      ensures Valid()
      ensures (Contents(), issuer.Contents())
           == Act(CountThenUnlock, thread, old(Contents()), old(issuer.Contents()), Store)
    {
      issuer.incarnation := Increment(phase.value);
      phase := Stored;
    }

    // What the base class does after the destructor's body.
    method Unlock()
      requires Valid() && (Contents() == Holding(false) || Contents() == Stored)
      modifies this, issuer
      ensures Valid()
      ensures (Contents(), issuer.Contents())
           == Act(CountThenUnlock, thread, old(Contents()), old(issuer.Contents()), MutexedModel.Unlock)
    {
      phase := Out;
      issuer.owner := None;
    }

    // The whole destructor: undisturbed, it counts one release exactly if the guard is in write
    // mode now, whatever it was acquired as.
    method Release()
      requires Valid() && phase.Holding?
      modifies this, issuer
      ensures Valid() && Contents() == Out && issuer.owner == None
      ensures issuer.incarnation == if old(writing) then Increment(old(issuer.incarnation)) else old(issuer.incarnation)
    {
      if writing {
        LoadIncarnation();
        StoreIncarnation();
      }
      Unlock();
    }
  }

  // The next action of a thread with its guard, which the mutex and the guard's phase allow.
  method Perform(m: MutexedObject, lock: ScopedLock, action: Action)
    requires lock.issuer == m && lock.Valid() && !action.Acquire?
    requires CanAct(CountThenUnlock, lock.thread, lock.Contents(), m.Contents(), action)
    modifies m, lock
    ensures lock.Valid()
    ensures (lock.Contents(), m.Contents())
         == Act(CountThenUnlock, lock.thread, old(lock.Contents()), old(m.Contents()), action)
  {
    match action
    case Upgrade => lock.Upgrade();
    case Downgrade => lock.Downgrade();
    case Load => lock.LoadIncarnation();
    case Store => lock.StoreIncarnation();
    case Unlock => lock.Unlock();
  }

  // The guards of a world: one for each thread that ever had one.
  ghost predicate Guards(m: MutexedObject, locks: map<Thread, ScopedLock>, w: World)
    reads m, locks.Values
  {
    && m.Contents() == w.shared && locks.Keys == w.guards.Keys
    && forall t :: t in locks ==>
         locks[t].issuer == m && locks[t].thread == t && locks[t].Valid() && locks[t].Contents() == w.guards[t]
  }

  // One step of one thread, on the object and the threads' guards.
  method Handle(m: MutexedObject, locks: map<Thread, ScopedLock>, e: Event, ghost w: World)
    returns (guards: map<Thread, ScopedLock>)
    requires Guards(m, locks, w) && OnlyOwner(w) && Enabled(CountThenUnlock, w, e)
    modifies m, locks.Values
    ensures Guards(m, guards, Step(CountThenUnlock, w, e))
    ensures forall t :: t in guards ==> guards[t] in locks.Values || fresh(guards[t])
  {
    if e.action.Acquire? {
      var lock: ScopedLock;
      if e.action.writing {
        lock := m.AcquireWriteLock(e.thread);
      } else {
        lock := m.AcquireReadLock(e.thread);
      }
      guards := locks[e.thread := lock];
    } else {
      Perform(m, locks[e.thread], e.action);
      guards := locks;
    }
  }

  lemma {:induction false} PrefixRuns(run: seq<Event>, i: nat)
    requires Run(CountThenUnlock, run).Some? && i < |run|
    ensures Run(CountThenUnlock, run[..i]).Some?
    ensures var w := Run(CountThenUnlock, run[..i]).value;
            Enabled(CountThenUnlock, w, run[i])
            && Run(CountThenUnlock, run[..i + 1]) == Some(Step(CountThenUnlock, w, run[i]))
  {
    var n := |run| - 1;
    if i < n {
      PrefixRuns(run[..n], i);
      assert run[..n][..i] == run[..i] && run[..n][..i + 1] == run[..i + 1];
    } else {
      assert run[..n + 1] == run;
    }
  }

  // Any interleaving of any number of threads, played on a fresh object: once every guard has been
  // released, the object's counter is one more than the number released in write mode.
  method Play(m: MutexedObject, run: seq<Event>) returns (guards: map<Thread, ScopedLock>)
    requires m.Contents() == INITIAL.shared && Run(CountThenUnlock, run).Some?
    modifies m
    ensures Guards(m, guards, Run(CountThenUnlock, run).value)
    ensures m.owner == None ==> m.incarnation == (1 + WriteReleases(run)) % MODULUS
  {
    guards := map[];
    assert run[..0] == [];
    for i := 0 to |run|
      invariant Run(CountThenUnlock, run[..i]).Some? && Guards(m, guards, Run(CountThenUnlock, run[..i]).value)
      invariant forall t :: t in guards ==> fresh(guards[t])
    {
      PrefixRuns(run, i);
      ghost var w := Run(CountThenUnlock, run[..i]).value;
      RunKeepsInv(run[..i], w);
      guards := Handle(m, guards, run[i], w);
    }
    assert run[..|run|] == run;
    EveryReleaseCounts(run, Run(CountThenUnlock, run).value);
  }
}
