// The container of id tagged objects (IdTaggedContainer.hpp, Carne.hpp): one index sorted by id,
// one in insertion order, and a change counter. Its positional view is the list of ContainerModel.

module IdTaggedContainer {
  import opened Wrappers
  import opened Counters
  import opened ContainerModel

  datatype Error = InternalError

  // Incarnated without a parent: a counter of 64 bits that wraps around.
  class Incarnated {
    var incarnation: UInt64

    constructor ()
      ensures incarnation == 0
    {
      incarnation := 0;
    }

    method IncreaseIncarnation()
      modifies this
      ensures incarnation == Increment(old(incarnation))
    {
      incarnation := Increment(incarnation);
    }

    // Whether there was a change since the counter was read as known.
    method HasChanged(known: UInt64) returns (changed: bool)
      ensures changed <==> Changed(incarnation, known)
    {
      changed := incarnation > known;
    }
  }

  ghost predicate Sorted(byId: seq<Tagged>) {
    forall i, j :: 0 <= i < j < |byId| ==> byId[i].id < byId[j].id
  }

  lemma MultisetTaken(list: seq<Tagged>, i: nat)
    requires i < |list|
    ensures multiset(list[..i] + list[i + 1..]) == multiset(list) - multiset{list[i]}
  {
    assert list == list[..i] + [list[i]] + list[i + 1..];
  }

  lemma TakenFromBoth(byId: seq<Tagged>, byRandom: seq<Tagged>, place: nat, at: nat)
    requires Sorted(byId) && Unique(byRandom) && multiset(byId) == multiset(byRandom)
    requires place < |byId| && at < |byRandom| && byId[place] == byRandom[at]
    ensures var a, b := byId[..place] + byId[place + 1..], byRandom[..at] + byRandom[at + 1..];
            Sorted(a) && Unique(b) && multiset(a) == multiset(b)
  {
    MultisetTaken(byId, place);
    MultisetTaken(byRandom, at);
  }

  lemma MultisetAdded(list: seq<Tagged>, i: nat, o: Tagged)
    requires i <= |list|
    ensures multiset(list[..i] + [o] + list[i..]) == multiset(list) + multiset{o}
  {
    assert list == list[..i] + list[i..];
  }

  lemma AddedToBoth(byId: seq<Tagged>, byRandom: seq<Tagged>, place: nat, o: Tagged)
    requires Sorted(byId) && Unique(byRandom) && multiset(byId) == multiset(byRandom)
    requires place <= |byId| && !HasId(byRandom, o.id)
    requires forall i :: 0 <= i < place ==> byId[i].id < o.id
    requires forall i :: place <= i < |byId| ==> byId[i].id > o.id
    ensures var a, b := byId[..place] + [o] + byId[place..], byRandom + [o];
            Sorted(a) && Unique(b) && multiset(a) == multiset(b)
  {
    MultisetAdded(byId, place, o);
  }

  class Container {
    var byId: seq<Tagged>
    var byRandom: seq<Tagged>
    const counter: Incarnated

    // Both indices hold the same objects, with unique ids.
    ghost predicate Valid()
      reads this
    {
      Sorted(byId) && Unique(byRandom) && multiset(byId) == multiset(byRandom)
    }

    // What the container means.
    ghost function Contents(): Store
      reads this, counter
    {
      Store(byRandom, counter.incarnation)
    }

    constructor ()
      ensures Valid() && Contents() == Store([], 0) && fresh(counter)
    {
      byId, byRandom := [], [];
      counter := new Incarnated();
    }

    lemma SameObjects()
      requires Valid()
      ensures forall o :: o in byId <==> o in byRandom
      ensures |byId| == |byRandom|
      ensures forall id :: HasId(byId, id) <==> HasId(byRandom, id)
    {
      assert forall o :: o in byId <==> o in multiset(byId);
      assert forall o :: o in byRandom <==> o in multiset(byRandom);
      assert |multiset(byId)| == |byId|;
      assert |multiset(byRandom)| == |byRandom|;
      forall id | HasId(byId, id) ensures HasId(byRandom, id) {
        var i :| 0 <= i < |byId| && byId[i].id == id;
        assert byId[i] in byRandom;
      }
      forall id | HasId(byRandom, id) ensures HasId(byId, id) {
        var i :| 0 <= i < |byRandom| && byRandom[i].id == id;
        assert byRandom[i] in byId;
      }
    }

    // The place of an id in the sorted index.
    method LowerBound(id: UInt64) returns (place: nat)
      requires Valid()
      ensures place <= |byId|
      ensures forall i :: 0 <= i < place ==> byId[i].id < id
      ensures forall i :: place <= i < |byId| ==> byId[i].id >= id
    {
      var high := |byId|;
      place := 0;
      while place < high
        invariant place <= high <= |byId|
        invariant forall i :: 0 <= i < place ==> byId[i].id < id
        invariant forall i :: high <= i < |byId| ==> byId[i].id >= id
      {
        var middle := (place + high) / 2;
        if byId[middle].id < id {
          place := middle + 1;
        } else {
          high := middle;
        }
      }
    }

    // What a lookup in the sorted index finds is what a scan of the positional view would find.
    method Get(id: UInt64) returns (found: Tagged?)
      requires Valid()
      ensures found == null <==> !HasId(byRandom, id)
      ensures found != null ==> found.id == id && found in byRandom
    {
      SameObjects();
      var place := LowerBound(id);
      if place < |byId| && byId[place].id == id {
        found := byId[place];
        assert found in byId;
      } else {
        found := null;
        assert !HasId(byId, id);
      }
    }

    method Has(id: UInt64) returns (present: bool)
      requires Valid()
      ensures present <==> HasId(byRandom, id)
    {
      var found := Get(id);
      present := found != null;
    }

    method Size() returns (size: nat)
      requires Valid()
      ensures size == |byRandom|
    {
      SameObjects();
      size := |byId|;
    }

    method At(index: nat) returns (found: Result<Tagged, Error>)
      requires Valid()
      ensures found == if index < |byRandom| then Ok(byRandom[index]) else Err(InternalError)
    {
      var size := Size();
      if index >= size {
        return Err(InternalError);
      }
      return Ok(byRandom[index]);
    }

    // ---------- changes ----------

    method AddNew(o: Tagged)
      requires Valid() && !HasId(byRandom, o.id)
      modifies this
      ensures Valid() && byRandom == old(byRandom) + [o]
    {
      SameObjects();
      var place := LowerBound(o.id);
      assert forall i :: place <= i < |byId| ==> byId[i].id != o.id;
      AddedToBoth(byId, byRandom, place, o);
      byId := byId[..place] + [o] + byId[place..];
      byRandom := byRandom + [o];
    }

    // The position of an object in the positional view.
    method Project(o: Tagged) returns (at: nat)
      requires o in byRandom
      ensures at < |byRandom| && byRandom[at] == o
    {
      at := 0;
      while byRandom[at] != o
        invariant at < |byRandom| && o in byRandom[at..]
        decreases |byRandom| - at
      {
        assert byRandom[at..] == [byRandom[at]] + byRandom[at + 1..];
        at := at + 1;
      }
    }

    // Takes the object at a position of the sorted index out of both indices.
    method TakeOut(place: nat)
      requires Valid() && place < |byId|
      modifies this
      ensures Valid()
      ensures HasId(old(byRandom), old(byId)[place].id)
      ensures byRandom == Without(old(byRandom), old(byId)[place].id)
    {
      assert byId[place] in byRandom by {
        SameObjects();
        assert byId[place] in byId;
      }
      var at := Project(byId[place]);
      WithoutAt(byRandom, at);
      TakenFromBoth(byId, byRandom, place, at);
      byId := byId[..place] + byId[place + 1..];
      byRandom := byRandom[..at] + byRandom[at + 1..];
    }

    // The place of an object in the sorted index.
    method PlaceOf(o: Tagged) returns (place: nat)
      requires Valid() && o in byRandom
      ensures place < |byId| && byId[place] == o
    {
      SameObjects();
      place := LowerBound(o.id);
      var i :| 0 <= i < |byId| && byId[i] == o;
      assert i >= place;
    }

    method EraseId(id: UInt64) returns (erased: bool)
      requires Valid()
      modifies this
      ensures Valid() && erased == HasId(old(byRandom), id)
      ensures byRandom == Without(old(byRandom), id)
    {
      SameObjects();
      var place := LowerBound(id);
      if place < |byId| && byId[place].id == id {
        TakeOut(place);
        return true;
      }
      assert !HasId(byId, id);
      WithoutAbsent(byRandom, id);
      return false;
    }

    method Insert(o: Tagged?) returns (inserted: Result<bool, Error>)
      requires Valid()
      modifies this, counter
      ensures Valid()
      ensures o == null ==> inserted == Err(InternalError) && Contents() == old(Contents())
      ensures o != null ==> inserted == Ok(!HasId(old(byRandom), o.id))
      ensures o != null ==> Contents() == Apply(old(Contents()), Operation.Insert(o))
      ensures o != null && HasId(old(byRandom), o.id) ==> Contents() == old(Contents())
      ensures o != null && !HasId(old(byRandom), o.id) ==>
                byRandom == old(byRandom) + [o] && counter.incarnation == Increment(old(counter.incarnation))
    {
      if o == null {
        return Err(InternalError);
      }
      var present := Has(o.id);
      if present {
        return Ok(false);
      }
      AddNew(o);
      counter.IncreaseIncarnation();
      return Ok(true);
    }

    method Replace(o: Tagged?) returns (replaced: Result<bool, Error>)
      requires Valid()
      modifies this, counter
      ensures Valid()
      ensures o == null ==> replaced == Err(InternalError) && Contents() == old(Contents())
      ensures o != null ==> replaced == Ok(HasId(old(byRandom), o.id))
      ensures o != null ==> Contents() == Apply(old(Contents()), Operation.Replace(o))
      ensures o != null ==> byRandom == Without(old(byRandom), o.id) + [o]
                            && counter.incarnation == Increment(old(counter.incarnation))
    {
      if o == null {
        return Err(InternalError);
      }
      WithoutIsSubsequence(byRandom, o.id);
      var present := EraseId(o.id);
      var inserted := Insert(o);
      return Ok(present);
    }

    method Remove(id: UInt64) returns (removed: bool)
      requires Valid()
      modifies this, counter
      ensures Valid() && removed == HasId(old(byRandom), id)
      ensures Contents() == Apply(old(Contents()), Operation.Remove(id))
      ensures byRandom == Without(old(byRandom), id)
      ensures counter.incarnation
           == if removed then Increment(old(counter.incarnation)) else old(counter.incarnation)
    {
      removed := EraseId(id);
      if removed {
        counter.IncreaseIncarnation();
      }
    }

    method Clear()
      requires Valid()
      modifies this, counter
      ensures Valid() && Contents() == Apply(old(Contents()), Operation.Clear)
      ensures byRandom == [] && counter.incarnation
           == if old(byRandom) == [] then old(counter.incarnation) else Increment(old(counter.incarnation))
    {
      var size := Size();
      if size != 0 {
        byId, byRandom := [], [];
        counter.IncreaseIncarnation();
      }
    }

    // Erases what the iterator stands on and returns an iterator to the object that followed it.
    method Erase(position: Iterator) returns (next: Iterator)
      requires Valid() && position.container == this
      requires |byRandom| < MODULUS && position.index <= |byRandom|
      modifies this, counter
      ensures Valid() && Contents() == Apply(old(Contents()), Operation.Erase(position.index))
      ensures fresh(next) && next.container == this && next.index == position.index
      ensures position.index < |old(byRandom)| ==>
                byRandom[..next.index] == old(byRandom)[..position.index]
                && byRandom[next.index..] == old(byRandom)[position.index + 1..]
                && counter.incarnation == Increment(old(counter.incarnation))
      ensures position.index == |old(byRandom)| ==> Contents() == old(Contents())
    {
      var end := End();
      if position.Equal(end) {
        next := End();
        return;
      }
      var place := PlaceOf(byRandom[position.index]);
      WithoutAt(byRandom, position.index);
      TakeOut(place);
      counter.IncreaseIncarnation();
      next := IteratorAt(position.index);
    }

    method IteratorAt(index: UInt64) returns (at: Iterator)
      ensures fresh(at) && at.container == this && at.index == index
    {
      at := new Iterator(this);
      at.Advance(index);
    }

    method Begin() returns (begin: Iterator)
      ensures fresh(begin) && begin.container == this && begin.index == 0
    {
      begin := new Iterator(this);
    }

    method End() returns (end: Iterator)
      requires Valid() && |byRandom| < MODULUS
      ensures fresh(end) && end.container == this && end.index == |byRandom|
    {
      end := new Iterator(this);
      var size := Size();
      end.Advance(size);
    }

    // ---------- comparison ----------

    // operator==: equal sizes, and every id here is there.
    method Equals(other: Container) returns (equal: bool)
      requires Valid() && other.Valid()
      ensures equal <==> Ids(byRandom) == Ids(other.byRandom)
    {
      SameIdsIff(byRandom, other.byRandom);
      IdsWithin(byRandom, other.byRandom);
      var here := Size();
      var there := other.Size();
      if here != there {
        return false;
      }
      for i := 0 to |byRandom|
        invariant forall k :: 0 <= k < i ==> HasId(other.byRandom, byRandom[k].id)
      {
        var present := other.Has(byRandom[i].id);
        if !present {
          return false;
        }
      }
      return true;
    }

    method IdsInContainer() returns (ids: set<UInt64>)
      requires Valid()
      ensures ids == Ids(byRandom)
    {
      ids := {};
      for i := 0 to |byRandom|
        invariant ids == Ids(byRandom[..i])
      {
        ids := ids + {byRandom[i].id};
        assert byRandom[..i + 1][..i] == byRandom[..i];
      }
      assert byRandom[..|byRandom|] == byRandom;
    }
  }

  // Every erase of a sequence is given a position of the container it meets, or its end, and the
  // containers are below 2^64 objects.
  ghost predicate Performable(list: seq<Tagged>, ops: seq<Operation>)
    decreases |ops|
  {
    ops != [] ==>
      && |list| < MODULUS && (ops[0].Erase? ==> ops[0].position <= |list|)
      && Performable(NewList(list, ops[0]), ops[1..])
  }

  method EraseAt(c: Container, position: nat)
    requires c.Valid() && position <= |c.byRandom| < MODULUS
    modifies c, c.counter
    ensures c.Valid() && c.Contents() == Apply(old(c.Contents()), Operation.Erase(position))
  {
    var at := c.IteratorAt(position);
    var next := c.Erase(at);
  }

  method Perform(c: Container, op: Operation)
    requires c.Valid() && |c.byRandom| < MODULUS && (op.Erase? ==> op.position <= |c.byRandom|)
    modifies c, c.counter
    ensures c.Valid() && c.Contents() == Apply(old(c.Contents()), op)
  {
    match op
    case Insert(o) =>
      var inserted := c.Insert(o);
    case Replace(o) =>
      var replaced := c.Replace(o);
    case Remove(id) =>
      var removed := c.Remove(id);
    case Erase(position) => EraseAt(c, position);
    case Clear => c.Clear();
  }

  // Any sequence of operations on the two indices: they agree at the end, on the list that the
  // operations make of the list before, and the counter has counted the effective ones. Below 2^64
  // changes, a counter read before tells whether there was one; if not, the list is the same.
  method PerformAll(c: Container, ops: seq<Operation>) returns (changed: bool)
    requires c.Valid() && Performable(c.byRandom, ops)
    modifies c, c.counter
    ensures c.Valid() && c.Contents() == ApplyAll(old(c.Contents()), ops)
    ensures c.counter.incarnation == Plus(old(c.counter.incarnation), Changes(old(c.byRandom), ops))
    ensures old(c.counter.incarnation) + Changes(old(c.byRandom), ops) < MODULUS ==>
              (changed <==> Changes(old(c.byRandom), ops) > 0) && (!changed ==> c.byRandom == old(c.byRandom))
  {
    var known := c.counter.incarnation;
    ghost var before := c.Contents();
    for i := 0 to |ops|
      invariant c.Valid() && Performable(c.byRandom, ops[i..])
      invariant ApplyAll(c.Contents(), ops[i..]) == ApplyAll(before, ops)
    {
      assert ops[i..][0] == ops[i] && ops[i..][1..] == ops[i + 1..];
      Perform(c, ops[i]);
    }
    changed := c.counter.HasChanged(known);
    CounterCountsChanges(before, ops);
    if before.incarnation + Changes(before.list, ops) < MODULUS {
      ChangedBelowWrap(before, ops);
    }
  }

  // An index into the positional view.
  class Iterator {
    const container: Container
    var index: UInt64

    constructor (container: Container)
      ensures this.container == container && index == 0
    {
      this.container := container;
      index := 0;
    }

    method Increment()
      modifies this
      ensures index == Counters.Increment(old(index))
    {
      index := Counters.Increment(index);
    }

    // Undoes an increment; the first position has no predecessor, and stays.
    method Decrement()
      modifies this
      ensures old(index) > 0 ==> Counters.Increment(index) == old(index)
      ensures old(index) == 0 ==> index == 0
    {
      if index > 0 {
        index := index - 1;
      }
    }

    method Advance(n: nat)
      modifies this
      ensures index == (old(index) + n) % MODULUS
    {
      index := (index + n) % MODULUS;
    }

    predicate Equal(other: Iterator)
      reads this, other
    {
      container == other.container && index == other.index
    }

    method Dereference() returns (found: Result<Tagged, Error>)
      requires container.Valid()
      ensures found == if index < |container.byRandom| then Ok(container.byRandom[index]) else Err(InternalError)
    {
      found := container.At(index);
    }
  }

  function Complement(p: Tagged -> bool): Tagged -> bool {
    (o: Tagged) => !p(o)
  }

  lemma KeepOneMore(list: seq<Tagged>, o: Tagged, p: Tagged -> bool)
    ensures Keep(list + [o], p) == Keep(list, p) + (if p(o) then [o] else [])
  {
    assert (list + [o])[..|list|] == list;
  }

  function Taken(list: seq<Tagged>, i: nat): seq<Tagged>
    requires i < |list|
  {
    list[..i] + list[i + 1..]
  }

  // Where a walk stands: what it visited, kept and erased, and the rest that is still to come.
  datatype Walk = Walk(visited: seq<Tagged>, kept: seq<Tagged>, rest: seq<Tagged>, erased: nat)

  ghost predicate Walking(w: Walk, all: seq<Tagged>, list: seq<Tagged>, p: Tagged -> bool) {
    && all == w.visited + w.rest && list == w.kept + w.rest
    && w.kept == Keep(w.visited, Complement(p)) && w.erased == |Keep(w.visited, p)|
  }

  function Walked(w: Walk, gone: bool): Walk
    requires w.rest != []
  {
    var o := w.rest[0];
    Walk(w.visited + [o], if gone then w.kept else w.kept + [o], w.rest[1..], if gone then w.erased + 1 else w.erased)
  }

  lemma Passed(before: seq<Tagged>, rest: seq<Tagged>)
    requires rest != []
    ensures (before + rest)[|before|] == rest[0]
    ensures Taken(before + rest, |before|) == before + rest[1..]
    ensures before + rest == (before + [rest[0]]) + rest[1..]
  {
  }

  lemma WalkOn(w: Walk, all: seq<Tagged>, list: seq<Tagged>, p: Tagged -> bool)
    requires Walking(w, all, list, p) && w.rest != []
    ensures var i, gone := |w.kept|, p(w.rest[0]);
            i < |list| && list[i] == w.rest[0]
            && Walking(Walked(w, gone), all, if gone then Taken(list, i) else list, p)
  {
    Passed(w.kept, w.rest);
    Passed(w.visited, w.rest);
    KeepOneMore(w.visited, w.rest[0], p);
    KeepOneMore(w.visited, w.rest[0], Complement(p));
  }

  // Erase the object under the iterator, or step over it.
  method EraseOrPass(c: Container, position: Iterator, p: Tagged -> bool) returns (next: Iterator, gone: bool)
    requires c.Valid() && |c.byRandom| < MODULUS && position.container == c && position.index < |c.byRandom|
    modifies c, c.counter, position
    ensures c.Valid() && (next == position || fresh(next)) && next.container == c
    ensures gone == p(old(c.byRandom)[old(position.index)])
    ensures if gone
            then next.index == old(position.index) && c.byRandom == Taken(old(c.byRandom), old(position.index))
                 && c.counter.incarnation == Increment(old(c.counter.incarnation))
            else next.index == old(position.index) + 1 && c.byRandom == old(c.byRandom)
                 && c.counter.incarnation == old(c.counter.incarnation)
  {
    gone := p(c.byRandom[position.index]);
    if gone {
      next := c.Erase(position);
    } else {
      position.Increment();
      next := position;
    }
  }

  lemma PlusNext(a: UInt64, n: nat)
    ensures Plus(a, n + 1) == Increment(Plus(a, n))
  {
  }

  method WalkStep(c: Container, position: Iterator, p: Tagged -> bool,
                  ghost w: Walk, ghost all: seq<Tagged>, ghost start: UInt64)
    returns (next: Iterator, gone: bool)
    requires c.Valid() && |c.byRandom| < MODULUS && position.container == c
    requires Walking(w, all, c.byRandom, p) && w.rest != [] && position.index == |w.kept|
    requires c.counter.incarnation == Plus(start, w.erased)
    modifies c, c.counter, position
    ensures c.Valid() && (next == position || fresh(next)) && next.container == c
    ensures Walking(Walked(w, gone), all, c.byRandom, p) && next.index == |Walked(w, gone).kept|
    ensures c.counter.incarnation == Plus(start, Walked(w, gone).erased)
  {
    WalkOn(w, all, c.byRandom, p);
    PlusNext(start, w.erased);
    next, gone := EraseOrPass(c, position, p);
  }

  // The idiom that erase is made for: erase every object that satisfies a predicate while walking
  // over all of them. Each is visited once, the others stay in order, and the counter goes up by
  // the number erased.
  method EraseWhere(c: Container, p: Tagged -> bool) returns (erased: nat, ghost visited: seq<Tagged>)
    requires c.Valid() && |c.byRandom| < MODULUS
    modifies c, c.counter
    ensures c.Valid()
    ensures visited == old(c.byRandom)
    ensures c.byRandom == Keep(old(c.byRandom), Complement(p))
    ensures erased == |Keep(old(c.byRandom), p)|
    ensures c.counter.incarnation == Plus(old(c.counter.incarnation), erased)
  {
    ghost var all, start := c.byRandom, c.counter.incarnation;
    ghost var w := Walk([], [], all, 0);
    erased := 0;
    var position := c.Begin();
    var end := c.End();
    while !position.Equal(end)
      invariant c.Valid() && |c.byRandom| < MODULUS
      invariant fresh(position) && position.container == c && end.container == c
      invariant end.index == |c.byRandom| && position.index == |w.kept|
      invariant Walking(w, all, c.byRandom, p) && w.erased == erased
      invariant c.counter.incarnation == Plus(start, erased)
      decreases |w.rest|
    {
      var gone;
      position, gone := WalkStep(c, position, p, w, all, start);
      w := Walked(w, gone);
      erased := if gone then erased + 1 else erased;
      end := c.End();
    }
    visited := w.visited;
  }
}
