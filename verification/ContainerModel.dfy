// The container of id tagged objects as an abstract list in insertion order with a change counter,
// and what holds of every sequence of operations on it.

module ContainerModel {
  import opened Counters

  class Tagged {
    const id: UInt64

    constructor (id: UInt64)
      ensures this.id == id
    {
      this.id := id;
    }
  }

  // ---------- lists of objects ----------

  predicate HasId(list: seq<Tagged>, id: UInt64) {
    exists i :: 0 <= i < |list| && list[i].id == id
  }

  predicate Unique(list: seq<Tagged>) {
    forall i, j :: 0 <= i < j < |list| ==> list[i].id != list[j].id
  }

  function Ids(list: seq<Tagged>): (ids: set<UInt64>)
    ensures forall id :: id in ids <==> HasId(list, id)
  {
    if list == [] then {} else Ids(list[..|list| - 1]) + {list[|list| - 1].id}
  }

  function Without(list: seq<Tagged>, id: UInt64): seq<Tagged> {
    if list == [] then []
    else if list[0].id == id then Without(list[1..], id)
    else [list[0]] + Without(list[1..], id)
  }

  function Keep(list: seq<Tagged>, p: Tagged -> bool): seq<Tagged> {
    if list == [] then []
    else Keep(list[..|list| - 1], p) + (if p(list[|list| - 1]) then [list[|list| - 1]] else [])
  }

  lemma {:induction false} IdsAreAsMany(list: seq<Tagged>)
    requires Unique(list)
    ensures |Ids(list)| == |list|
  {
    if list != [] {
      IdsAreAsMany(list[..|list| - 1]);
    }
  }

  lemma IdsWithin(a: seq<Tagged>, b: seq<Tagged>)
    ensures (forall i :: 0 <= i < |a| ==> HasId(b, a[i].id)) <==> Ids(a) <= Ids(b)
  {
    if Ids(a) <= Ids(b) {
      forall i | 0 <= i < |a| ensures HasId(b, a[i].id) {
        assert a[i].id in Ids(a);
      }
    }
  }

  // One direction of membership and equal sizes are enough: among unique ids it is a count.
  lemma SameIdsIff(a: seq<Tagged>, b: seq<Tagged>)
    requires Unique(a) && Unique(b)
    ensures |a| == |b| && Ids(a) <= Ids(b) <==> Ids(a) == Ids(b)
  {
    IdsAreAsMany(a);
    IdsAreAsMany(b);
    if |a| == |b| && Ids(a) <= Ids(b) {
      SubsetOfSameSize(Ids(a), Ids(b));
    }
  }

  lemma SubsetOfSameSize(a: set<UInt64>, b: set<UInt64>)
    requires a <= b && |a| == |b|
    ensures a == b
  {
    assert |b - a| == 0;
  }

  // Removing the only object with an id takes exactly its position out.
  lemma {:induction false} WithoutAt(list: seq<Tagged>, i: nat)
    requires Unique(list) && i < |list|
    ensures Without(list, list[i].id) == list[..i] + list[i + 1..]
  {
    if i == 0 {
      WithoutAbsent(list[1..], list[0].id);
    } else {
      WithoutAt(list[1..], i - 1);
      assert list[..i] == [list[0]] + list[1..][..i - 1];
    }
  }

  lemma {:induction false} WithoutAbsent(list: seq<Tagged>, id: UInt64)
    requires !HasId(list, id)
    ensures Without(list, id) == list
  {
    if list != [] {
      assert list[0].id != id;
      forall i | 0 <= i < |list| - 1 ensures list[1..][i].id != id {
        assert list[i + 1].id != id;
      }
      WithoutAbsent(list[1..], id);
    }
  }

  // ---------- operations ----------

  datatype Store = Store(list: seq<Tagged>, incarnation: UInt64)

  datatype Operation =
    | Insert(o: Tagged)
    | Replace(o: Tagged)
    | Remove(id: UInt64)
    | Erase(position: nat)
    | Clear

  // Whether an operation counts as a change.
  predicate Effective(list: seq<Tagged>, op: Operation) {
    match op
    case Insert(o) => !HasId(list, o.id)
    case Replace(_) => true
    case Remove(id) => HasId(list, id)
    case Erase(i) => i < |list|
    case Clear => list != []
  }

  function NewList(list: seq<Tagged>, op: Operation): seq<Tagged> {
    match op
    case Insert(o) => if HasId(list, o.id) then list else list + [o]
    case Replace(o) => Without(list, o.id) + [o]
    case Remove(id) => Without(list, id)
    case Erase(i) => if i < |list| then list[..i] + list[i + 1..] else list
    case Clear => []
  }

  function Apply(s: Store, op: Operation): Store {
    Store(NewList(s.list, op), if Effective(s.list, op) then Increment(s.incarnation) else s.incarnation)
  }

  function ApplyAll(s: Store, ops: seq<Operation>): Store
    decreases |ops|
  {
    if ops == [] then s else ApplyAll(Apply(s, ops[0]), ops[1..])
  }

  function Changes(list: seq<Tagged>, ops: seq<Operation>): nat
    decreases |ops|
  {
    if ops == [] then 0
    else (if Effective(list, ops[0]) then 1 else 0) + Changes(NewList(list, ops[0]), ops[1..])
  }

  predicate Changed(incarnation: UInt64, known: UInt64) {
    incarnation > known
  }

  lemma {:induction false} WithoutIsSubsequence(list: seq<Tagged>, id: UInt64)
    ensures !HasId(Without(list, id), id)
    ensures Unique(list) ==> Unique(Without(list, id))
    ensures forall other :: other != id ==> (HasId(Without(list, id), other) <==> HasId(list, other))
  {
    if list != [] {
      var rest := Without(list[1..], id);
      WithoutIsSubsequence(list[1..], id);
      assert Unique(list) ==> Unique(list[1..]);
      forall other ensures HasId(list, other) <==> list[0].id == other || HasId(list[1..], other) {
        SplitsFirst(list, other);
      }
      if list[0].id != id {
        forall other ensures HasId([list[0]] + rest, other) <==> list[0].id == other || HasId(rest, other) {
          assert ([list[0]] + rest)[1..] == rest;
          SplitsFirst([list[0]] + rest, other);
        }
        if Unique(list) {
          assert !HasId(list[1..], list[0].id);
          assert !HasId(rest, list[0].id);
        }
      }
    }
  }

  lemma SplitsFirst(list: seq<Tagged>, id: UInt64)
    requires list != []
    ensures HasId(list, id) <==> list[0].id == id || HasId(list[1..], id)
  {
    if HasId(list, id) && list[0].id != id {
      var i :| 0 <= i < |list| && list[i].id == id;
      assert list[1..][i - 1] == list[i];
    }
  }

  // Ids stay unique under every operation.
  lemma ApplyKeepsUnique(list: seq<Tagged>, op: Operation)
    requires Unique(list)
    ensures Unique(NewList(list, op))
  {
    match op
    case Replace(o) => WithoutIsSubsequence(list, o.id);
    case Remove(id) => WithoutIsSubsequence(list, id);
    case _ =>
  }

  // An operation that does not count as a change leaves the list as it is.
  lemma IneffectiveKeepsList(list: seq<Tagged>, op: Operation)
    requires !Effective(list, op)
    ensures NewList(list, op) == list
  {
    if op.Remove? {
      WithoutAbsent(list, op.id);
    }
  }

  // An operation counts exactly if it changes the list, and a replacement always.
  lemma EffectiveIff(list: seq<Tagged>, op: Operation)
    ensures Effective(list, op) <==> op.Replace? || NewList(list, op) != list
  {
    if !Effective(list, op) {
      IneffectiveKeepsList(list, op);
    } else if op.Remove? {
      WithoutIsSubsequence(list, op.id);
    }
  }

  // What every operation does to the list, said of ids and positions: an insertion appends unless
  // the id is there; a removal takes out that id and nothing else, in order, and a replacement then
  // appends; erasing takes one position out.
  lemma OperationsAre(list: seq<Tagged>, o: Tagged, id: UInt64, i: nat)
    ensures NewList(list, Insert(o)) == if HasId(list, o.id) then list else list + [o]
    ensures NewList(list, Remove(id)) == Keep(list, OtherThan(id))
    ensures NewList(list, Replace(o)) == Keep(list, OtherThan(o.id)) + [o]
    ensures i < |list| ==> NewList(list, Erase(i)) == list[..i] + list[i + 1..]
    ensures NewList(list, Clear) == []
  {
    WithoutIsKeep(list, id);
    WithoutIsKeep(list, o.id);
  }

  lemma {:induction false} KeepSplits(a: seq<Tagged>, b: seq<Tagged>, p: Tagged -> bool)
    ensures Keep(a + b, p) == Keep(a, p) + Keep(b, p)
  {
    if b == [] {
      assert a + b == a;
    } else {
      var front, last := b[..|b| - 1], b[|b| - 1];
      assert (a + b)[..|a + b| - 1] == a + front;
      KeepSplits(a, front, p);
    }
  }

  // Keep is the filter: it keeps the order and decides each object by itself.
  lemma KeepIsFilter(a: seq<Tagged>, o: Tagged, b: seq<Tagged>, p: Tagged -> bool)
    ensures Keep([], p) == []
    ensures Keep(a + [o] + b, p) == Keep(a, p) + (if p(o) then [o] else []) + Keep(b, p)
  {
    KeepSplits(a + [o], b, p);
    KeepSplits(a, [o], p);
    assert [o][..0] == [];
  }

  function OtherThan(id: UInt64): Tagged -> bool {
    (t: Tagged) => t.id != id
  }

  lemma {:induction false} WithoutIsKeep(list: seq<Tagged>, id: UInt64)
    ensures Without(list, id) == Keep(list, OtherThan(id))
  {
    if list != [] {
      var first, rest := [list[0]], list[1..];
      assert first[..0] == [] && first + rest == list;
      KeepSplits(first, rest, OtherThan(id));
      WithoutIsKeep(rest, id);
    }
  }

  lemma {:induction false} IdsStayUnique(s: Store, ops: seq<Operation>)
    requires Unique(s.list)
    ensures Unique(ApplyAll(s, ops).list)
    decreases |ops|
  {
    if ops != [] {
      ApplyKeepsUnique(s.list, ops[0]);
      IdsStayUnique(Apply(s, ops[0]), ops[1..]);
    }
  }

  // The counter goes up by the number of effective operations, modulo 2^64.
  lemma {:induction false} CounterCountsChanges(s: Store, ops: seq<Operation>)
    ensures ApplyAll(s, ops).incarnation == Plus(s.incarnation, Changes(s.list, ops))
    decreases |ops|
  {
    if ops != [] {
      CounterCountsChanges(Apply(s, ops[0]), ops[1..]);
      PlusFromNext(s.incarnation, Changes(NewList(s.list, ops[0]), ops[1..]));
    }
  }

  lemma {:induction false} NoChangeKeepsList(s: Store, ops: seq<Operation>)
    requires Changes(s.list, ops) == 0
    ensures ApplyAll(s, ops).list == s.list
    decreases |ops|
  {
    if ops != [] {
      IneffectiveKeepsList(s.list, ops[0]);
      NoChangeKeepsList(Apply(s, ops[0]), ops[1..]);
    }
  }

  lemma WrapAround(known: UInt64, n: nat)
    ensures Changed(Plus(known, n), known) <==> n % MODULUS > 0 && known + n % MODULUS < MODULUS
    ensures known + n < MODULUS ==> n % MODULUS == n
  {
    PlusIsModulo(known, n);
    var q, m := n / MODULUS, n % MODULUS;
    assert n == MODULUS * q + m;
    if known + m < MODULUS {
      assert known + n == MODULUS * q + (known + m);
    } else {
      assert known + n == MODULUS * (q + 1) + (known + m - MODULUS);
    }
  }

  // changed, asked with an incarnation read earlier, tells whether there was an effective operation
  // since then exactly if the counter has not come back to the known value or below it.
  lemma ChangedIff(s: Store, ops: seq<Operation>, n: nat)
    requires n == Changes(s.list, ops)
    ensures var changed := Changed(ApplyAll(s, ops).incarnation, s.incarnation);
            (changed <==> n > 0) <==> (n == 0 || (n % MODULUS > 0 && s.incarnation + n % MODULUS < MODULUS))
  {
    CounterCountsChanges(s, ops);
    WrapAround(s.incarnation, n);
  }

  // Below 2^64 changes in all it always does, and a negative answer means an identical list.
  lemma ChangedBelowWrap(s: Store, ops: seq<Operation>)
    requires s.incarnation + Changes(s.list, ops) < MODULUS
    ensures var changed := Changed(ApplyAll(s, ops).incarnation, s.incarnation);
            (changed <==> Changes(s.list, ops) > 0) && (!changed ==> ApplyAll(s, ops).list == s.list)
  {
    CounterCountsChanges(s, ops);
    WrapAround(s.incarnation, Changes(s.list, ops));
    if Changes(s.list, ops) == 0 {
      NoChangeKeepsList(s, ops);
    }
  }

  // At the top of its range the counter misses a change.
  lemma WrapHidesChange(o: Tagged)
    ensures var s := Store([], MODULUS - 1);
            var t := Apply(s, Insert(o));
            t.list != s.list && !Changed(t.incarnation, s.incarnation)
  {
  }
}
