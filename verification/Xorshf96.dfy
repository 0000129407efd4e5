// The xorshf96 generator (Random.cpp). Its words are unsigned long, which is 32 or 64 bits wide, so
// everything is proved for words of any width.

module BitWords {
  // A machine word, least significant bit first.
  type Word = seq<bool>

  function Zero(width: nat): (r: Word)
    ensures |r| == width && forall i :: 0 <= i < width ==> !r[i]
  {
    seq(width, i => false)
  }

  function FromNat(n: nat, width: nat): (r: Word)
    ensures |r| == width
    decreases width
  {
    if width == 0 then [] else [n % 2 == 1] + FromNat(n / 2, width - 1)
  }

  function ToNat(a: Word): nat {
    if a == [] then 0 else (if a[0] then 1 else 0) + 2 * ToNat(a[1..])
  }

  function Power2(width: nat): nat {
    if width == 0 then 1 else 2 * Power2(width - 1)
  }

  lemma {:induction false} FromNatIsNumber(n: nat, width: nat)
    requires n < Power2(width)
    ensures ToNat(FromNat(n, width)) == n
    decreases width
  {
    if width > 0 {
      FromNatIsNumber(n / 2, width - 1);
    }
  }

  lemma Power2Grows(width: nat)
    requires width >= 32
    ensures Power2(width) >= 0x1_0000_0000
  {
    if width == 32 {
      assert Power2(8) == 0x100;
      assert Power2(16) == 0x1_0000;
      assert Power2(24) == 0x100_0000;
    } else {
      Power2Grows(width - 1);
    }
  }

  function Xor(a: Word, b: Word): (r: Word)
    requires |a| == |b|
    ensures |r| == |a| && forall i :: 0 <= i < |a| ==> r[i] == (a[i] != b[i])
  {
    seq(|a|, i requires 0 <= i < |a| => a[i] != b[i])
  }

  function ShiftLeft(a: Word, k: nat): (r: Word)
    ensures |r| == |a| && forall i :: 0 <= i < |a| ==> r[i] == (i >= k && a[i - k])
  {
    seq(|a|, i requires 0 <= i < |a| => i >= k && a[i - k])
  }

  function ShiftRight(a: Word, k: nat): (r: Word)
    ensures |r| == |a| && forall i :: 0 <= i < |a| ==> r[i] == (i + k < |a| && a[i + k])
  {
    seq(|a|, i requires 0 <= i < |a| => i + k < |a| && a[i + k])
  }

  function XorLeft(a: Word, k: nat): Word {
    Xor(a, ShiftLeft(a, k))
  }

  function XorRight(a: Word, k: nat): Word {
    Xor(a, ShiftRight(a, k))
  }

  // The inverses, bit by bit: a bit that had another mixed into it is freed of that bit again.
  function UndoLeftBit(b: Word, k: nat, i: nat): bool
    requires k > 0 && i < |b|
  {
    b[i] != (i >= k && UndoLeftBit(b, k, i - k))
  }

  function UndoRightBit(b: Word, k: nat, i: nat): bool
    requires k > 0 && i < |b|
    decreases |b| - i
  {
    b[i] != (i + k < |b| && UndoRightBit(b, k, i + k))
  }

  function UndoLeft(b: Word, k: nat): (r: Word)
    requires k > 0
    ensures |r| == |b| && forall i :: 0 <= i < |b| ==> r[i] == UndoLeftBit(b, k, i)
  {
    seq(|b|, i requires 0 <= i < |b| => UndoLeftBit(b, k, i))
  }

  function UndoRight(b: Word, k: nat): (r: Word)
    requires k > 0
    ensures |r| == |b| && forall i :: 0 <= i < |b| ==> r[i] == UndoRightBit(b, k, i)
  {
    seq(|b|, i requires 0 <= i < |b| => UndoRightBit(b, k, i))
  }

  lemma {:induction false} UndoLeftBitIs(a: Word, k: nat, i: nat)
    requires k > 0 && i < |a|
    ensures UndoLeftBit(XorLeft(a, k), k, i) == a[i]
  {
    if i >= k {
      UndoLeftBitIs(a, k, i - k);
    }
  }

  lemma {:induction false} UndoRightBitIs(a: Word, k: nat, i: nat)
    requires k > 0 && i < |a|
    ensures UndoRightBit(XorRight(a, k), k, i) == a[i]
    decreases |a| - i
  {
    if i + k < |a| {
      UndoRightBitIs(a, k, i + k);
    }
  }

  lemma LeftInverse(a: Word, k: nat)
    requires k > 0
    ensures UndoLeft(XorLeft(a, k), k) == a && XorLeft(UndoLeft(a, k), k) == a
  {
    forall i | 0 <= i < |a| ensures UndoLeft(XorLeft(a, k), k)[i] == a[i] {
      UndoLeftBitIs(a, k, i);
    }
    assert XorLeft(UndoLeft(a, k), k) == a;
  }

  lemma RightInverse(a: Word, k: nat)
    requires k > 0
    ensures UndoRight(XorRight(a, k), k) == a && XorRight(UndoRight(a, k), k) == a
  {
    forall i | 0 <= i < |a| ensures UndoRight(XorRight(a, k), k)[i] == a[i] {
      UndoRightBitIs(a, k, i);
    }
    assert XorRight(UndoRight(a, k), k) == a;
  }

  lemma XorIsLinear(a: Word, b: Word, k: nat)
    requires |a| == |b|
    ensures XorLeft(Xor(a, b), k) == Xor(XorLeft(a, k), XorLeft(b, k))
    ensures XorRight(Xor(a, b), k) == Xor(XorRight(a, k), XorRight(b, k))
  {
  }

  function Image<A, B>(f: A -> B, all: set<A>): set<B> {
    set a | a in all :: f(a)
  }

  lemma {:induction false} ImageFits<A, B>(f: A -> B, all: set<A>)
    ensures |Image(f, all)| <= |all|
  {
    if all != {} {
      var a :| a in all;
      var rest := all - {a};
      ImageFits(f, rest);
      assert Image(f, all) == Image(f, rest) + {f(a)};
    }
  }

  function Append(bit: bool): Word -> Word {
    (a: Word) => a + [bit]
  }

  // Every word of a width is in this finite set.
  function AllWords(width: nat): set<Word> {
    if width == 0 then {[]}
    else Image(Append(false), AllWords(width - 1)) + Image(Append(true), AllWords(width - 1))
  }

  // There are no more than 2^width words of a width.
  lemma {:induction false} AllWordsAreFew(width: nat)
    ensures |AllWords(width)| <= Power2(width)
  {
    if width > 0 {
      AllWordsAreFew(width - 1);
      ImageFits(Append(false), AllWords(width - 1));
      ImageFits(Append(true), AllWords(width - 1));
    }
  }

  lemma {:induction false} AllWordsHaveWidth(a: Word, width: nat)
    requires a in AllWords(width)
    ensures |a| == width
    decreases width
  {
    if width > 0 {
      var bit, front :| front in AllWords(width - 1) && a == Append(bit)(front);
      AllWordsHaveWidth(front, width - 1);
    }
  }

  lemma {:induction false} InAllWords(a: Word)
    ensures a in AllWords(|a|)
  {
    if a != [] {
      var front, last := a[..|a| - 1], a[|a| - 1];
      InAllWords(front);
      assert a == Append(last)(front);
    }
  }
}

// Iterating an injective function on a finite set.
module Iteration {
  function Iterate<T>(f: T -> T, s: T, n: nat): T {
    if n == 0 then s else f(Iterate(f, s, n - 1))
  }

  ghost predicate Distinct<T>(list: seq<T>) {
    forall i, j :: 0 <= i < j < |list| ==> list[i] != list[j]
  }

  lemma {:induction false} DistinctFits<T>(list: seq<T>, all: set<T>)
    requires Distinct(list) && forall i :: 0 <= i < |list| ==> list[i] in all
    ensures |list| <= |all|
  {
    if list != [] {
      var front, last := list[..|list| - 1], list[|list| - 1];
      forall i | 0 <= i < |front| ensures front[i] in all - {last} {
        assert front[i] == list[i] != last;
      }
      DistinctFits(front, all - {last});
    }
  }

  ghost predicate Closed<T>(f: T -> T, all: set<T>) {
    forall x :: x in all ==> f(x) in all
  }

  ghost predicate Injective<T>(f: T -> T, all: set<T>) {
    forall x, y :: x in all && y in all && f(x) == f(y) ==> x == y
  }

  lemma {:induction false} StaysInside<T>(f: T -> T, s: T, all: set<T>, n: nat)
    requires s in all && Closed(f, all)
    ensures Iterate(f, s, n) in all
  {
    if n > 0 {
      StaysInside(f, s, all, n - 1);
    }
  }

  lemma SomeRepeat<T>(f: T -> T, s: T, all: set<T>) returns (i: nat, p: nat)
    requires s in all && Closed(f, all)
    ensures 0 < p <= |all| && Iterate(f, s, i) == Iterate(f, s, i + p)
  {
    var list := seq(|all| + 1, k requires k >= 0 => Iterate(f, s, k));
    forall k | 0 <= k < |list| ensures list[k] in all {
      StaysInside(f, s, all, k);
    }
    if Distinct(list) {
      DistinctFits(list, all);
      assert false;
    }
    var j;
    i, j :| 0 <= i < j < |list| && list[i] == list[j];
    p := j - i;
  }

  // Going backwards, a repetition started with the first element.
  lemma {:induction false} RepeatStartsAtFirst<T>(f: T -> T, s: T, all: set<T>, i: nat, p: nat)
    requires s in all && Closed(f, all) && Injective(f, all)
    requires Iterate(f, s, i) == Iterate(f, s, i + p)
    ensures Iterate(f, s, p) == s
  {
    if i > 0 {
      StaysInside(f, s, all, i - 1);
      StaysInside(f, s, all, i - 1 + p);
      RepeatStartsAtFirst(f, s, all, i - 1, p);
    }
  }

  ghost predicate HasPeriod<T>(f: T -> T, s: T, p: nat) {
    forall n: nat :: Iterate(f, s, n + p) == Iterate(f, s, n)
  }

  lemma {:induction false} IterateAgain<T>(f: T -> T, s: T, p: nat, n: nat)
    requires Iterate(f, s, p) == s
    ensures Iterate(f, s, n + p) == Iterate(f, s, n)
  {
    if n > 0 {
      IterateAgain(f, s, p, n - 1);
    }
  }

  lemma PurelyPeriodic<T>(f: T -> T, s: T, all: set<T>)
    requires s in all && Closed(f, all) && Injective(f, all)
    ensures exists p :: 0 < p <= |all| && HasPeriod(f, s, p)
  {
    var i, p := SomeRepeat(f, s, all);
    RepeatStartsAtFirst(f, s, all, i, p);
    forall n: nat ensures Iterate(f, s, n + p) == Iterate(f, s, n) {
      IterateAgain(f, s, p, n);
    }
    assert HasPeriod(f, s, p);
  }
}

module Xorshf96 {
  import opened BitWords
  import opened Iteration

  datatype Triple = Triple(x: Word, y: Word, z: Word)

  // The three words have one width.
  type State = s: Triple | |s.x| == |s.y| == |s.z| witness Triple([], [], [])

  function Mix(x: Word): (r: Word)
    ensures |r| == |x|
  {
    XorLeft(XorRight(XorLeft(x, 16), 5), 1)
  }

  function Unmix(x: Word): (r: Word)
    ensures |r| == |x|
  {
    UndoLeft(UndoRight(UndoLeft(x, 1), 5), 16)
  }

  function Step(s: State): State {
    Triple(s.y, s.z, Xor(Xor(Mix(s.x), s.y), s.z))
  }

  function Unstep(s: State): State {
    Triple(Unmix(Xor(Xor(s.z, s.x), s.y)), s.x, s.y)
  }

  function XorStates(s: State, t: State): State
    requires |s.x| == |t.x|
  {
    Triple(Xor(s.x, t.x), Xor(s.y, t.y), Xor(s.z, t.z))
  }

  function ZeroState(width: nat): State {
    Triple(Zero(width), Zero(width), Zero(width))
  }

  // ---------- the generator ----------

  class Generator {
    const width: nat
    var x: Word
    var y: Word
    var z: Word

    ghost predicate Valid()
      reads this
    {
      |x| == width && |y| == width && |z| == width
    }

    ghost function Contents(): State
      requires Valid()
      reads this
    {
      Triple(x, y, z)
    }

    // The seed is never the zero state, since the first word is odd.
    constructor (width: nat)
      requires width >= 32
      ensures this.width == width && Valid() && Contents() != ZeroState(width)
      ensures ToNat(x) == 123456789 && ToNat(y) == 362436069 && ToNat(z) == 521288629
    {
      this.width := width;
      x := FromNat(123456789, width);
      y := FromNat(362436069, width);
      z := FromNat(521288629, width);
      new;
      Power2Grows(width);
      FromNatIsNumber(123456789, width);
      FromNatIsNumber(362436069, width);
      FromNatIsNumber(521288629, width);
      assert x[0] && !Zero(width)[0];
    }

    method Next() returns (r: Word)
      requires Valid()
      modifies this
      ensures Valid() && Contents() == Step(old(Contents())) && r == Contents().z
    {
      x := Xor(x, ShiftLeft(x, 16));
      x := Xor(x, ShiftRight(x, 5));
      x := Xor(x, ShiftLeft(x, 1));
      var t := x;
      x := y;
      y := z;
      z := Xor(Xor(t, x), y);
      return z;
    }
  }

  // ---------- one step ----------

  lemma MixInverse(x: Word)
    ensures Unmix(Mix(x)) == x && Mix(Unmix(x)) == x
  {
    LeftInverse(x, 16);
    RightInverse(XorLeft(x, 16), 5);
    LeftInverse(XorRight(XorLeft(x, 16), 5), 1);
    LeftInverse(x, 1);
    RightInverse(UndoLeft(x, 1), 5);
    LeftInverse(UndoRight(UndoLeft(x, 1), 5), 16);
  }

  lemma XorCancels(t: Word, y: Word, z: Word)
    requires |t| == |y| == |z|
    ensures Xor(Xor(Xor(Xor(t, y), z), y), z) == t
  {
  }

  // The step is a bijection, with an explicit inverse.
  lemma StepInverse(s: State)
    ensures Unstep(Step(s)) == s && Step(Unstep(s)) == s
  {
    MixInverse(s.x);
    XorCancels(Mix(s.x), s.y, s.z);
    MixInverse(Xor(Xor(s.z, s.x), s.y));
    XorCancels(s.z, s.x, s.y);
  }

  lemma MixIsLinear(a: Word, b: Word)
    requires |a| == |b|
    ensures Mix(Xor(a, b)) == Xor(Mix(a), Mix(b))
  {
    XorIsLinear(a, b, 16);
    XorIsLinear(XorLeft(a, 16), XorLeft(b, 16), 5);
    XorIsLinear(XorRight(XorLeft(a, 16), 5), XorRight(XorLeft(b, 16), 5), 1);
  }

  lemma XorSwaps(a: Word, b: Word, c: Word, d: Word, e: Word, f: Word)
    requires |a| == |b| == |c| == |d| == |e| == |f|
    ensures Xor(Xor(Xor(a, b), Xor(c, d)), Xor(e, f)) == Xor(Xor(Xor(a, c), e), Xor(Xor(b, d), f))
  {
  }

  lemma StepIsLinear(s: State, t: State)
    requires |s.x| == |t.x|
    ensures Step(XorStates(s, t)) == XorStates(Step(s), Step(t))
  {
    MixIsLinear(s.x, t.x);
    XorSwaps(Mix(s.x), Mix(t.x), s.y, t.y, s.z, t.z);
  }

  lemma ZeroIsFixed(width: nat)
    ensures Step(ZeroState(width)) == ZeroState(width)
  {
  }

  // A bit of a word; there are none outside it.
  function Bit(a: Word, i: int): bool {
    0 <= i < |a| && a[i]
  }

  // A bit of the first word with the bit that the shift by 16 brings to it, if it is in the word.
  function Low(a: Word, i: int): bool {
    i < |a| && Bit(a, i) != Bit(a, i - 16)
  }

  // The step, bit by bit: the other two words move up, and every new bit is the XOR of up to ten
  // bits, of the first word at distances 0, -16, 5, -11, -1, -17, 4 and -12.
  lemma StepOnBits(s: State, i: nat)
    requires i < |s.x|
    ensures Step(s).x == s.y && Step(s).y == s.z
    ensures var fromFirst := (Low(s.x, i) != Low(s.x, i + 5)) != (i > 0 && Low(s.x, i - 1) != Low(s.x, i + 4));
            Step(s).z[i] == ((fromFirst != s.y[i]) != s.z[i])
  {
    var a := XorLeft(s.x, 16);
    forall k | 0 <= k < |a| ensures a[k] == Low(s.x, k) {
    }
    var b := XorRight(a, 5);
    assert b[i] == (Low(s.x, i) != Low(s.x, i + 5));
    assert i > 0 ==> b[i - 1] == (Low(s.x, i - 1) != Low(s.x, i + 4));
  }

  // ---------- whole runs ----------

  lemma StepIsInjective(s: State, t: State)
    requires Step(s) == Step(t)
    ensures s == t
  {
    StepInverse(s);
    StepInverse(t);
  }

  lemma StepIsNotZero(s: State, width: nat)
    requires s != ZeroState(width)
    ensures Step(s) != ZeroState(width)
  {
    ZeroIsFixed(width);
    if Step(s) == ZeroState(width) {
      StepIsInjective(s, ZeroState(width));
    }
  }

  // No run from another state ever reaches the zero state.
  lemma {:induction false} NeverZero(s: State, width: nat, n: nat)
    requires s != ZeroState(width)
    ensures Iterate(Step, s, n) != ZeroState(width)
  {
    if n > 0 {
      NeverZero(s, width, n - 1);
      StepIsNotZero(Iterate(Step, s, n - 1), width);
    }
  }

  // The states of a width, made of the words of three times that width.
  function Split(width: nat): Word -> State {
    (a: Word) => if |a| == 3 * width then Triple(a[..width], a[width..2 * width], a[2 * width..]) else ZeroState(width)
  }

  function AllStates(width: nat): set<State> {
    Image(Split(width), AllWords(3 * width))
  }

  lemma StatesHaveWidth(width: nat, s: State)
    requires s in AllStates(width)
    ensures |s.x| == width
  {
  }

  lemma InAllStates(s: State)
    ensures s in AllStates(|s.x|)
  {
    var a := s.x + s.y + s.z;
    InAllWords(a);
    assert Split(|s.x|)(a) == s;
  }

  lemma AllStatesAreFew(width: nat)
    ensures |AllStates(width)| <= Power2(3 * width)
  {
    AllWordsAreFew(3 * width);
    ImageFits(Split(width), AllWords(3 * width));
  }
  ghost predicate Other(width: nat, s: State) {
    |s.x| == width && s != ZeroState(width)
  }

  // The states of a width without the zero state: the step stays among them.
  lemma OtherStates(width: nat) returns (all: set<State>)
    ensures forall s :: s in all <==> Other(width, s)
    ensures |all| < Power2(3 * width)
    ensures Closed(Step, all) && Injective(Step, all)
  {
    all := AllStates(width) - {ZeroState(width)};
    AllStatesAreFew(width);
    InAllStates(ZeroState(width));
    assert ZeroState(width) in AllStates(width);
    forall s: State ensures s in all <==> Other(width, s) {
      if s in all {
        StatesHaveWidth(width, s);
      }
      InAllStates(s);
    }
    forall s | s in all ensures Step(s) in all {
      StepIsNotZero(s, width);
      assert Other(width, Step(s));
    }
    forall s, t | s in all && t in all && Step(s) == Step(t) ensures s == t {
      StepIsInjective(s, t);
    }
  }

  // What the call after n others returns.
  function Output(s: State, n: nat): Word {
    Iterate<State>(Step, s, n + 1).z
  }

  ghost predicate OutputsRepeat(s: State, p: nat) {
    forall n: nat :: Output(s, n + p) == Output(s, n)
  }

  lemma PeriodOfOutputs(s: State, p: nat)
    requires HasPeriod(Step, s, p)
    ensures OutputsRepeat(s, p)
  {
    forall n: nat ensures Output(s, n + p) == Output(s, n) {
      assert Iterate(Step, s, (n + 1) + p) == Iterate(Step, s, n + 1);
    }
  }

  // Every run is purely periodic: it returns to its first state, not to a later one, and repeats
  // from there, and with it the outputs. With words of 32 bits the period is at most 2^96-1.
  lemma RunsArePeriodic(s: State)
    ensures exists p :: 0 < p && (p == 1 || p < Power2(3 * |s.x|)) && HasPeriod(Step, s, p) && OutputsRepeat(s, p)
  {
    var width := |s.x|;
    var p: nat;
    if s == ZeroState(width) {
      p := 1;
      ZeroIsFixed(width);
      assert Iterate(Step, s, 1) == Step(Iterate(Step, s, 0)) == s;
      forall n: nat ensures Iterate(Step, s, n + p) == Iterate(Step, s, n) {
        IterateAgain(Step, s, p, n);
      }
      assert HasPeriod(Step, s, p);
    } else {
      var all := OtherStates(width);
      assert Other(width, s);
      PurelyPeriodic(Step, s, all);
      p :| 0 < p <= |all| && HasPeriod(Step, s, p);
    }
    PeriodOfOutputs(s, p);
  }

  // The generator's object, called any number of times, returns the outputs of the run.
  method Draw(generator: Generator, count: nat) returns (words: seq<Word>)
    requires generator.Valid()
    modifies generator
    ensures generator.Valid() && generator.Contents() == Iterate(Step, old(generator.Contents()), count)
    ensures |words| == count
    ensures forall i :: 0 <= i < count ==> words[i] == Output(old(generator.Contents()), i)
  {
    words := [];
    for n := 0 to count
      invariant generator.Valid() && generator.Contents() == Iterate(Step, old(generator.Contents()), n)
      invariant |words| == n && forall i :: 0 <= i < n ==> words[i] == Output(old(generator.Contents()), i)
    {
      var word := generator.Next();
      words := words + [word];
    }
  }
}
