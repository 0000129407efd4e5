// Text that addresses and numbers are written in: separated parts, and numerals in base 10 and 16.

module Parts {
  import opened Wrappers

  function Join(parts: seq<string>, separator: char): string {
    if parts == [] then ""
    else if |parts| == 1 then parts[0]
    else parts[0] + [separator] + Join(parts[1..], separator)
  }

  function Split(s: string, separator: char): (parts: seq<string>)
    ensures |parts| > 0
  {
    if s == "" then [""]
    else
      var rest := Split(s[1..], separator);
      if s[0] == separator then [""] + rest
      else [[s[0]] + rest[0]] + rest[1..]
  }

  ghost predicate Clean(parts: seq<string>, separator: char) {
    forall i :: 0 <= i < |parts| ==> separator !in parts[i]
  }

  lemma {:induction false} SplitFirst(part: string, rest: string, separator: char)
    requires separator !in part
    ensures Split(part + [separator] + rest, separator) == [part] + Split(rest, separator)
    ensures Split(part, separator) == [part]
  {
    if part == "" {
      assert (part + [separator] + rest)[1..] == rest;
    } else {
      SplitFirst(part[1..], rest, separator);
      assert (part + [separator] + rest)[1..] == part[1..] + [separator] + rest;
      assert [part[0]] + part[1..] == part;
    }
  }

  lemma {:induction false} SplitJoin(parts: seq<string>, separator: char)
    requires parts != [] && Clean(parts, separator)
    ensures Split(Join(parts, separator), separator) == parts
  {
    if |parts| == 1 {
      SplitFirst(parts[0], "", separator);
    } else {
      SplitJoin(parts[1..], separator);
      SplitFirst(parts[0], Join(parts[1..], separator), separator);
    }
  }

  lemma {:induction false} JoinSplit(s: string, separator: char)
    ensures Join(Split(s, separator), separator) == s && Clean(Split(s, separator), separator)
  {
    if s != "" {
      JoinSplit(s[1..], separator);
      var rest := Split(s[1..], separator);
      assert [s[0]] + s[1..] == s;
      if s[0] == separator {
        assert ([""] + rest)[1..] == rest;
      } else {
        assert ([[s[0]] + rest[0]] + rest[1..])[1..] == rest[1..];
      }
    }
  }

  lemma {:induction false} JoinChars(parts: seq<string>, separator: char, chars: set<char>)
    requires separator in chars
    requires forall i, c :: 0 <= i < |parts| && c in parts[i] ==> c in chars
    ensures forall c :: c in Join(parts, separator) ==> c in chars
  {
    if |parts| > 1 {
      JoinChars(parts[1..], separator, chars);
    }
  }

  // The position of the first pair of separators.
  function FindPair(s: string, c: char): (r: Option<nat>)
    ensures r.Some? ==> r.value + 2 <= |s| && s[r.value] == c && s[r.value + 1] == c
  {
    if |s| < 2 then None
    else if s[0] == c && s[1] == c then Some(0)
    else match FindPair(s[1..], c)
      case None => None
      case Some(i) => Some(i + 1)
  }

  function Shift(r: Option<nat>, n: nat): Option<nat> {
    match r case None => None case Some(i) => Some(n + i)
  }

  lemma {:induction false} SkipsPart(part: string, rest: string, c: char)
    requires c !in part && part != ""
    ensures FindPair(part + rest, c) == Shift(FindPair(rest, c), |part|)
  {
    var s := part + rest;
    if |part| == 1 {
      assert s[1..] == rest;
    } else {
      assert s[1..] == part[1..] + rest;
      SkipsPart(part[1..], rest, c);
    }
  }

  lemma {:induction false} SkipsSeparator(rest: string, c: char)
    requires rest != "" && rest[0] != c
    ensures FindPair([c] + rest, c) == Shift(FindPair(rest, c), 1)
  {
    var s := [c] + rest;
    assert s[1..] == rest && s[1] == rest[0];
  }

  lemma {:induction false} SkipsFirst(first: string, rest: string, c: char)
    requires c !in first && first != "" && rest != "" && rest[0] != c
    ensures FindPair(first + ([c] + rest), c) == Shift(FindPair(rest, c), |first| + 1)
  {
    SkipsSeparator(rest, c);
    SkipsPart(first, [c] + rest, c);
  }

  lemma CleanRest(first: string, rest: seq<string>, c: char)
    ensures Clean([first] + rest, c) && "" !in [first] + rest
       <==> c !in first && first != "" && Clean(rest, c) && "" !in rest
  {
    var parts := [first] + rest;
    assert parts[0] == first && parts[1..] == rest;
    assert forall i :: 0 <= i < |rest| ==> parts[i + 1] == rest[i];
    assert forall i :: 1 <= i < |parts| ==> parts[i] == rest[i - 1];
  }

  lemma JoinFirst(parts: seq<string>, c: char, after: string)
    requires |parts| > 1
    ensures Join(parts, c) + after == parts[0] + ([c] + (Join(parts[1..], c) + after))
    ensures |Join(parts, c)| == |parts[0]| + 1 + |Join(parts[1..], c)|
    ensures parts[0] != "" ==> Join(parts, c) != "" && Join(parts, c)[0] == parts[0][0]
  {
  }

  // Nonempty parts without the separator never put two separators next to each other, so the
  // first pair is the one that follows them, if any.
  lemma {:induction false} PairAfterJoin(parts: seq<string>, c: char, after: string)
    requires parts != [] && Clean(parts, c) && "" !in parts
    requires after == "" || FindPair(after, c) == Some(0)
    ensures FindPair(Join(parts, c) + after, c) == Shift(FindPair(after, c), |Join(parts, c)|)
    ensures Join(parts, c) != "" && Join(parts, c)[0] != c
  {
    var first, others := parts[0], parts[1..];
    assert parts == [first] + others;
    CleanRest(first, others, c);
    if others == [] {
      SkipsPart(first, after, c);
    } else {
      var rest := Join(others, c) + after;
      PairAfterJoin(others, c, after);
      SkipsFirst(first, rest, c);
      JoinFirst(parts, c, after);
      assert Join(parts, c) + after == first + ([c] + rest);
    }
  }
}

module Numerals {
  import opened Wrappers

  const DIGITS := "0123456789abcdef"

  function DigitOf(c: char): (r: Option<nat>)
    ensures r.Some? ==> r.value < 16
  {
    if '0' <= c <= '9' then Some(c as int - '0' as int)
    else if 'a' <= c <= 'f' then Some(c as int - 'a' as int + 10)
    else if 'A' <= c <= 'F' then Some(c as int - 'A' as int + 10)
    else None
  }

  predicate IsDigit(c: char, base: nat) {
    DigitOf(c).Some? && DigitOf(c).value < base
  }

  predicate AllDigits(s: string, base: nat) {
    forall i :: 0 <= i < |s| ==> IsDigit(s[i], base)
  }

  function Value(s: string, base: nat): nat
    requires AllDigits(s, base)
  {
    if s == "" then 0 else Value(s[..|s| - 1], base) * base + DigitOf(s[|s| - 1]).value
  }

  // The numeral of n without superfluous zeros, in lower case.
  function Print(n: nat, base: nat): string
    requires base == 10 || base == 16
  {
    if n < base then [DIGITS[n]] else Print(n / base, base) + [DIGITS[n % base]]
  }

  lemma DigitsAreDigits(d: nat)
    requires d < 16
    ensures DigitOf(DIGITS[d]) == Some(d)
    ensures DIGITS[d] == '0' <==> d == 0
  {
  }

  lemma DivMod(n: nat, base: nat)
    requires base == 10 || base == 16
    ensures n / base * base + n % base == n && n % base < base && (n >= base ==> 0 < n / base < n)
  {
  }

  lemma {:induction false} PrintIsNumeral(n: nat, base: nat)
    requires base == 10 || base == 16
    ensures AllDigits(Print(n, base), base)
    ensures Print(n, base) != "" && (Print(n, base)[0] == '0' <==> n == 0)
  {
    DivMod(n, base);
    DigitsAreDigits(n % base);
    if n >= base {
      PrintIsNumeral(n / base, base);
    }
  }

  lemma {:induction false} PrintRoundTrip(n: nat, base: nat)
    requires base == 10 || base == 16
    ensures AllDigits(Print(n, base), base) && Value(Print(n, base), base) == n
    ensures Print(n, base) != "" && (Print(n, base)[0] == '0' <==> n == 0)
    ensures n == 0 ==> Print(n, base) == "0"
  {
    DivMod(n, base);
    DigitsAreDigits(n % base);
    PrintIsNumeral(n, base);
    var s := Print(n, base);
    if n < base {
      assert s[..0] == "";
    } else {
      PrintRoundTrip(n / base, base);
      assert s[..|s| - 1] == Print(n / base, base);
    }
  }

  function Power(base: nat, k: nat): nat {
    if k == 0 then 1 else base * Power(base, k - 1)
  }

  lemma {:induction false} PrintLength(n: nat, base: nat, k: nat)
    requires base == 10 || base == 16
    requires k > 0 && n < Power(base, k)
    ensures |Print(n, base)| <= k
  {
    if n >= base {
      assert Power(base, 1) == base * Power(base, 0) == base;
      assert n / base < Power(base, k - 1);
      PrintLength(n / base, base, k - 1);
    }
  }

  // ---------- numerals, said digit by digit ----------

  // The character c stands for the digit v.
  ghost predicate DigitChar(c: char, v: nat) {
    if v < 10 then c == "0123456789"[v]
    else v < 16 && (c == "abcdef"[v - 10] || c == "ABCDEF"[v - 10])
  }

  // The digit of v at a place, counted from the right.
  function DigitAt(v: nat, base: nat, place: nat): nat
    requires base == 10 || base == 16
  {
    if place == 0 then v % base else DigitAt(v / base, base, place - 1)
  }

  function FromRight(s: string, place: nat): char
    requires place < |s|
  {
    s[|s| - 1 - place]
  }

  // The digits of a text are those of v at their places.
  ghost predicate DigitsAt(s: string, base: nat, v: nat)
    requires base == 10 || base == 16
  {
    forall k: nat :: k < |s| ==> DigitChar(FromRight(s, k), DigitAt(v, base, k))
  }

  // The text is v in this base, perhaps with superfluous zeros in front.
  ghost predicate IsNumeral(s: string, base: nat, v: nat)
    requires base == 10 || base == 16
  {
    v < Power(base, |s|) && DigitsAt(s, base, v)
  }

  // The shortest such text, in lower case.
  ghost predicate IsCanonical(s: string, base: nat, v: nat)
    requires base == 10 || base == 16
  {
    && s != "" && IsNumeral(s, base, v) && (|s| > 1 ==> s[0] != '0')
    && forall c :: c in s ==> !('A' <= c <= 'Z')
  }

  lemma DigitOfIff(c: char, v: nat)
    ensures DigitOf(c) == Some(v) <==> DigitChar(c, v)
  {
  }

  lemma BoundStep(v: nat, base: nat, k: nat)
    requires base == 10 || base == 16
    ensures v < Power(base, k + 1) <==> v / base < Power(base, k)
  {
  }

  lemma DigitsOfFront(s: string, base: nat, v: nat)
    requires (base == 10 || base == 16) && s != "" && DigitsAt(s, base, v)
    ensures DigitsAt(s[..|s| - 1], base, v / base) && DigitChar(s[|s| - 1], v % base)
  {
    var front := s[..|s| - 1];
    forall k: nat | k < |front| ensures DigitChar(FromRight(front, k), DigitAt(v / base, base, k)) {
      assert DigitChar(FromRight(s, k + 1), DigitAt(v, base, k + 1));
    }
    assert DigitChar(FromRight(s, 0), DigitAt(v, base, 0));
  }

  lemma DigitsOfWhole(s: string, base: nat, v: nat)
    requires (base == 10 || base == 16) && s != ""
    requires DigitsAt(s[..|s| - 1], base, v / base) && DigitChar(s[|s| - 1], v % base)
    ensures DigitsAt(s, base, v)
  {
    var front := s[..|s| - 1];
    forall k: nat | k < |s| ensures DigitChar(FromRight(s, k), DigitAt(v, base, k)) {
      if k > 0 {
        assert DigitChar(FromRight(front, k - 1), DigitAt(v / base, base, k - 1));
      }
    }
  }

  lemma NumeralStep(s: string, base: nat, v: nat)
    requires (base == 10 || base == 16) && s != ""
    ensures IsNumeral(s, base, v)
      <==> IsNumeral(s[..|s| - 1], base, v / base) && DigitChar(s[|s| - 1], v % base)
  {
    BoundStep(v, base, |s| - 1);
    if DigitsAt(s, base, v) {
      DigitsOfFront(s, base, v);
    } else if DigitsAt(s[..|s| - 1], base, v / base) && DigitChar(s[|s| - 1], v % base) {
      DigitsOfWhole(s, base, v);
    }
  }

  // The digits of a text are worth v exactly if it is the numeral of v.
  lemma {:induction false} NumeralIff(s: string, base: nat, v: nat)
    requires base == 10 || base == 16
    ensures AllDigits(s, base) && Value(s, base) == v <==> IsNumeral(s, base, v)
  {
    if s == "" {
      assert Power(base, 0) == 1;
    } else {
      var front, last := s[..|s| - 1], s[|s| - 1];
      DivMod(v, base);
      NumeralStep(s, base, v);
      NumeralIff(front, base, v / base);
      DigitOfIff(last, v % base);
      assert s == front + [last];
      if AllDigits(s, base) && Value(s, base) == v {
        assert AllDigits(front, base) && IsDigit(s[|s| - 1], base);
        DivisionIs(Value(front, base), DigitOf(last).value, base);
      }
    }
  }

  lemma DivisionIs(high: nat, digit: nat, base: nat)
    requires (base == 10 || base == 16) && digit < base
    ensures (high * base + digit) / base == high && (high * base + digit) % base == digit
  {
  }

  lemma DigitCharIsPrinted(c: char, v: nat)
    requires DigitChar(c, v) && !('A' <= c <= 'Z')
    ensures c == DIGITS[v]
  {
  }

  lemma PrintedIsNumeral(n: nat, base: nat)
    requires base == 10 || base == 16
    ensures IsCanonical(Print(n, base), base, n)
  {
    PrintRoundTrip(n, base);
    NumeralIff(Print(n, base), base, n);
    PrintIsLowerCase(n, base);
    if |Print(n, base)| > 1 && n == 0 {
      assert false;
    }
  }

  lemma {:induction false} PrintIsLowerCase(n: nat, base: nat)
    requires base == 10 || base == 16
    ensures forall c :: c in Print(n, base) ==> !('A' <= c <= 'Z')
  {
    if n >= base {
      DivMod(n, base);
      PrintIsLowerCase(n / base, base);
    }
  }

  lemma {:induction false} CanonicalIsPrinted(s: string, base: nat, n: nat)
    requires (base == 10 || base == 16) && IsCanonical(s, base, n)
    ensures s == Print(n, base)
  {
    var front, last := s[..|s| - 1], s[|s| - 1];
    assert s == front + [last];
    assert last in s && forall c :: c in front ==> c in s;
    DivMod(n, base);
    NumeralStep(s, base, n);
    DigitCharIsPrinted(last, n % base);
    if |s| == 1 {
      assert Power(base, 0) == 1;
    } else {
      assert front[0] == s[0];
      CanonicalIsPrinted(front, base, n / base);
      PrintIsNumeral(n / base, base);
    }
  }

  // What is printed is exactly the shortest numeral, in lower case.
  lemma PrintIff(s: string, base: nat, n: nat)
    requires base == 10 || base == 16
    ensures s == Print(n, base) <==> IsCanonical(s, base, n)
  {
    PrintedIsNumeral(n, base);
    if IsCanonical(s, base, n) {
      CanonicalIsPrinted(s, base, n);
    }
  }
}
