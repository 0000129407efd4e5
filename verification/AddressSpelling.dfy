// Spellings of one IPv6 address: the parser looks neither at the case of a hexadecimal digit nor at
// zeros in front of a group.

module AddressSpelling {
  import opened Wrappers
  import opened Net
  import opened Parts
  import opened Numerals
  import opened AddressText

  // Two parts that are read alike, wherever they stand.
  ghost predicate Alike(p: string, q: string) {
    ParseGroup(p) == ParseGroup(q) && ParseV4(p) == ParseV4(q)
  }

  lemma {:induction false} PartsReadAlike(parts: seq<string>, others: seq<string>, dotted: bool)
    requires |parts| == |others| && forall i :: 0 <= i < |parts| ==> Alike(parts[i], others[i])
    ensures ParseParts(parts, dotted) == ParseParts(others, dotted)
  {
    if parts != [] {
      PartsReadAlike(parts[1..], others[1..], dotted);
    }
  }

  ghost predicate SameHexDigit(c: char, d: char) {
    c == d || exists v :: 10 <= v < 16 && DigitChar(c, v) && DigitChar(d, v)
  }

  // The same text but for the case of some of the digits a to f.
  ghost predicate SameHex(s: string, t: string) {
    |s| == |t| && forall i :: 0 <= i < |s| ==> SameHexDigit(s[i], t[i])
  }

  lemma SameDigit(c: char, d: char)
    requires SameHexDigit(c, d)
    ensures DigitOf(c) == DigitOf(d)
    ensures c != d ==> c != ':' && d != ':' && c != '.' && d != '.' && !IsDigit(c, 10) && !IsDigit(d, 10)
  {
    if c != d {
      var v :| 10 <= v < 16 && DigitChar(c, v) && DigitChar(d, v);
      DigitOfIff(c, v);
      DigitOfIff(d, v);
    }
  }

  lemma {:induction false} SameHexValue(s: string, t: string)
    requires SameHex(s, t)
    ensures AllDigits(s, 16) <==> AllDigits(t, 16)
    ensures AllDigits(s, 16) ==> Value(s, 16) == Value(t, 16)
  {
    forall i | 0 <= i < |s| ensures DigitOf(s[i]) == DigitOf(t[i]) {
      SameDigit(s[i], t[i]);
    }
    assert forall i :: 0 <= i < |s| ==> (IsDigit(s[i], 16) <==> IsDigit(t[i], 16));
    if s != "" && AllDigits(s, 16) {
      SameHexValue(s[..|s| - 1], t[..|t| - 1]);
    }
  }

  lemma SameHexV4(s: string, t: string)
    requires SameHex(s, t) && ParseV4(s).Some?
    ensures s == t
  {
    var octets := ParseV4(s).value;
    V4Text(s, octets);
    V4Part(octets);
    forall i | 0 <= i < |s| ensures s[i] == t[i] {
      SameDigit(s[i], t[i]);
    }
  }

  lemma SameHexIsAlike(s: string, t: string)
    requires SameHex(s, t)
    ensures Alike(s, t)
  {
    SameHexValue(s, t);
    assert SameHex(t, s);
    if ParseV4(s).Some? {
      SameHexV4(s, t);
    } else if ParseV4(t).Some? {
      SameHexV4(t, s);
    }
  }

  ghost predicate SameHexAll(p: seq<string>, q: seq<string>) {
    |p| == |q| && forall i :: 0 <= i < |p| ==> SameHex(p[i], q[i])
  }

  lemma SameHexCons(c: char, d: char, p: seq<string>, q: seq<string>)
    requires SameHexDigit(c, d) && SameHexAll(p, q) && p != []
    ensures SameHexAll([[c] + p[0]] + p[1..], [[d] + q[0]] + q[1..])
  {
    assert SameHex([c] + p[0], [d] + q[0]);
  }

  lemma {:induction false} SameHexSplit(s: string, t: string)
    requires SameHex(s, t)
    ensures SameHexAll(Split(s, ':'), Split(t, ':'))
  {
    if s != "" {
      var p, q := Split(s[1..], ':'), Split(t[1..], ':');
      SameHexSplit(s[1..], t[1..]);
      SameDigit(s[0], t[0]);
      if s[0] == ':' {
        assert SameHexAll([""] + p, [""] + q);
      } else {
        SameHexCons(s[0], t[0], p, q);
      }
    }
  }

  lemma {:induction false} SameHexPair(s: string, t: string)
    requires SameHex(s, t)
    ensures FindPair(s, ':') == FindPair(t, ':')
  {
    if |s| >= 2 {
      SameDigit(s[0], t[0]);
      SameDigit(s[1], t[1]);
      SameHexPair(s[1..], t[1..]);
    }
  }

  lemma SameHexGroups(s: string, t: string, dotted: bool)
    requires SameHex(s, t)
    ensures ParseGroups(s, dotted) == ParseGroups(t, dotted)
  {
    SameHexSplit(s, t);
    var p, q := Split(s, ':'), Split(t, ':');
    forall i | 0 <= i < |p| ensures Alike(p[i], q[i]) {
      SameHexIsAlike(p[i], q[i]);
    }
    PartsReadAlike(p, q, dotted);
  }

  // The case of hexadecimal digits does not matter.
  lemma CaseIsIgnored(s: string, t: string)
    requires SameHex(s, t)
    ensures ParseV6(s) == ParseV6(t)
  {
    SameHexPair(s, t);
    match FindPair(s, ':')
    case None => SameHexGroups(s, t, true);
    case Some(i) =>
      SameHexGroups(s[..i], t[..i], false);
      SameHexGroups(s[i + 2..], t[i + 2..], true);
  }

  // A place for a whole part: what is before it is empty or ends with a colon, what is behind it is
  // empty or begins with one.
  ghost predicate Around(before: string, after: string) {
    (before == "" || before[|before| - 1] == ':') && (after == "" || after[0] == ':')
  }

  lemma {:induction false} SplitAppend(x: string, y: string)
    ensures Split(x + (":" + y), ':') == Split(x, ':') + Split(y, ':')
  {
    var t := x + (":" + y);
    if x == "" {
      assert t[1..] == y;
    } else {
      assert t[1..] == x[1..] + (":" + y);
      SplitAppend(x[1..], y);
    }
  }

  function Ahead(before: string): seq<string> {
    if before == "" then [] else Split(before[..|before| - 1], ':')
  }

  function Behind(after: string): seq<string> {
    if after == "" then [] else Split(after[1..], ':')
  }

  lemma {:induction false} SplitBehind(part: string, after: string)
    requires ':' !in part && (after == "" || after[0] == ':')
    ensures Split(part + after, ':') == [part] + Behind(after)
  {
    SplitFirst(part, "", ':');
    if after == "" {
      assert part + after == part;
    } else {
      assert after == ":" + after[1..];
      SplitAppend(part, after[1..]);
    }
  }

  lemma {:induction false} SplitAround(before: string, part: string, after: string)
    requires Around(before, after) && ':' !in part
    ensures Split(before + (part + after), ':') == Ahead(before) + ([part] + Behind(after))
  {
    SplitBehind(part, after);
    var t := part + after;
    if before == "" {
      assert before + t == t;
    } else {
      var x := before[..|before| - 1];
      SplitAppend(x, t);
      assert before + t == x + (":" + t);
    }
  }

  lemma OneReadAlike(x: seq<string>, p: string, q: string, y: seq<string>, dotted: bool)
    requires Alike(p, q)
    ensures ParseParts(x + ([p] + y), dotted) == ParseParts(x + ([q] + y), dotted)
  {
    PartsReadAlike(x + ([p] + y), x + ([q] + y), dotted);
  }

  lemma GroupsAreParts(s: string, dotted: bool)
    requires s != ""
    ensures ParseGroups(s, dotted) == ParseParts(Split(s, ':'), dotted)
  {
  }

  lemma {:induction false} GroupsReadAlike(before: string, p: string, q: string, after: string, dotted: bool)
    requires Around(before, after) && ':' !in p && ':' !in q && p != "" && q != "" && Alike(p, q)
    ensures ParseGroups(before + (p + after), dotted) == ParseGroups(before + (q + after), dotted)
  {
    SplitAround(before, p, after);
    SplitAround(before, q, after);
    OneReadAlike(Ahead(before), p, q, Behind(after), dotted);
    GroupsAreParts(before + (p + after), dotted);
    GroupsAreParts(before + (q + after), dotted);
  }

  lemma {:induction false} PairBefore(before: string, rest: string)
    requires rest != "" && rest[0] != ':'
    ensures FindPair(before + rest, ':')
         == match FindPair(before, ':') case Some(i) => Some(i) case None => Shift(FindPair(rest, ':'), |before|)
  {
    var t := before + rest;
    if before == "" {
      assert t == rest;
    } else {
      assert t[1..] == before[1..] + rest;
      PairBefore(before[1..], rest);
    }
  }

  lemma CutBefore(before: string, rest: string, i: nat)
    requires FindPair(before, ':') == Some(i) && rest != "" && rest[0] != ':'
    ensures ParseV6(before + rest) == Fill(ParseGroups(before[..i], false), ParseGroups(before[i + 2..] + rest, true))
  {
    PairBefore(before, rest);
    assert (before + rest)[..i] == before[..i] && (before + rest)[i + 2..] == before[i + 2..] + rest;
    ShortIsFilled(before + rest, i);
  }

  lemma CutPlaces(before: string, part: string, after: string, i: nat)
    requires i + 2 <= |after|
    ensures var t, k := before + (part + after), |before| + |part| + i;
            t[..k] == before + (part + after[..i]) && t[k + 2..] == after[i + 2..]
  {
  }

  lemma {:induction false} PairBehind(before: string, part: string, after: string)
    requires FindPair(before, ':') == None && part != "" && ':' !in part
    ensures FindPair(before + (part + after), ':') == Shift(FindPair(after, ':'), |before| + |part|)
  {
    PairBefore(before, part + after);
    SkipsPart(part, after, ':');
  }

  lemma {:induction false} CutBehind(before: string, part: string, after: string, i: nat)
    requires FindPair(before, ':') == None && FindPair(after, ':') == Some(i) && part != "" && ':' !in part
    ensures ParseV6(before + (part + after))
         == Fill(ParseGroups(before + (part + after[..i]), false), ParseGroups(after[i + 2..], true))
  {
    PairBehind(before, part, after);
    CutPlaces(before, part, after, i);
    ShortIsFilled(before + (part + after), |before| + |part| + i);
  }

  lemma NoCut(before: string, part: string, after: string)
    requires FindPair(before, ':') == None && FindPair(after, ':') == None && part != "" && ':' !in part
    ensures ParseV6(before + (part + after)) == Full(ParseGroups(before + (part + after), true))
  {
    PairBehind(before, part, after);
  }

  // A part can be replaced by one that is read alike.
  lemma {:induction false} ReadAlike(before: string, p: string, q: string, after: string)
    requires Around(before, after) && ':' !in p && ':' !in q && p != "" && q != "" && Alike(p, q)
    ensures ParseV6(before + (p + after)) == ParseV6(before + (q + after))
  {
    match FindPair(before, ':')
    case Some(i) =>
      CutBefore(before, p + after, i);
      CutBefore(before, q + after, i);
      GroupsReadAlike(before[i + 2..], p, q, after, true);
    case None =>
      match FindPair(after, ':')
      case Some(i) =>
        CutBehind(before, p, after, i);
        CutBehind(before, q, after, i);
        GroupsReadAlike(before, p, q, after[..i], false);
      case None =>
        NoCut(before, p, after);
        NoCut(before, q, after);
        GroupsReadAlike(before, p, q, after, true);
  }

  lemma {:induction false} ZeroValue(s: string)
    requires AllDigits(s, 16)
    ensures AllDigits("0" + s, 16) && Value("0" + s, 16) == Value(s, 16)
  {
    var t := "0" + s;
    if s == "" {
      assert t[..0] == "";
    } else {
      ZeroValue(s[..|s| - 1]);
      assert t[..|t| - 1] == "0" + s[..|s| - 1];
    }
  }

  // Nor does a zero in front of a group of fewer than four digits.
  lemma ZeroIsIgnored(before: string, s: string, after: string)
    requires Around(before, after) && 1 <= |s| < 4 && AllDigits(s, 16)
    ensures ParseV6(before + ("0" + s + after)) == ParseV6(before + (s + after))
  {
    var t := "0" + s;
    ZeroValue(s);
    ValueBound(s);
    GroupIff(s, Value(s, 16));
    GroupIff(t, Value(s, 16));
    GroupIsClean(s, Value(s, 16));
    GroupIsClean(t, Value(s, 16));
    ReadAlike(before, s, t, after);
  }
}
