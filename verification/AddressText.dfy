// Addresses as text. String.cpp leaves this to the platform's inet_pton and inet_ntop: IPv4 in
// dotted decimal, IPv6 as in section 2.2 of RFC 4291, printed as in sections 4 and 5 of RFC 5952.

module AddressText {
  import opened Wrappers
  import opened Net
  import opened Parts
  import opened Numerals

  // ---------- IPv4 ----------

  function ParseOctet(s: string): Option<Byte> {
    if 1 <= |s| <= 3 && AllDigits(s, 10) && (|s| > 1 ==> s[0] != '0') && Value(s, 10) < 0x100
    then Some(Value(s, 10))
    else None
  }

  function ParseV4(s: string): Option<Octets> {
    var parts := Split(s, '.');
    if |parts| != 4 then None
    else
      var a, b, c, d := ParseOctet(parts[0]), ParseOctet(parts[1]), ParseOctet(parts[2]), ParseOctet(parts[3]);
      if a.Some? && b.Some? && c.Some? && d.Some? then Some([a.value, b.value, c.value, d.value]) else None
  }

  function OctetParts(octets: Octets): seq<string> {
    [Print(octets[0], 10), Print(octets[1], 10), Print(octets[2], 10), Print(octets[3], 10)]
  }

  function PrintV4(octets: Octets): string {
    Join(OctetParts(octets), '.')
  }

  lemma DigitsHaveNo(s: string, base: nat, c: char)
    requires AllDigits(s, base) && DigitOf(c).None?
    ensures c !in s
  {
  }

  lemma DecimalChars(s: string)
    requires AllDigits(s, 10)
    ensures forall c :: c in s ==> c in "0123456789"
  {
  }

  lemma OctetText(s: string, octet: Byte)
    ensures ParseOctet(s) == Some(octet) <==> s == Print(octet, 10)
  {
    PrintRoundTrip(octet, 10);
    assert Power(10, 3) == 1000 by { assert Power(10, 1) == 10; assert Power(10, 2) == 100; }
    PrintLength(octet, 10, 3);
    PrintIff(s, 10, octet);
    NumeralIff(s, 10, octet);
    if ParseOctet(s) == Some(octet) {
      DecimalChars(s);
      assert IsCanonical(s, 10, octet);
    }
  }

  // A text is accepted as an IPv4 address if and only if it is the printed form of that address.
  lemma V4Text(s: string, octets: Octets)
    ensures ParseV4(s) == Some(octets) <==> s == PrintV4(octets)
  {
    var parts := OctetParts(octets);
    forall i | 0 <= i < 4 ensures '.' !in parts[i] && ParseOctet(parts[i]) == Some(octets[i]) {
      OctetText(parts[i], octets[i]);
      DigitsHaveNo(parts[i], 10, '.');
    }
    SplitJoin(parts, '.');
    assert octets == [octets[0], octets[1], octets[2], octets[3]];
    assert ParseV4(PrintV4(octets)) == Some(octets);
    if ParseV4(s) == Some(octets) {
      JoinSplit(s, '.');
      var read := Split(s, '.');
      OctetText(read[0], octets[0]);
      OctetText(read[1], octets[1]);
      OctetText(read[2], octets[2]);
      OctetText(read[3], octets[3]);
      assert read == parts;
    }
  }

  // Dotted decimal without looking at the parser: four numerals of one to three digits, none with a
  // superfluous zero, and the bytes they stand for.
  ghost predicate IsOctet(s: string, octet: Byte) {
    1 <= |s| <= 3 && IsNumeral(s, 10, octet) && (|s| > 1 ==> s[0] != '0')
  }

  ghost predicate IsQuad(t: string, parts: seq<string>, octets: Octets) {
    |parts| == 4 && t == Join(parts, '.') && forall i :: 0 <= i < 4 ==> IsOctet(parts[i], octets[i])
  }

  ghost predicate V4Form(t: string, octets: Octets) {
    exists parts :: IsQuad(t, parts, octets)
  }

  lemma OctetIff(s: string, octet: Byte)
    ensures IsOctet(s, octet) <==> s == Print(octet, 10)
  {
    OctetText(s, octet);
    NumeralIff(s, 10, octet);
  }

  // The texts accepted as an IPv4 address are exactly those.
  lemma V4Iff(t: string, octets: Octets)
    ensures ParseV4(t) == Some(octets) <==> V4Form(t, octets)
  {
    V4Text(t, octets);
    var printed := OctetParts(octets);
    forall i | 0 <= i < 4 ensures IsOctet(printed[i], octets[i]) {
      OctetIff(printed[i], octets[i]);
    }
    if t == PrintV4(octets) {
      assert IsQuad(t, printed, octets);
    }
    forall parts | IsQuad(t, parts, octets) ensures t == PrintV4(octets) {
      forall i | 0 <= i < 4 ensures parts[i] == printed[i] {
        OctetIff(parts[i], octets[i]);
      }
      assert parts == printed;
    }
  }

  // ---------- IPv6 ----------

  function ParseGroup(s: string): Option<Word> {
    if 1 <= |s| <= 4 && AllDigits(s, 16) then
      ValueBound(s);
      Some(Value(s, 16))
    else None
  }

  lemma ValueBound(s: string)
    requires |s| <= 4 && AllDigits(s, 16)
    ensures Value(s, 16) < 0x1_0000
  {
    ValueBelowPower(s, 16);
    assert Power(16, 1) == 16 && Power(16, 2) == 0x100 && Power(16, 3) == 0x1000 && Power(16, 4) == 0x1_0000;
    if |s| == 0 || |s| == 1 || |s| == 2 || |s| == 3 || |s| == 4 {}
  }

  lemma {:induction false} ValueBelowPower(s: string, base: nat)
    requires base == 10 || base == 16
    requires AllDigits(s, base)
    ensures Value(s, base) < Power(base, |s|)
  {
    if s != "" {
      ValueBelowPower(s[..|s| - 1], base);
    }
  }

  function Pairs(octets: Octets): seq<Word> {
    [octets[0] as int * 0x100 + octets[1], octets[2] as int * 0x100 + octets[3]]
  }

  function Bytes(high: Word, low: Word): Octets {
    [high / 0x100, high % 0x100, low / 0x100, low % 0x100]
  }

  // Groups of hexadecimal digits; the last part may be an IPv4 address that stands for two groups.
  function ParseParts(parts: seq<string>, dotted: bool): Option<seq<Word>> {
    if parts == [] then Some([])
    else if dotted && |parts| == 1 && ParseV4(parts[0]).Some? then Some(Pairs(ParseV4(parts[0]).value))
    else
      var first := ParseGroup(parts[0]);
      var rest := ParseParts(parts[1..], dotted);
      if first.Some? && rest.Some? then Some([first.value] + rest.value) else None
  }

  function ParseGroups(s: string, dotted: bool): Option<seq<Word>> {
    if s == "" then Some([]) else ParseParts(Split(s, ':'), dotted)
  }

  function Zeros(n: nat): (r: seq<Word>)
    ensures |r| == n && forall i :: 0 <= i < n ==> r[i] == 0
  {
    seq(n, i => 0)
  }

  // "::" stands for one or more groups of zeros and may appear once.
  function Fill(left: Option<seq<Word>>, right: Option<seq<Word>>): Option<Words> {
    if left.Some? && right.Some? && |left.value| + |right.value| <= 7
    then Some(left.value + Zeros(8 - |left.value| - |right.value|) + right.value)
    else None
  }

  function Full(groups: Option<seq<Word>>): Option<Words> {
    if groups.Some? && |groups.value| == 8 then Some(groups.value) else None
  }

  function ParseV6(s: string): Option<Words> {
    match FindPair(s, ':')
    case None => Full(ParseGroups(s, true))
    case Some(i) => Fill(ParseGroups(s[..i], false), ParseGroups(s[i + 2..], true))
  }

  // The number of zero groups from i on.
  function RunLength(ws: seq<Word>, i: nat): (n: nat)
    requires i <= |ws|
    ensures i + n <= |ws|
    decreases |ws| - i
  {
    if i == |ws| || ws[i] != 0 then 0 else 1 + RunLength(ws, i + 1)
  }

  // The longest run of zero groups that starts at i or later, as its start and its length.
  function LongestRun(ws: seq<Word>, i: nat): (r: (nat, nat))
    requires i <= |ws|
    ensures r.0 + r.1 <= |ws| && i <= r.0 && r.1 == RunLength(ws, r.0)
    decreases |ws| - i
  {
    if i == |ws| then (i, 0)
    else
      var later := LongestRun(ws, i + 1);
      if RunLength(ws, i) >= later.1 then (i, RunLength(ws, i)) else later
  }

  // No run is longer, and every earlier run is shorter: sections 4.2.1 and 4.2.3 of RFC 5952.
  lemma {:induction false} LongestRunIsFirst(ws: seq<Word>, i: nat, k: nat)
    requires i <= k <= |ws|
    ensures RunLength(ws, k) <= LongestRun(ws, i).1
    ensures k < LongestRun(ws, i).0 ==> RunLength(ws, k) < LongestRun(ws, i).1
    decreases |ws| - i
  {
    if i < |ws| {
      LongestRunIsFirst(ws, i + 1, if k == i then i + 1 else k);
    }
  }

  lemma {:induction false} RunIsZeros(ws: seq<Word>, i: nat)
    requires i <= |ws|
    ensures ws[i..i + RunLength(ws, i)] == Zeros(RunLength(ws, i))
    ensures i + RunLength(ws, i) < |ws| ==> ws[i + RunLength(ws, i)] != 0
    decreases |ws| - i
  {
    if i < |ws| && ws[i] == 0 {
      RunIsZeros(ws, i + 1);
      var n := RunLength(ws, i);
      assert ws[i..i + n] == [ws[i]] + ws[i + 1..i + n];
    }
  }

  function HexParts(ws: seq<Word>): (parts: seq<string>)
    ensures |parts| == |ws| && forall i :: 0 <= i < |ws| ==> parts[i] == Print(ws[i], 16)
  {
    seq(|ws|, i requires 0 <= i < |ws| => Print(ws[i], 16))
  }

  // The groups, the longest run of two or more zeros shortened to "::", and the tail.
  function PrintGroups(ws: seq<Word>, tail: seq<string>): string {
    var (at, n) := LongestRun(ws, 0);
    if n < 2 then Join(HexParts(ws) + tail, ':')
    else Join(HexParts(ws[..at]), ':') + ("::" + Join(HexParts(ws[at + n..]) + tail, ':'))
  }

  // IPv4-mapped addresses are printed with a dotted tail, and IPv4-compatible ones if the seventh
  // group is not zero: "::5" has no dots.
  predicate HasDottedTail(ws: Words) {
    && ws[..5] == [0, 0, 0, 0, 0]
    && (ws[5] == 0xffff || (ws[5] == 0 && ws[6] != 0))
  }

  function PrintV6(ws: Words): string {
    if HasDottedTail(ws) then PrintGroups(ws[..6], [PrintV4(Bytes(ws[6], ws[7]))])
    else PrintGroups(ws, [])
  }

  // ---------- the grammar ----------

  // One to four hexadecimal digits, in either case, and the group they stand for.
  ghost predicate IsGroup(s: string, w: Word) {
    1 <= |s| <= 4 && IsNumeral(s, 16, w)
  }

  ghost predicate Groups(parts: seq<string>, ws: seq<Word>) {
    |parts| == |ws| && forall i :: 0 <= i < |ws| ==> IsGroup(parts[i], ws[i])
  }

  // What may end an address: nothing, or an IPv4 address that stands for two groups.
  ghost predicate IsTail(tail: seq<string>, ws: seq<Word>) {
    (tail == [] && ws == []) || (|tail| == 1 && exists octets :: IsDottedTail(tail[0], octets, ws))
  }

  ghost predicate IsDottedTail(t: string, octets: Octets, ws: seq<Word>) {
    && V4Form(t, octets) && |ws| == 2
    && ws[0] == octets[0] as int * 0x100 + octets[1] && ws[1] == octets[2] as int * 0x100 + octets[3]
  }

  // All groups written out.
  ghost predicate PlainForm(t: string, ws: Words, parts: seq<string>, tail: seq<string>) {
    && |parts| <= 8 && Groups(parts, ws[..|parts|]) && IsTail(tail, ws[|parts|..])
    && t == Join(parts + tail, ':')
  }

  // A "::" stands for one or more groups of zeros, wherever they are.
  ghost predicate ShortForm(t: string, ws: Words, left: seq<string>, gap: nat, right: seq<string>, tail: seq<string>) {
    && gap > 0 && |left| + gap + |right| <= 8
    && Groups(left, ws[..|left|])
    && (forall i :: |left| <= i < |left| + gap ==> ws[i] == 0)
    && Groups(right, ws[|left| + gap..|left| + gap + |right|])
    && IsTail(tail, ws[|left| + gap + |right|..])
    && t == Join(left, ':') + ("::" + Join(right + tail, ':'))
  }

  // An IPv6 address as in section 2.2 of RFC 4291, without looking at the parser.
  ghost predicate V6Form(t: string, ws: Words) {
    || (exists parts, tail :: PlainForm(t, ws, parts, tail))
    || (exists left, gap: nat, right, tail :: ShortForm(t, ws, left, gap, right, tail))
  }

  // ---------- every text of the grammar is read ----------

  lemma GroupIff(s: string, w: Word)
    ensures ParseGroup(s) == Some(w) <==> IsGroup(s, w)
  {
    NumeralIff(s, 16, w);
  }

  lemma GroupIsClean(s: string, w: Word)
    requires IsGroup(s, w)
    ensures ':' !in s && '.' !in s && s != "" && ParseV4(s) == None
  {
    NumeralIff(s, 16, w);
    DigitsHaveNo(s, 16, ':');
    DigitsHaveNo(s, 16, '.');
    SplitFirst(s, "", '.');
  }

  lemma V4Part(octets: Octets)
    ensures ':' !in PrintV4(octets) && PrintV4(octets) != ""
    ensures ParseV4(PrintV4(octets)) == Some(octets)
    ensures forall c :: c in PrintV4(octets) ==> c == '.' || IsDigit(c, 10)
  {
    V4Text(PrintV4(octets), octets);
    var parts := OctetParts(octets);
    var chars := set c | c in "0123456789.";
    assert '.' in chars;
    forall i, c | 0 <= i < 4 && c in parts[i] ensures c in chars {
      PrintRoundTrip(octets[i], 10);
      DecimalChars(parts[i]);
    }
    JoinChars(parts, '.', chars);
    assert ParseV4("").None?;
  }

  lemma DottedTailIsRead(t: string, octets: Octets, ws: seq<Word>)
    requires IsDottedTail(t, octets, ws)
    ensures ':' !in t && t != "" && ParseV4(t) == Some(octets) && Pairs(octets) == ws
  {
    V4Iff(t, octets);
    V4Text(t, octets);
    V4Part(octets);
  }

  lemma TailIsClean(tail: seq<string>, ws: seq<Word>)
    requires IsTail(tail, ws)
    ensures Clean(tail, ':') && "" !in tail
    ensures tail != [] ==> ParseV4(tail[0]).Some? && Pairs(ParseV4(tail[0]).value) == ws
  {
    if tail != [] {
      var octets :| IsDottedTail(tail[0], octets, ws);
      DottedTailIsRead(tail[0], octets, ws);
    }
  }

  lemma PartsAreClean(parts: seq<string>, ws: seq<Word>, tail: seq<string>, tailWords: seq<Word>)
    requires Groups(parts, ws) && IsTail(tail, tailWords)
    ensures Clean(parts + tail, ':') && "" !in parts + tail
  {
    TailIsClean(tail, tailWords);
    forall i | 0 <= i < |parts| ensures ':' !in parts[i] && parts[i] != "" {
      GroupIsClean(parts[i], ws[i]);
    }
  }

  lemma GroupIsRead(parts: seq<string>, dotted: bool, rest: seq<Word>)
    requires parts != [] && ParseV4(parts[0]) == None && ParseGroup(parts[0]).Some?
    requires ParseParts(parts[1..], dotted) == Some(rest)
    ensures ParseParts(parts, dotted) == Some([ParseGroup(parts[0]).value] + rest)
  {
  }

  lemma {:induction false} PartsAreRead(parts: seq<string>, ws: seq<Word>, tail: seq<string>, tailWords: seq<Word>,
                                        dotted: bool)
    requires Groups(parts, ws) && IsTail(tail, tailWords) && (tail == [] || dotted)
    ensures ParseParts(parts + tail, dotted) == Some(ws + tailWords)
  {
    if parts == [] {
      assert parts + tail == tail && ws + tailWords == tailWords;
      TailIsClean(tail, tailWords);
    } else {
      assert [ws[0]] + (ws[1..] + tailWords) == ws + tailWords;
      assert (parts + tail)[1..] == parts[1..] + tail;
      GroupIff(parts[0], ws[0]);
      GroupIsClean(parts[0], ws[0]);
      PartsAreRead(parts[1..], ws[1..], tail, tailWords, dotted);
      GroupIsRead(parts + tail, dotted, ws[1..] + tailWords);
    }
  }

  lemma JoinedIsRead(parts: seq<string>, ws: seq<Word>, tail: seq<string>, tailWords: seq<Word>, dotted: bool)
    requires Groups(parts, ws) && IsTail(tail, tailWords) && (tail == [] || dotted)
    ensures ParseGroups(Join(parts + tail, ':'), dotted) == Some(ws + tailWords)
  {
    var all := parts + tail;
    PartsAreClean(parts, ws, tail, tailWords);
    PartsAreRead(parts, ws, tail, tailWords, dotted);
    if all != [] {
      SplitJoin(all, ':');
      PairAfterJoin(all, ':', "");
    }
  }

  lemma PlainHasNoPair(parts: seq<string>, ws: seq<Word>, tail: seq<string>, tailWords: seq<Word>)
    requires Groups(parts, ws) && IsTail(tail, tailWords) && |ws| + |tailWords| == 8
    ensures FindPair(Join(parts + tail, ':'), ':') == None
  {
    PartsAreClean(parts, ws, tail, tailWords);
    PairAfterJoin(parts + tail, ':', "");
    assert Join(parts + tail, ':') + "" == Join(parts + tail, ':');
  }

  lemma PlainIsRead(t: string, ws: Words, parts: seq<string>, tail: seq<string>)
    requires PlainForm(t, ws, parts, tail)
    ensures ParseV6(t) == Some(ws)
  {
    var n := |parts|;
    assert ws[..n] + ws[n..] == ws;
    PlainHasNoPair(parts, ws[..n], tail, ws[n..]);
    JoinedIsRead(parts, ws[..n], tail, ws[n..], true);
  }

  lemma PairAfterGroups(left: seq<string>, ws: seq<Word>, right: string)
    requires Groups(left, ws)
    ensures FindPair(Join(left, ':') + ("::" + right), ':') == Some(|Join(left, ':')|)
  {
    PartsAreClean(left, ws, [], []);
    assert left + [] == left;
    if left == [] {
      assert "" + ("::" + right) == "::" + right;
    } else {
      PairAfterJoin(left, ':', "::" + right);
    }
  }

  lemma PairIsRead(s: string, left: string, right: string)
    requires FindPair(s, ':') == Some(|left|) && s == left + ("::" + right)
    ensures ParseV6(s) == Fill(ParseGroups(left, false), ParseGroups(right, true))
  {
    assert s[..|left|] == left;
    assert s[|left| + 2..] == right;
  }

  lemma JoinedShortIsRead(left: seq<string>, before: seq<Word>, gap: nat, right: seq<string>, after: seq<Word>,
                          tail: seq<string>, tailWords: seq<Word>)
    requires Groups(left, before) && Groups(right, after) && IsTail(tail, tailWords)
    requires gap > 0 && |before| + gap + |after| + |tailWords| == 8
    ensures ParseV6(Join(left, ':') + ("::" + Join(right + tail, ':')))
         == Some(before + Zeros(gap) + (after + tailWords))
  {
    var l, r := Join(left, ':'), Join(right + tail, ':');
    LeftIsRead(left, before);
    JoinedIsRead(right, after, tail, tailWords, true);
    PairAfterGroups(left, before, r);
    PairIsRead(l + ("::" + r), l, r);
    FillsGap(before, gap, after + tailWords);
  }

  lemma LeftIsRead(left: seq<string>, before: seq<Word>)
    requires Groups(left, before)
    ensures ParseGroups(Join(left, ':'), false) == Some(before)
  {
    JoinedIsRead(left, before, [], [], false);
    assert left + [] == left && before + [] == before;
  }

  lemma FillsGap(before: seq<Word>, n: nat, right: seq<Word>)
    requires |before| + n + |right| == 8 && n > 0
    ensures Fill(Some(before), Some(right)) == Some(before + Zeros(n) + right)
  {
  }

  lemma Regroup(ws: Words, i: nat, gap: nat, n: nat)
    requires i + gap + n <= 8 && forall k :: i <= k < i + gap ==> ws[k] == 0
    ensures ws[..i] + Zeros(gap) + (ws[i + gap..i + gap + n] + ws[i + gap + n..]) == ws
  {
  }

  lemma ShortIsRead(t: string, ws: Words, left: seq<string>, gap: nat, right: seq<string>, tail: seq<string>)
    requires ShortForm(t, ws, left, gap, right, tail)
    ensures ParseV6(t) == Some(ws)
  {
    var i, j := |left| + gap, |left| + gap + |right|;
    JoinedShortIsRead(left, ws[..|left|], gap, right, ws[i..j], tail, ws[j..]);
    Regroup(ws, |left|, gap, |right|);
  }

  // ---------- and no other ----------

  lemma OneMoreGroup(first: string, rest: seq<string>, ws: seq<Word>)
    requires |rest| < |ws| && IsGroup(first, ws[0]) && Groups(rest, ws[1..][..|rest|])
    ensures Groups([first] + rest, ws[..|rest| + 1]) && ws[1..][|rest|..] == ws[|rest| + 1..]
  {
    assert forall i :: 0 < i <= |rest| ==> IsGroup(([first] + rest)[i], ws[1..][..|rest|][i - 1]);
  }

  lemma {:induction false} PartsHaveForm(parts: seq<string>, dotted: bool, ws: seq<Word>)
    returns (groups: seq<string>, tail: seq<string>)
    requires ParseParts(parts, dotted) == Some(ws)
    ensures parts == groups + tail && |groups| <= |ws| && (tail == [] || dotted)
    ensures Groups(groups, ws[..|groups|]) && IsTail(tail, ws[|groups|..])
  {
    if parts == [] {
      groups, tail := [], [];
    } else if dotted && |parts| == 1 && ParseV4(parts[0]).Some? {
      groups, tail := [], parts;
      var octets := ParseV4(parts[0]).value;
      V4Iff(parts[0], octets);
      assert IsDottedTail(tail[0], octets, ws[0..]);
    } else {
      var rest;
      rest, tail := PartsHaveForm(parts[1..], dotted, ws[1..]);
      groups := [parts[0]] + rest;
      GroupIff(parts[0], ws[0]);
      OneMoreGroup(parts[0], rest, ws);
      assert parts == [parts[0]] + parts[1..];
    }
  }

  lemma GroupsHaveForm(s: string, dotted: bool, ws: seq<Word>) returns (groups: seq<string>, tail: seq<string>)
    requires ParseGroups(s, dotted) == Some(ws)
    ensures s == Join(groups + tail, ':') && |groups| <= |ws| && (tail == [] || dotted)
    ensures Groups(groups, ws[..|groups|]) && IsTail(tail, ws[|groups|..])
  {
    if s == "" {
      groups, tail := [], [];
    } else {
      JoinSplit(s, ':');
      groups, tail := PartsHaveForm(Split(s, ':'), dotted, ws);
    }
  }

  lemma PlainHasForm(t: string, ws: Words)
    requires FindPair(t, ':') == None && ParseV6(t) == Some(ws)
    ensures exists parts, tail :: PlainForm(t, ws, parts, tail)
  {
    var parts, tail := GroupsHaveForm(t, true, ws);
    assert PlainForm(t, ws, parts, tail);
  }

  lemma CutAtPair(t: string, i: nat)
    requires FindPair(t, ':') == Some(i)
    ensures t == t[..i] + ("::" + t[i + 2..])
  {
  }

  lemma ShortIsFilled(t: string, i: nat)
    requires FindPair(t, ':') == Some(i)
    ensures ParseV6(t) == Fill(ParseGroups(t[..i], false), ParseGroups(t[i + 2..], true))
  {
  }

  lemma FilledHasSides(left: Option<seq<Word>>, right: Option<seq<Word>>, ws: Words)
    requires Fill(left, right) == Some(ws)
    ensures left.Some? && right.Some?
    ensures var n := |left.value| + |right.value|; n <= 7 && ws == left.value + Zeros(8 - n) + right.value
  {
  }

  lemma ShortHasForm(t: string, i: nat, ws: Words)
    requires FindPair(t, ':') == Some(i) && ParseV6(t) == Some(ws)
    ensures exists left, gap: nat, right, tail :: ShortForm(t, ws, left, gap, right, tail)
  {
    var l, r := ParseGroups(t[..i], false), ParseGroups(t[i + 2..], true);
    ShortIsFilled(t, i);
    FilledHasSides(l, r, ws);
    CutAtPair(t, i);
    var left := LeftHasForm(t[..i], l.value);
    var right, tail := GroupsHaveForm(t[i + 2..], true, r.value);
    ShortFormOf(t, ws, left, l.value, 8 - |l.value| - |r.value|, right, tail, r.value);
  }

  lemma ShortFormOf(t: string, ws: Words, left: seq<string>, before: seq<Word>, gap: nat,
                    right: seq<string>, tail: seq<string>, after: seq<Word>)
    requires Groups(left, before) && |right| <= |after|
    requires Groups(right, after[..|right|]) && IsTail(tail, after[|right|..])
    requires gap > 0 && ws == before + Zeros(gap) + after
    requires t == Join(left, ':') + ("::" + Join(right + tail, ':'))
    ensures ShortForm(t, ws, left, gap, right, tail)
  {
    FilledIs(ws, before, gap, after, |right|);
  }

  lemma LeftHasForm(s: string, ws: seq<Word>) returns (groups: seq<string>)
    requires ParseGroups(s, false) == Some(ws)
    ensures s == Join(groups, ':') && Groups(groups, ws)
  {
    var tail;
    groups, tail := GroupsHaveForm(s, false, ws);
    assert groups + [] == groups && ws[..|ws|] == ws;
  }

  lemma ReadHasForm(t: string, ws: Words)
    requires ParseV6(t) == Some(ws)
    ensures V6Form(t, ws)
  {
    match FindPair(t, ':')
    case None => PlainHasForm(t, ws);
    case Some(i) => ShortHasForm(t, i, ws);
  }

  lemma FilledIs(ws: Words, before: seq<Word>, gap: nat, after: seq<Word>, n: nat)
    requires ws == before + Zeros(gap) + after && n <= |after|
    ensures var i := |before| + gap;
            ws[..|before|] == before && (forall k :: |before| <= k < i ==> ws[k] == 0)
            && ws[i..i + n] == after[..n] && ws[i + n..] == after[n..]
  {
  }

  // A text is accepted as an IPv6 address exactly if it is one by the grammar.
  lemma V6Iff(t: string, ws: Words)
    ensures ParseV6(t) == Some(ws) <==> V6Form(t, ws)
  {
    if ParseV6(t) == Some(ws) {
      ReadHasForm(t, ws);
    }
    forall parts, tail | PlainForm(t, ws, parts, tail) ensures ParseV6(t) == Some(ws) {
      PlainIsRead(t, ws, parts, tail);
    }
    forall left, gap: nat, right, tail | ShortForm(t, ws, left, gap, right, tail) ensures ParseV6(t) == Some(ws) {
      ShortIsRead(t, ws, left, gap, right, tail);
    }
  }

  // ---------- the printed form ----------

  // The shortest texts of the groups, in lower case: sections 4.1 and 4.3 of RFC 5952.
  ghost predicate CanonicalGroups(parts: seq<string>, ws: seq<Word>) {
    |parts| == |ws| && forall i :: 0 <= i < |ws| ==> IsCanonical(parts[i], 16, ws[i])
  }

  ghost predicate AreZero(ws: seq<Word>, at: nat, n: nat) {
    at + n <= |ws| && forall i :: at <= i < at + n ==> ws[i] == 0
  }

  // Two zero groups or more; nowhere else are there more, and nowhere before as many: sections 4.2.1
  // to 4.2.3 of RFC 5952.
  ghost predicate FirstLongest(ws: seq<Word>, at: nat, n: nat) {
    n >= 2 && AreZero(ws, at, n) && forall a: nat, m: nat :: AreZero(ws, a, m) ==> m <= n && (m == n ==> at <= a)
  }

  ghost predicate HasZeroPair(ws: seq<Word>) {
    exists i :: 0 <= i < |ws| - 1 && ws[i] == 0 == ws[i + 1]
  }

  ghost predicate CanonicalShort(t: string, ws: seq<Word>, tail: seq<string>, at: nat, n: nat,
                                 left: seq<string>, right: seq<string>) {
    && FirstLongest(ws, at, n) && CanonicalGroups(left, ws[..at]) && CanonicalGroups(right, ws[at + n..])
    && t == Join(left, ':') + ("::" + Join(right + tail, ':'))
  }

  ghost predicate CanonicalPlain(t: string, ws: seq<Word>, tail: seq<string>, parts: seq<string>) {
    !HasZeroPair(ws) && CanonicalGroups(parts, ws) && t == Join(parts + tail, ':')
  }

  // The groups and the tail as they should be printed, without looking at the printer.
  ghost predicate CanonicalText(t: string, ws: seq<Word>, tail: seq<string>) {
    || (exists parts :: CanonicalPlain(t, ws, tail, parts))
    || (exists at: nat, n: nat, left, right :: CanonicalShort(t, ws, tail, at, n, left, right))
  }

  lemma HexPartsIff(parts: seq<string>, ws: seq<Word>)
    ensures CanonicalGroups(parts, ws) <==> parts == HexParts(ws)
  {
    if |parts| == |ws| {
      forall i | 0 <= i < |ws| ensures IsCanonical(parts[i], 16, ws[i]) <==> parts[i] == HexParts(ws)[i] {
        PrintIff(parts[i], 16, ws[i]);
      }
    }
  }

  lemma {:induction false} ZerosAreRun(ws: seq<Word>, at: nat, n: nat)
    requires AreZero(ws, at, n)
    ensures n <= RunLength(ws, at)
    decreases n
  {
    if n > 0 {
      ZerosAreRun(ws, at + 1, n - 1);
    }
  }

  // The run that the printer looks for is the one to shorten, if there is one.
  lemma LongestRunIsFirstLongest(ws: seq<Word>)
    ensures var (at, n) := LongestRun(ws, 0);
            if n >= 2 then FirstLongest(ws, at, n) else !HasZeroPair(ws)
  {
    var (at, n) := LongestRun(ws, 0);
    RunIsZeros(ws, at);
    assert AreZero(ws, at, n) by {
      assert forall i :: at <= i < at + n ==> ws[i] == ws[at..at + n][i - at];
    }
    forall a: nat, m: nat | AreZero(ws, a, m) ensures m <= n && (m == n ==> at <= a) {
      ZerosAreRun(ws, a, m);
      LongestRunIsFirst(ws, 0, a);
    }
    if HasZeroPair(ws) {
      var i :| 0 <= i < |ws| - 1 && ws[i] == 0 == ws[i + 1];
      assert AreZero(ws, i, 2);
    }
  }

  lemma LongestIsPair(ws: seq<Word>, at: nat, n: nat)
    requires FirstLongest(ws, at, n)
    ensures HasZeroPair(ws) && (at, n) == LongestRun(ws, 0)
  {
    assert ws[at] == 0 == ws[at + 1];
    LongestRunIsFirstLongest(ws);
  }

  lemma {:induction false} PrintedIsCanonical(ws: seq<Word>, tail: seq<string>)
    ensures CanonicalText(PrintGroups(ws, tail), ws, tail)
  {
    var (at, n) := LongestRun(ws, 0);
    var text := PrintGroups(ws, tail);
    LongestRunIsFirstLongest(ws);
    if n < 2 {
      HexPartsIff(HexParts(ws), ws);
      assert CanonicalPlain(text, ws, tail, HexParts(ws));
    } else {
      HexPartsIff(HexParts(ws[..at]), ws[..at]);
      HexPartsIff(HexParts(ws[at + n..]), ws[at + n..]);
      assert CanonicalShort(text, ws, tail, at, n, HexParts(ws[..at]), HexParts(ws[at + n..]));
    }
  }

  // The groups are printed exactly as they should be.
  lemma {:induction false} PrintGroupsIff(t: string, ws: seq<Word>, tail: seq<string>)
    ensures t == PrintGroups(ws, tail) <==> CanonicalText(t, ws, tail)
  {
    if CanonicalText(t, ws, tail) {
      if parts :| CanonicalPlain(t, ws, tail, parts) {
        PlainIsPrinted(t, ws, tail, parts);
      } else {
        var at: nat, n: nat, left, right :| CanonicalShort(t, ws, tail, at, n, left, right);
        ShortIsPrinted(t, ws, tail, at, n, left, right);
      }
    } else {
      PrintedIsCanonical(ws, tail);
    }
  }

  lemma {:induction false} PlainIsPrinted(t: string, ws: seq<Word>, tail: seq<string>, parts: seq<string>)
    requires CanonicalPlain(t, ws, tail, parts)
    ensures t == PrintGroups(ws, tail)
  {
    var (at, n) := LongestRun(ws, 0);
    LongestRunIsFirstLongest(ws);
    if n >= 2 {
      LongestIsPair(ws, at, n);
    }
    HexPartsIff(parts, ws);
  }

  lemma {:induction false} ShortIsPrinted(t: string, ws: seq<Word>, tail: seq<string>, at: nat, n: nat,
                                          left: seq<string>, right: seq<string>)
    requires CanonicalShort(t, ws, tail, at, n, left, right)
    ensures t == PrintGroups(ws, tail)
  {
    LongestIsPair(ws, at, n);
    HexPartsIff(left, ws[..at]);
    HexPartsIff(right, ws[at + n..]);
  }

  // The address as a number of 128 bits.
  function Number(ws: Words): nat {
    var pair := (i: int) requires 0 <= i < 4 => ws[2 * i] as int * 0x1_0000 + ws[2 * i + 1];
    (pair(0) * 0x1_0000_0000 + pair(1)) * 0x1_0000_0000_0000_0000 + pair(2) * 0x1_0000_0000 + pair(3)
  }

  // The IPv4-mapped addresses ::ffff:0:0/96, and the IPv4-compatible ones of ::/96 from 2^16 on.
  ghost predicate IsDotted(ws: Words) {
    || 0xffff_0000_0000 <= Number(ws) <= 0xffff_ffff_ffff
    || 0x1_0000 <= Number(ws) <= 0xffff_ffff
  }

  lemma DottedTailIff(ws: Words)
    ensures HasDottedTail(ws) <==> IsDotted(ws)
  {
    assert ws[..5] == [ws[0], ws[1], ws[2], ws[3], ws[4]];
  }

  // An IPv6 address as sections 4 and 5 of RFC 5952 recommend, without looking at the printer.
  ghost predicate CanonicalV6(t: string, ws: Words) {
    if IsDotted(ws) then exists tail, octets :: IsDottedTail(tail, octets, ws[6..]) && CanonicalText(t, ws[..6], [tail])
    else CanonicalText(t, ws, [])
  }

  lemma DottedTailIs(t: string, octets: Octets, high: Word, low: Word)
    ensures IsDottedTail(t, octets, [high, low]) <==> octets == Bytes(high, low) && t == PrintV4(octets)
  {
    V4Iff(t, octets);
    V4Text(t, octets);
    var o := Bytes(high, low);
    assert octets == [octets[0], octets[1], octets[2], octets[3]];
    if IsDottedTail(t, octets, [high, low]) {
      BytesOf(octets[0], octets[1], high);
      BytesOf(octets[2], octets[3], low);
    }
  }

  lemma BytesOf(a: Byte, b: Byte, w: Word)
    requires w == a as int * 0x100 + b
    ensures a == w / 0x100 && b == w % 0x100
  {
  }

  // Every address is printed in that form, and in no other.
  lemma PrintV6Iff(t: string, ws: Words)
    ensures t == PrintV6(ws) <==> CanonicalV6(t, ws)
  {
    DottedTailIff(ws);
    if IsDotted(ws) {
      var octets := Bytes(ws[6], ws[7]);
      var tail := PrintV4(octets);
      assert ws[6..] == [ws[6], ws[7]];
      DottedTailIs(tail, octets, ws[6], ws[7]);
      PrintGroupsIff(t, ws[..6], [tail]);
      forall u, o | IsDottedTail(u, o, ws[6..]) ensures u == tail {
        DottedTailIs(u, o, ws[6], ws[7]);
      }
    } else {
      PrintGroupsIff(t, ws, []);
    }
  }

  // ---------- the round trip ----------

  lemma CanonicalIsGroup(s: string, w: Word)
    requires IsCanonical(s, 16, w)
    ensures IsGroup(s, w)
  {
    PrintIff(s, 16, w);
    assert Power(16, 1) == 16 && Power(16, 2) == 0x100 && Power(16, 3) == 0x1000 && Power(16, 4) == 0x1_0000;
    PrintLength(w, 16, 4);
  }

  lemma CanonicalAreGroups(parts: seq<string>, ws: seq<Word>)
    requires CanonicalGroups(parts, ws)
    ensures Groups(parts, ws)
  {
    forall i | 0 <= i < |ws| ensures IsGroup(parts[i], ws[i]) {
      CanonicalIsGroup(parts[i], ws[i]);
    }
  }

  lemma CanonicalTextIsForm(t: string, ws: Words, k: nat, tail: seq<string>)
    requires k <= 8 && CanonicalText(t, ws[..k], tail) && IsTail(tail, ws[k..])
    ensures V6Form(t, ws)
  {
    if parts :| CanonicalPlain(t, ws[..k], tail, parts) {
      CanonicalAreGroups(parts, ws[..k]);
      assert PlainForm(t, ws, parts, tail);
    } else {
      var at: nat, n: nat, left, right :| CanonicalShort(t, ws[..k], tail, at, n, left, right);
      CanonicalShortIsForm(t, ws, k, tail, at, n, left, right);
    }
  }

  lemma CutAgain(ws: Words, k: nat, at: nat, n: nat)
    requires at + n <= k <= 8 && AreZero(ws[..k], at, n)
    ensures ws == ws[..at] + Zeros(n) + ws[at + n..] && ws[..k][..at] == ws[..at]
    ensures ws[at + n..][..k - at - n] == ws[..k][at + n..] && ws[at + n..][k - at - n..] == ws[k..]
  {
    assert forall i :: at <= i < at + n ==> ws[..k][i] == ws[i];
  }

  lemma CanonicalShortIsForm(t: string, ws: Words, k: nat, tail: seq<string>, at: nat, n: nat,
                             left: seq<string>, right: seq<string>)
    requires k <= 8 && CanonicalShort(t, ws[..k], tail, at, n, left, right) && IsTail(tail, ws[k..])
    ensures ShortForm(t, ws, left, n, right, tail)
  {
    CanonicalAreGroups(left, ws[..k][..at]);
    CanonicalAreGroups(right, ws[..k][at + n..]);
    CutAgain(ws, k, at, n);
    ShortFormOf(t, ws, left, ws[..at], n, right, tail, ws[at + n..]);
  }

  // What is printed is an address of the grammar.
  lemma CanonicalIsForm(t: string, ws: Words)
    requires CanonicalV6(t, ws)
    ensures V6Form(t, ws)
  {
    if IsDotted(ws) {
      var tail, octets :| IsDottedTail(tail, octets, ws[6..]) && CanonicalText(t, ws[..6], [tail]);
      assert IsDottedTail([tail][0], octets, ws[6..]);
      CanonicalTextIsForm(t, ws, 6, [tail]);
    } else {
      assert ws[..8] == ws;
      CanonicalTextIsForm(t, ws, 8, []);
    }
  }

  // Every printed IPv6 address is read back as that address.
  lemma V6RoundTrip(ws: Words)
    ensures ParseV6(PrintV6(ws)) == Some(ws)
  {
    PrintV6Iff(PrintV6(ws), ws);
    CanonicalIsForm(PrintV6(ws), ws);
    V6Iff(PrintV6(ws), ws);
  }

  // ---------- colons and dots of the printed form ----------

  lemma HexPartsAreGroups(ws: seq<Word>)
    ensures Groups(HexParts(ws), ws)
  {
    HexPartsIff(HexParts(ws), ws);
    CanonicalAreGroups(HexParts(ws), ws);
  }

  // "::" is printed exactly if two zero groups are next to each other: section 4.2.2 of RFC 5952.
  lemma {:induction false} CompressesIff(ws: seq<Word>, tail: seq<string>, tailWords: seq<Word>)
    requires IsTail(tail, tailWords) && |ws| + |tailWords| == 8
    ensures FindPair(PrintGroups(ws, tail), ':').Some? <==> HasZeroPair(ws)
  {
    var (at, n) := LongestRun(ws, 0);
    LongestRunIsFirstLongest(ws);
    if n < 2 {
      HexPartsAreGroups(ws);
      PlainHasNoPair(HexParts(ws), ws, tail, tailWords);
    } else {
      LongestIsPair(ws, at, n);
      HexPartsAreGroups(ws[..at]);
      PairAfterGroups(HexParts(ws[..at]), ws[..at], Join(HexParts(ws[at + n..]) + tail, ':'));
    }
  }

  lemma {:induction false} JoinHasNo(parts: seq<string>, c: char)
    requires c != ':' && Clean(parts, c)
    ensures c !in Join(parts, ':')
  {
    if |parts| > 1 {
      JoinHasNo(parts[1..], c);
    }
  }

  lemma HexHasNoDot(ws: seq<Word>)
    ensures '.' !in Join(HexParts(ws), ':') && '.' !in Join(HexParts(ws) + [], ':')
  {
    HexPartsAreGroups(ws);
    forall i | 0 <= i < |ws| ensures '.' !in HexParts(ws)[i] {
      GroupIsClean(HexParts(ws)[i], ws[i]);
    }
    JoinHasNo(HexParts(ws), '.');
    assert HexParts(ws) + [] == HexParts(ws);
  }

  lemma {:induction false} LastIsPrinted(parts: seq<string>, last: string, c: char)
    requires c in last
    ensures c in Join(parts + [last], ':')
  {
    if parts != [] {
      LastIsPrinted(parts[1..], last, c);
      assert (parts + [last])[1..] == parts[1..] + [last];
    }
  }

  lemma TailIsPrinted(ws: seq<Word>, last: string, c: char)
    requires c in last
    ensures c in PrintGroups(ws, [last])
  {
    var (at, n) := LongestRun(ws, 0);
    LastIsPrinted(HexParts(ws), last, c);
    LastIsPrinted(HexParts(ws[at + n..]), last, c);
  }

  lemma NoneAround(left: string, right: string, c: char)
    requires c !in left && c !in right && c != ':'
    ensures c !in left + ("::" + right)
  {
  }

  lemma {:induction false} GroupsHaveNoDot(ws: seq<Word>)
    ensures '.' !in PrintGroups(ws, [])
  {
    var (at, n) := LongestRun(ws, 0);
    var text := PrintGroups(ws, []);
    if n < 2 {
      HexHasNoDot(ws);
      assert text == Join(HexParts(ws) + [], ':');
    } else {
      var before, after := ws[..at], ws[at + n..];
      HexHasNoDot(before);
      HexHasNoDot(after);
      var left, right := Join(HexParts(before), ':'), Join(HexParts(after) + [], ':');
      NoneAround(left, right, '.');
      assert text == left + ("::" + right);
    }
  }

  lemma V4HasDot(octets: Octets)
    ensures '.' in PrintV4(octets)
  {
  }

  // Dots are printed exactly for those addresses: section 5 of RFC 5952.
  lemma DottedIff(ws: Words)
    ensures '.' in PrintV6(ws) <==> IsDotted(ws)
  {
    var v4 := Bytes(ws[6], ws[7]);
    DottedTailIff(ws);
    V4HasDot(v4);
    TailIsPrinted(ws[..6], PrintV4(v4), '.');
    GroupsHaveNoDot(ws);
  }
}
