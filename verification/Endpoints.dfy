// Endpoints as text (String.cpp): the two grammars, which differ only in the literals before an
// address, the 32-bit port parser whose result is narrowed to 16 bits, and the printer.

module Endpoints {
  import opened Wrappers
  import opened Net
  import opened Parts
  import opened Numerals
  import opened AddressText

  datatype Error = NetworkError

  // A grammar rule does not match, throws from its action, or matches and leaves the rest.
  datatype Parse<+T> = NoMatch | Throws | Match(value: T, rest: string)

  // In a character set of the parser library the backslash stands for itself.
  const V4_CHARS := set c | c in "0123456789\\."
  const V6_CHARS := set c | c in ":ABCDEFabcdef0123456789\\."
  const PORT_CHARS := set c | c in "0123456789"

  // ---------- the rules ----------

  // The characters that +char_ takes: as many as there are, and it never gives one back.
  function Greedy(s: string, chars: set<char>): (r: string)
    ensures r <= s && forall c :: c in r ==> c in chars
    ensures |r| < |s| ==> s[|r|] !in chars
  {
    if s == "" || s[0] !in chars then "" else [s[0]] + Greedy(s[1..], chars)
  }

  function V4Rule(s: string, prefix: string): Parse<Address> {
    if !(prefix <= s) then NoMatch
    else
      var text := Greedy(s[|prefix|..], V4_CHARS);
      if text == "" then NoMatch
      else match ParseV4(text)
        case None => Throws
        case Some(octets) => Match(V4(octets), s[|prefix| + |text|..])
  }

  function V6Rule(s: string, prefix: string): Parse<Address> {
    if !(prefix <= s) then NoMatch
    else
      var text := Greedy(s[|prefix|..], V6_CHARS);
      var rest := s[|prefix| + |text|..];
      if text == "" || rest == "" || rest[0] != ']' then NoMatch
      else match ParseV6(text)
        case None => Throws
        case Some(words) => Match(V6(words), rest[1..])
  }

  function AddressRule(s: string, prefix4: string, prefix6: string): Parse<Address> {
    match V4Rule(s, prefix4)
    case NoMatch => V6Rule(s, prefix6)
    case decided => decided
  }

  const MAX_UINT := 0xffff_ffff

  type UInt32 = n: int | 0 <= n <= MAX_UINT

  // One more digit, if the number stays within 32 bits. That every value on the way does too is
  // part of its type.
  function AddDigit(n: UInt32, digit: UInt32): (r: Option<UInt32>)
    requires digit < 10
    ensures r.Some? <==> n * 10 + digit <= MAX_UINT
    ensures r.Some? ==> r.value == n * 10 + digit
  {
    if n > MAX_UINT / 10 then None
    else
      var shifted: UInt32 := n * 10;
      if shifted > MAX_UINT - digit then None
      else
        var sum: UInt32 := shifted + digit;
        Some(sum)
  }

  function Accumulate(digits: string): Option<UInt32>
    requires AllDigits(digits, 10)
  {
    if digits == "" then Some(0)
    else
      var last := |digits| - 1;
      match Accumulate(digits[..last])
      case None => None
      case Some(n) => AddDigit(n, DigitOf(digits[last]).value)
  }

  function PortRule(s: string): Parse<nat> {
    var digits := Greedy(s, PORT_CHARS);
    PortCharsAreDigits(digits);
    if digits == "" then NoMatch
    else match Accumulate(digits)
      case None => NoMatch
      case Some(n) => Match(n, s[|digits|..])
  }

  lemma PortCharsAreDigits(s: string)
    ensures AllDigits(s, 10) <==> forall c :: c in s ==> c in PORT_CHARS
  {
    if AllDigits(s, 10) {
      DecimalChars(s);
    } else {
      var i :| 0 <= i < |s| && !IsDigit(s[i], 10);
      assert s[i] in s && s[i] !in PORT_CHARS;
    }
  }

  // The whole text, or an error.
  function ParseEndpoint(s: string, prefix4: string, prefix6: string): Result<Endpoint, Error> {
    match AddressRule(s, prefix4, prefix6)
    case Match(address, rest) =>
      if rest == "" || rest[0] != ':' then Err(NetworkError)
      else (match PortRule(rest[1..])
            case Match(port, "") => Ok(Endpoint(address, port % 0x1_0000))
            case _ => Err(NetworkError))
    case _ => Err(NetworkError)
  }

  function StringToEndpoint(s: string): Result<Endpoint, Error> {
    ParseEndpoint(s, "", "[")
  }

  function GoogleToEndpoint(s: string): Result<Endpoint, Error> {
    ParseEndpoint(s, "ipv4:", "ipv6:[")
  }

  function PrintAddress(address: Address): string {
    match address
    case V4(octets) => PrintV4(octets)
    case V6(words) => PrintV6(words)
  }

  function EndpointToString(endpoint: Endpoint): string {
    var text := PrintAddress(endpoint.address);
    (if endpoint.address.V6? then "[" + (text + "]") else text) + (":" + Print(endpoint.port, 10))
  }

  // ---------- in place ----------

  lemma GreedyDigits(s: string, begin: nat) returns (n: nat)
    requires begin <= |s|
    ensures begin + n <= |s| && Greedy(s[begin..], PORT_CHARS) == s[begin..begin + n]
    ensures AllDigits(s[begin..begin + n], 10) && forall i :: begin <= i < begin + n ==> IsDigit(s[i], 10)
    ensures begin + n < |s| ==> !IsDigit(s[begin + n], 10)
  {
    var digits := Greedy(s[begin..], PORT_CHARS);
    n := |digits|;
    PortCharsAreDigits(digits);
    assert digits == s[begin..begin + n];
    assert forall i :: begin <= i < begin + n ==> s[i] == digits[i - begin];
    if begin + n < |s| {
      var next := [s[begin + n]];
      PortCharsAreDigits(next);
      assert next[0] == s[begin..][n];
    }
  }

  lemma PortRuleIs(s: string, begin: nat, n: nat)
    requires begin + n <= |s| && Greedy(s[begin..], PORT_CHARS) == s[begin..begin + n]
    requires AllDigits(s[begin..begin + n], 10)
    ensures PortRule(s[begin..])
         == if n == 0 then NoMatch
            else match Accumulate(s[begin..begin + n]) case None => NoMatch case Some(v) => Match(v, s[begin + n..])
  {
    assert s[begin..][n..] == s[begin + n..];
  }

  // The digits of a number, consumed one by one, n of them from a position in the text.
  method ConsumeDigits(s: string, begin: nat, ghost n: nat) returns (ok: bool, value: UInt32, next: nat)
    requires begin + n <= |s| && AllDigits(s[begin..begin + n], 10)
    requires forall i :: begin <= i < begin + n ==> IsDigit(s[i], 10)
    requires begin + n < |s| ==> !IsDigit(s[begin + n], 10)
    ensures if ok then next == begin + n && Accumulate(s[begin..begin + n]) == Some(value)
            else Accumulate(s[begin..begin + n]) == None
  {
    ok, value, next := true, 0, begin;
    ghost var digits := s[begin..begin + n];
    while next < |s| && IsDigit(s[next], 10)
      invariant begin <= next <= begin + n
      invariant Accumulate(digits[..next - begin]) == Some(value)
    {
      ghost var i := next - begin;
      assert next != begin + n;
      assert digits[i] == s[next];
      assert digits[..i + 1] == digits[..i] + [s[next]];
      var more := AddDigit(value, DigitOf(s[next]).value);
      if more == None {
        OverflowStays(digits, i + 1);
        return false, 0, begin;
      }
      value := more.value;
      next := next + 1;
    }
    assert digits[..n] == digits;
  }

  // The port rule as the source runs it, from a position in the text.
  method ExtractUint(s: string, begin: nat) returns (ok: bool, value: UInt32, next: nat)
    requires begin <= |s|
    ensures ok ==> begin < next <= |s| && PortRule(s[begin..]) == Match(value, s[next..])
    ensures !ok ==> PortRule(s[begin..]) == NoMatch
  {
    ghost var n := GreedyDigits(s, begin);
    PortRuleIs(s, begin, n);
    ok, value, next := ConsumeDigits(s, begin, n);
    ok := ok && next > begin;
  }

  lemma {:induction false} OverflowStays(digits: string, i: nat)
    requires AllDigits(digits, 10) && i <= |digits| && Accumulate(digits[..i]) == None
    ensures Accumulate(digits) == None
  {
    var last := |digits| - 1;
    if i == |digits| {
      assert digits[..i] == digits;
    } else {
      assert digits[..last][..i] == digits[..i];
      OverflowStays(digits[..last], i);
    }
  }

  // The caller's address and port variables.
  class EndpointSlot {
    var address: Address
    var port: Word

    constructor (address: Address, port: Word)
      ensures this.address == address && this.port == port
    {
      this.address, this.port := address, port;
    }

    // from_google_ep: both variables are written on success, neither otherwise.
    method FromGoogle(text: string) returns (result: Result<(), Error>)
      modifies this
      ensures match GoogleToEndpoint(text)
              case Ok(endpoint) => result == Ok(()) && address == endpoint.address && port == endpoint.port
              case Err(error) => result == Err(error) && address == old(address) && port == old(port)
    {
      var found := AddressRule(text, "ipv4:", "ipv6:[");
      if !found.Match? || found.rest == "" || found.rest[0] != ':' {
        return Err(NetworkError);
      }
      var ok, value, next := ExtractUint(found.rest, 1);
      if !ok || next != |found.rest| {
        return Err(NetworkError);
      }
      assert found.rest[next..] == "";
      address := found.value;
      port := value % 0x1_0000;
      return Ok(());
    }
  }

  // ---------- the port ----------

  // A nonempty decimal numeral below 2^32, perhaps with superfluous zeros.
  ghost predicate PortText(s: string, value: nat) {
    s != "" && IsNumeral(s, 10, value) && value < 0x1_0000_0000
  }

  lemma {:induction false} AccumulateIsValue(digits: string)
    requires AllDigits(digits, 10)
    ensures Accumulate(digits) == if Value(digits, 10) < 0x1_0000_0000 then Some(Value(digits, 10)) else None
  {
    if digits != "" {
      AccumulateIsValue(digits[..|digits| - 1]);
    }
  }

  lemma {:induction false} GreedyTakes(s: string, rest: string, chars: set<char>)
    requires forall c :: c in s ==> c in chars
    requires rest == "" || rest[0] !in chars
    ensures Greedy(s + rest, chars) == s
  {
    if s == "" {
      assert s + rest == rest;
    } else {
      assert s[0] in s && (s + rest)[1..] == s[1..] + rest;
      GreedyTakes(s[1..], rest, chars);
    }
  }

  // The port rule takes exactly the nonempty numerals below 2^32, leading zeros included.
  lemma PortIff(s: string, value: nat)
    ensures PortRule(s) == Match(value, "") <==> PortText(s, value)
  {
    PortCharsAreDigits(s);
    var digits := Greedy(s, PORT_CHARS);
    PortCharsAreDigits(digits);
    AccumulateIsValue(digits);
    NumeralIff(s, 10, value);
    if PortText(s, value) {
      GreedyTakes(s, "", PORT_CHARS);
      assert s + "" == s;
    }
    if PortRule(s) == Match(value, "") {
      assert digits == s;
    }
  }

  // ---------- the declarative grammar ----------

  ghost predicate IsGrammar(prefix4: string, prefix6: string) {
    (prefix4 == "" && prefix6 == "[") || (prefix4 == "ipv4:" && prefix6 == "ipv6:[")
  }

  // a is an address in its literals, and t the text of the address itself.
  ghost predicate AddressForm(a: string, t: string, address: Address, prefix4: string, prefix6: string) {
    match address
    case V4(octets) => a == prefix4 + t && V4Form(t, octets)
    case V6(words) => a == prefix6 + (t + "]") && V6Form(t, words)
  }

  ghost predicate EndpointForm(s: string, a: string, t: string, p: string, value: nat, endpoint: Endpoint,
                               prefix4: string, prefix6: string) {
    && s == a + (":" + p)
    && AddressForm(a, t, endpoint.address, prefix4, prefix6)
    && PortText(p, value) && endpoint.port == value % 0x1_0000
  }

  lemma V4Chars(t: string)
    requires ParseV4(t).Some?
    ensures t != "" && forall c :: c in t ==> c in V4_CHARS
  {
    var octets := ParseV4(t).value;
    V4Text(t, octets);
    V4Part(octets);
    forall c | c in t ensures c in V4_CHARS {
      if c != '.' {
        DecimalChars([c]);
        assert c in [c];
      }
    }
  }

  lemma GroupChars(s: string)
    requires AllDigits(s, 16)
    ensures forall c :: c in s ==> c in V6_CHARS
  {
  }

  lemma {:induction false} PartChars(parts: seq<string>, dotted: bool)
    requires ParseParts(parts, dotted).Some?
    ensures forall i, c :: 0 <= i < |parts| && c in parts[i] ==> c in V6_CHARS
  {
    if parts != [] {
      if dotted && |parts| == 1 && ParseV4(parts[0]).Some? {
        V4Chars(parts[0]);
      } else {
        GroupChars(parts[0]);
        PartChars(parts[1..], dotted);
        assert forall i :: 0 < i < |parts| ==> parts[i] == parts[1..][i - 1];
      }
    }
  }

  lemma GroupsChars(s: string, dotted: bool)
    requires ParseGroups(s, dotted).Some?
    ensures forall c :: c in s ==> c in V6_CHARS
  {
    if s != "" {
      var parts := Split(s, ':');
      PartChars(parts, dotted);
      JoinSplit(s, ':');
      JoinChars(parts, ':', V6_CHARS);
    }
  }

  lemma V6Chars(t: string)
    requires ParseV6(t).Some?
    ensures t != "" && forall c :: c in t ==> c in V6_CHARS
  {
    match FindPair(t, ':')
    case None => GroupsChars(t, true);
    case Some(i) =>
      GroupsChars(t[..i], false);
      GroupsChars(t[i + 2..], true);
      assert t == t[..i] + [':', ':'] + t[i + 2..];
  }

  lemma AfterPrefix(s: string, prefix: string, t: string, rest: string)
    requires s == prefix + (t + rest)
    ensures prefix <= s && s[|prefix|..] == t + rest && s[|prefix| + |t|..] == rest
  {
  }

  lemma V4FormParses(t: string, octets: Octets, rest: string, prefix4: string, prefix6: string)
    requires IsGrammar(prefix4, prefix6) && ParseV4(t) == Some(octets)
    requires rest != "" && rest[0] == ':'
    ensures AddressRule(prefix4 + (t + rest), prefix4, prefix6) == Match(V4(octets), rest)
  {
    V4Chars(t);
    GreedyTakes(t, rest, V4_CHARS);
    AfterPrefix(prefix4 + (t + rest), prefix4, t, rest);
  }

  lemma V4RuleMisses(s: string, prefix4: string, prefix6: string)
    requires IsGrammar(prefix4, prefix6) && prefix6 <= s
    ensures V4Rule(s, prefix4) == NoMatch
  {
    if prefix4 == "" {
      assert s[0] == '[' && s[|prefix4|..] == s;
    } else {
      assert s[3] == '6' && prefix4[3] == '4';
    }
  }

  lemma V6RuleTakes(s: string, t: string, words: Words, close: string, prefix: string)
    requires ParseV6(t) == Some(words) && s == prefix + (t + close)
    requires close != "" && close[0] == ']'
    ensures V6Rule(s, prefix) == Match(V6(words), close[1..])
  {
    V6Chars(t);
    assert ']' !in V6_CHARS;
    GreedyTakes(t, close, V6_CHARS);
    AfterPrefix(s, prefix, t, close);
    var text := Greedy(s[|prefix|..], V6_CHARS);
    assert text == t && s[|prefix| + |text|..] == close;
  }

  lemma V6FormParses(t: string, words: Words, rest: string, prefix4: string, prefix6: string)
    requires IsGrammar(prefix4, prefix6) && ParseV6(t) == Some(words)
    ensures AddressRule(prefix6 + (t + ("]" + rest)), prefix4, prefix6) == Match(V6(words), rest)
  {
    var close := "]" + rest;
    assert close[1..] == rest;
    V4RuleMisses(prefix6 + (t + close), prefix4, prefix6);
    V6RuleTakes(prefix6 + (t + close), t, words, close, prefix6);
  }

  lemma Assoc(a: string, b: string, c: string)
    ensures (a + b) + c == a + (b + c)
  {
  }

  lemma AddressFormParses(a: string, t: string, address: Address, rest: string, prefix4: string, prefix6: string)
    requires IsGrammar(prefix4, prefix6) && AddressForm(a, t, address, prefix4, prefix6)
    requires rest != "" && rest[0] == ':'
    ensures AddressRule(a + rest, prefix4, prefix6) == Match(address, rest)
  {
    match address
    case V4(octets) =>
      V4Iff(t, octets);
      Assoc(prefix4, t, rest);
      V4FormParses(t, octets, rest, prefix4, prefix6);
    case V6(words) =>
      V6Iff(t, words);
      Assoc(prefix6, t + "]", rest);
      Assoc(t, "]", rest);
      V6FormParses(t, words, rest, prefix4, prefix6);
  }

  lemma FormParses(s: string, a: string, t: string, p: string, value: nat, endpoint: Endpoint,
                   prefix4: string, prefix6: string)
    requires IsGrammar(prefix4, prefix6) && EndpointForm(s, a, t, p, value, endpoint, prefix4, prefix6)
    ensures ParseEndpoint(s, prefix4, prefix6) == Ok(endpoint)
  {
    var rest := ":" + p;
    assert rest[1..] == p;
    AddressFormParses(a, t, endpoint.address, rest, prefix4, prefix6);
    PortIff(p, value);
  }

  lemma Rejoin(s: string, prefix: string, t: string)
    requires prefix <= s && t <= s[|prefix|..]
    ensures s == prefix + (t + s[|prefix| + |t|..])
  {
  }

  lemma V4RuleForm(s: string, prefix: string, address: Address, rest: string) returns (t: string)
    requires V4Rule(s, prefix) == Match(address, rest)
    ensures address.V4? && V4Form(t, address.octets) && s == prefix + (t + rest)
  {
    t := Greedy(s[|prefix|..], V4_CHARS);
    V4Iff(t, address.octets);
    Rejoin(s, prefix, t);
  }

  lemma V6RuleForm(s: string, prefix: string, address: Address, rest: string) returns (t: string)
    requires V6Rule(s, prefix) == Match(address, rest)
    ensures address.V6? && V6Form(t, address.words) && s == prefix + (t + ("]" + rest))
  {
    t := Greedy(s[|prefix|..], V6_CHARS);
    Rejoin(s, prefix, t);
    var close := s[|prefix| + |t|..];
    assert close == [close[0]] + close[1..];
    V6Iff(t, V6Rule(s, prefix).value.words);
  }

  lemma AddressRuleForm(s: string, address: Address, rest: string, prefix4: string, prefix6: string)
    returns (a: string, t: string)
    requires AddressRule(s, prefix4, prefix6) == Match(address, rest)
    ensures AddressForm(a, t, address, prefix4, prefix6) && s == a + rest
  {
    if V4Rule(s, prefix4).NoMatch? {
      t := V6RuleForm(s, prefix6, address, rest);
      a := prefix6 + (t + "]");
      Assoc(prefix6, t + "]", rest);
      Assoc(t, "]", rest);
    } else {
      t := V4RuleForm(s, prefix4, address, rest);
      a := prefix4 + t;
      Assoc(prefix4, t, rest);
    }
  }

  lemma ParsesHaveForm(s: string, endpoint: Endpoint, prefix4: string, prefix6: string)
    returns (a: string, t: string, p: string, value: nat)
    requires ParseEndpoint(s, prefix4, prefix6) == Ok(endpoint)
    ensures EndpointForm(s, a, t, p, value, endpoint, prefix4, prefix6)
  {
    var rest := AddressRule(s, prefix4, prefix6).rest;
    a, t := AddressRuleForm(s, endpoint.address, rest, prefix4, prefix6);
    p := rest[1..];
    value := PortRule(p).value;
    PortIff(p, value);
    assert rest == ":" + p;
  }

  // The greedy parsers, which never give a character back, accept exactly the texts of the
  // declarative grammar: an address in its literals, a colon and a port numeral. The endpoint has
  // that address, and the numeral's value modulo 2^16 as its port.
  lemma AcceptsIff(s: string, endpoint: Endpoint, prefix4: string, prefix6: string)
    requires IsGrammar(prefix4, prefix6)
    ensures ParseEndpoint(s, prefix4, prefix6) == Ok(endpoint)
      <==> exists a, t, p, value :: EndpointForm(s, a, t, p, value, endpoint, prefix4, prefix6)
  {
    if ParseEndpoint(s, prefix4, prefix6) == Ok(endpoint) {
      var a, t, p, value := ParsesHaveForm(s, endpoint, prefix4, prefix6);
    }
    forall a, t, p, value | EndpointForm(s, a, t, p, value, endpoint, prefix4, prefix6)
      ensures ParseEndpoint(s, prefix4, prefix6) == Ok(endpoint)
    {
      FormParses(s, a, t, p, value, endpoint, prefix4, prefix6);
    }
  }

  lemma PortTextIs(s: string, value: nat)
    requires PortText(s, value)
    ensures ':' !in s && AllDigits(s, 10) && Value(s, 10) == value
  {
    NumeralIff(s, 10, value);
    DecimalChars(s);
  }

  lemma AddressTextIs(a: string, t: string, u: string, address: Address, prefix4: string, prefix6: string)
    requires AddressForm(a, t, address, prefix4, prefix6) && AddressForm(a, u, address, prefix4, prefix6)
    ensures t == u
  {
    match address
    case V4(_) =>
      assert t + "" == t && u + "" == u;
      SameMiddle(prefix4, t, u, "");
    case V6(_) => SameMiddle(prefix6, t, u, "]");
  }

  // A text is an endpoint in at most one way.
  lemma SplitIsUnique(s: string, a: string, t: string, p: string, v: nat, e: Endpoint,
                      b: string, u: string, q: string, w: nat, f: Endpoint, prefix4: string, prefix6: string)
    requires IsGrammar(prefix4, prefix6)
    requires EndpointForm(s, a, t, p, v, e, prefix4, prefix6) && EndpointForm(s, b, u, q, w, f, prefix4, prefix6)
    ensures a == b && t == u && p == q && v == w && e == f
  {
    FormParses(s, a, t, p, v, e, prefix4, prefix6);
    FormParses(s, b, u, q, w, f, prefix4, prefix6);
    PortTextIs(p, v);
    PortTextIs(q, w);
    LastColon(a, p, b, q);
    AddressTextIs(a, t, u, e.address, prefix4, prefix6);
  }

  lemma SameMiddle(prefix: string, t: string, u: string, close: string)
    requires prefix + (t + close) == prefix + (u + close)
    ensures t == u
  {
    AfterPrefix(prefix + (t + close), prefix, t, close);
    AfterPrefix(prefix + (u + close), prefix, u, close);
    assert t == (t + close)[..|t|] && u == (u + close)[..|u|];
  }

  lemma LastColon(a: string, p: string, b: string, q: string)
    requires a + (":" + p) == b + (":" + q) && ':' !in p && ':' !in q
    ensures a == b && p == q
  {
    var s := a + (":" + p);
    assert s[|a|] == ':' && s[|b|] == ':';
    assert forall i :: |a| < i < |s| ==> s[i] == p[i - |a| - 1];
    assert forall i :: |b| < i < |s| ==> s[i] == q[i - |b| - 1];
    assert |a| == |b|;
    assert a == s[..|a|] && b == s[..|b|];
    assert p == s[|a| + 1..] && q == s[|b| + 1..];
  }

  function Family(address: Address): string {
    if address.V4? then "ipv4:" else "ipv6:"
  }

  lemma FamilyInFront(a: string, t: string, address: Address)
    requires AddressForm(a, t, address, "", "[")
    ensures AddressForm(Family(address) + a, t, address, "ipv4:", "ipv6:[")
  {
    match address
    case V4(_) => assert "ipv4:" + ("" + t) == "ipv4:" + t;
    case V6(_) => assert "ipv6:" + ("[" + (t + "]")) == "ipv6:[" + (t + "]");
  }

  lemma FamilyRemoved(a: string, t: string, address: Address)
    requires AddressForm(a, t, address, "ipv4:", "ipv6:[")
    ensures |a| >= 5 && a[..5] == Family(address) && AddressForm(a[5..], t, address, "", "[")
  {
    match address
    case V4(_) => assert a[5..] == "" + t;
    case V6(_) => assert a[5..] == "[" + (t + "]");
  }

  lemma DropFront(a: string, rest: string, n: nat)
    requires n <= |a|
    ensures (a + rest)[..n] == a[..n] && (a + rest)[n..] == a[n..] + rest
  {
  }

  lemma GoogleIsPlain(s: string, endpoint: Endpoint)
    requires ParseEndpoint(s, "ipv4:", "ipv6:[") == Ok(endpoint)
    ensures |s| >= 5 && s[..5] == Family(endpoint.address) && ParseEndpoint(s[5..], "", "[") == Ok(endpoint)
  {
    var a, t, p, value := ParsesHaveForm(s, endpoint, "ipv4:", "ipv6:[");
    FamilyRemoved(a, t, endpoint.address);
    DropFront(a, ":" + p, 5);
    FormParses(s[5..], a[5..], t, p, value, endpoint, "", "[");
  }

  lemma PlainIsGoogle(s: string, endpoint: Endpoint)
    requires |s| >= 5 && s[..5] == Family(endpoint.address) && ParseEndpoint(s[5..], "", "[") == Ok(endpoint)
    ensures ParseEndpoint(s, "ipv4:", "ipv6:[") == Ok(endpoint)
  {
    var a, t, p, value := ParsesHaveForm(s[5..], endpoint, "", "[");
    FamilyInFront(a, t, endpoint.address);
    Assoc(s[..5], a, ":" + p);
    assert s == s[..5] + s[5..];
    FormParses(s, s[..5] + a, t, p, value, endpoint, "ipv4:", "ipv6:[");
  }

  // The google parser accepts exactly the plain parser's texts with the address family in front,
  // with the same address and port.
  lemma GoogleIff(s: string, endpoint: Endpoint)
    ensures GoogleToEndpoint(s) == Ok(endpoint)
      <==> |s| >= 5 && s[..5] == Family(endpoint.address) && StringToEndpoint(s[5..]) == Ok(endpoint)
  {
    if GoogleToEndpoint(s) == Ok(endpoint) {
      GoogleIsPlain(s, endpoint);
    } else if |s| >= 5 && s[..5] == Family(endpoint.address) && StringToEndpoint(s[5..]) == Ok(endpoint) {
      PlainIsGoogle(s, endpoint);
    }
  }

  // ---------- round trips ----------

  // The address text that should be printed, without looking at the printer: dotted decimal without
  // superfluous zeros, or the form of sections 4 and 5 of RFC 5952.
  ghost predicate CanonicalAddress(t: string, address: Address) {
    match address
    case V4(octets) => V4Form(t, octets)
    case V6(words) => CanonicalV6(t, words)
  }

  // In brackets for IPv6, as in section 6 of RFC 5952, and followed by the port.
  ghost predicate CanonicalEndpoint(s: string, t: string, p: string, endpoint: Endpoint) {
    && CanonicalAddress(t, endpoint.address) && IsCanonical(p, 10, endpoint.port)
    && s == (if endpoint.address.V6? then "[" + (t + "]") else t) + (":" + p)
  }

  lemma PrintAddressIff(t: string, address: Address)
    ensures t == PrintAddress(address) <==> CanonicalAddress(t, address)
  {
    match address
    case V4(octets) =>
      V4Text(t, octets);
      V4Iff(t, octets);
    case V6(words) => PrintV6Iff(t, words);
  }

  // An endpoint is printed in that form, and in no other.
  lemma EndpointToStringIff(s: string, endpoint: Endpoint)
    ensures s == EndpointToString(endpoint) <==> exists t, p :: CanonicalEndpoint(s, t, p, endpoint)
  {
    var text, port := PrintAddress(endpoint.address), Print(endpoint.port, 10);
    PrintAddressIff(text, endpoint.address);
    PrintIff(port, 10, endpoint.port);
    if s == EndpointToString(endpoint) {
      assert CanonicalEndpoint(s, text, port, endpoint);
    }
    forall t, p | CanonicalEndpoint(s, t, p, endpoint) ensures s == EndpointToString(endpoint) {
      PrintAddressIff(t, endpoint.address);
      PrintIff(p, 10, endpoint.port);
    }
  }

  lemma PrintedForm(address: Address)
    ensures var t := PrintAddress(address);
            AddressForm(if address.V6? then "[" + (t + "]") else t, t, address, "", "[")
  {
    var t := PrintAddress(address);
    PrintAddressIff(t, address);
    match address
    case V4(_) => assert "" + t == t;
    case V6(words) => CanonicalIsForm(t, words);
  }

  // Every endpoint is read back from its printed form.
  lemma RoundTrip(endpoint: Endpoint)
    ensures StringToEndpoint(EndpointToString(endpoint)) == Ok(endpoint)
  {
    var t := PrintAddress(endpoint.address);
    var a := if endpoint.address.V6? then "[" + (t + "]") else t;
    var port := Print(endpoint.port, 10);
    PrintedForm(endpoint.address);
    PrintIff(port, 10, endpoint.port);
    FormParses(a + (":" + port), a, t, port, endpoint.port, endpoint, "", "[");
  }

  // For example, the loopback address.
  lemma LoopbackIsPrinted(ws: Words)
    requires ws == [0, 0, 0, 0, 0, 0, 0, 1]
    ensures PrintAddress(V6(ws)) == "::1"
  {
    assert Power(16, 1) == 16;
    assert FromRight("1", 0) == '1';
    assert IsCanonical("1", 16, 1);
    assert ws[7] == 1 && ws[7..] == [1];
    assert FirstLongest(ws, 0, 7);
    assert ["1"] + [] == ["1"];
    assert CanonicalShort("::1", ws, [], 0, 7, [], ["1"]);
    assert Number(ws) == 1;
    PrintAddressIff("::1", V6(ws));
  }

  // Printing normalizes: reading what was printed for an accepted text gives the same endpoint,
  // and two texts print alike exactly when they mean the same endpoint.
  lemma PrintNormalizes(s: string, t: string)
    requires StringToEndpoint(s).Ok? && StringToEndpoint(t).Ok?
    ensures var e, f := StringToEndpoint(s).value, StringToEndpoint(t).value;
            && StringToEndpoint(EndpointToString(e)) == StringToEndpoint(s)
            && (EndpointToString(e) == EndpointToString(f) <==> e == f)
  {
    RoundTrip(StringToEndpoint(s).value);
    RoundTrip(StringToEndpoint(t).value);
  }
}

module Itoa {
  import opened Numerals

  // A string with an iterator that appends to it.
  class StringSink {
    var text: string

    constructor ()
      ensures text == ""
    {
      text := "";
    }

    method Put(c: char)
      modifies this
      ensures text == old(text) + [c]
    {
      text := text + [c];
    }

    // The digits of n, most significant first.
    method Generate(n: nat)
      modifies this
      ensures text == old(text) + Print(n, 10)
    {
      if n >= 10 {
        Generate(n / 10);
      }
      Put(DIGITS[n % 10]);
    }
  }

  method Itoa(number: nat) returns (text: string)
    requires number < 0x1_0000_0000_0000_0000
    ensures text == Print(number, 10)
    ensures 1 <= |text| <= 20 && AllDigits(text, 10) && Value(text, 10) == number
    ensures text[0] == '0' <==> number == 0
    ensures IsCanonical(text, 10, number)
  {
    var sink := new StringSink();
    sink.Generate(number);
    text := sink.text;
    PrintRoundTrip(number, 10);
    PrintIff(text, 10, number);
    TenToTheTwenty();
    PrintLength(number, 10, 20);
    assert "" + Print(number, 10) == Print(number, 10);
  }

  lemma TenToTheTwenty()
    ensures Power(10, 20) == 100_000_000_000_000_000_000
  {
    assert Power(10, 5) == 100_000;
    assert Power(10, 10) == 10_000_000_000;
    assert Power(10, 15) == 1_000_000_000_000_000;
  }
}
