// The two mime type lookups (String.cpp): by the reversed end of a path, and by its extension.

module MimeTypes {
  import opened Wrappers

  const DEFAULT := "application/text"

  const TYPES: map<string, string> := map[
    "htm" := "text/html",
    "html" := "text/html",
    "php" := "text/html",
    "css" := "text/css",
    "txt" := "text/plain",
    "js" := "application/javascript",
    "json" := "application/json",
    "xml" := "application/xml",
    "swf" := "application/x-shockwave-flash",
    "flv" := "video/x-flv",
    "png" := "image/png",
    "jpe" := "image/jpeg",
    "jpeg" := "image/jpeg",
    "jpg" := "image/jpeg",
    "gif" := "image/gif",
    "bmp" := "image/bmp",
    "ico" := "image/vnd.microsoft.icon",
    "tiff" := "image/tiff",
    "tif" := "image/tiff",
    "svg" := "image/svg+xml",
    "svgz" := "image/svg+xml"
  ]

  function Reverse(s: string): (r: string)
    ensures |r| == |s| && forall i :: 0 <= i < |s| ==> r[i] == s[|s| - 1 - i]
  {
    seq(|s|, i requires 0 <= i < |s| => s[|s| - 1 - i])
  }

  function LowerChar(c: char): char {
    if 'A' <= c <= 'Z' then (c as int + 32) as char else c
  }

  function Lower(s: string): (r: string)
    ensures |r| == |s| && forall i :: 0 <= i < |s| ==> r[i] == LowerChar(s[i])
  {
    seq(|s|, i requires 0 <= i < |s| => LowerChar(s[i]))
  }

  // A symbol table, as the type it gives for a key.
  type Symbols = string -> Option<string>

  // The length of the longest symbol among the first n characters, regardless of case.
  function LongestSymbol(symbols: Symbols, s: string, n: nat): (r: nat)
    requires n <= |s|
    ensures r <= n && (r > 0 ==> symbols(Lower(s[..r])).Some?)
    ensures forall k :: r < k <= n ==> symbols(Lower(s[..k])).None?
  {
    if n == 0 || symbols(Lower(s[..n])).Some? then n else LongestSymbol(symbols, s, n - 1)
  }

  // A symbol and then the end of the input. The type of the symbol is written before the end is
  // looked for, and stays when the input goes on.
  function SymbolThenEnd(symbols: Symbols, s: string, result: string): (bool, string) {
    var n := LongestSymbol(symbols, s, |s|);
    if n == 0 then (false, result) else (n == |s|, symbols(Lower(s[..n])).value)
  }

  function Plain(types: map<string, string>): Symbols {
    (key: string) => if key in types then Some(types[key]) else None
  }

  function Reversed(types: map<string, string>): Symbols {
    (key: string) =>
      var dotted := Reverse(key);
      if dotted != "" && dotted[0] == '.' && dotted[1..] in types then Some(types[dotted[1..]]) else None
  }

  // The position behind the last c, or 0.
  function After(s: string, c: char): (r: nat)
    ensures r <= |s|
  {
    if s == "" then 0
    else if s[|s| - 1] == c then |s|
    else After(s[..|s| - 1], c)
  }

  // The extension of a name, with its dot; the two names of directories have none.
  function ExtensionOfName(name: string): string {
    var at := After(name, '.');
    if name == "." || name == ".." || at == 0 then "" else name[at - 1..]
  }

  // The extension of the last component of a path.
  function Extension(path: string): string {
    ExtensionOfName(path[After(path, '/')..])
  }

  function ByPath(types: map<string, string>, path: string): string {
    SymbolThenEnd(Reversed(types), Reverse(path), DEFAULT).1
  }

  function ByExtension(types: map<string, string>, path: string): string {
    var extension := Extension(path);
    if extension == "" then DEFAULT else SymbolThenEnd(Plain(types), extension[1..], DEFAULT).1
  }

  function MimeExtension(path: string): string {
    ByPath(TYPES, path)
  }

  function MimeExtensionFromPath(path: string): string {
    ByExtension(TYPES, path)
  }

  // ---------- what they find ----------

  // What the lookups rely on: keys without dots and slashes, and no key of the default type.
  ghost predicate IsTable(types: map<string, string>) {
    forall key :: key in types ==> key != "" && '.' !in key && '/' !in key && types[key] != DEFAULT
  }

  lemma KeysAreWords()
    ensures forall key :: key in TYPES ==> key != "" && '.' !in key && '/' !in key
  {
  }

  lemma NoTypeIsDefault()
    ensures forall key :: key in TYPES ==> TYPES[key] != DEFAULT
  {
  }

  lemma TypesIsTable()
    ensures IsTable(TYPES)
  {
    KeysAreWords();
    NoTypeIsDefault();
  }

  // The path ends in a dot and this key of the table, regardless of case.
  ghost predicate EndsIn(types: map<string, string>, path: string, key: string) {
    key in types && |path| > |key| && Lower(path[|path| - |key| - 1..]) == "." + key
  }

  // No reversed dotted key is the beginning of another, so the reversed table never has to choose.
  lemma ReversedKeysArePrefixFree(types: map<string, string>, a: string, b: string)
    requires IsTable(types) && a in types && b in types && Reverse("." + a) <= Reverse("." + b)
    ensures a == b
  {
    var r, q := Reverse("." + a), Reverse("." + b);
    assert q[|a|] == r[|a|] == '.';
    assert forall i :: 0 <= i < |b| ==> q[i] == b[|b| - 1 - i];
    assert |a| == |b|;
    assert forall i :: 0 <= i < |a| ==> a[i] == r[|a| - 1 - i] == q[|b| - 1 - i] == b[i];
  }

  lemma ShorterIsPrefix(types: map<string, string>, path: string, a: string, b: string)
    requires EndsIn(types, path, a) && EndsIn(types, path, b) && |a| <= |b|
    ensures Reverse("." + a) <= Reverse("." + b)
  {
  }

  lemma AtMostOneKey(types: map<string, string>, path: string, a: string, b: string)
    requires IsTable(types) && EndsIn(types, path, a) && EndsIn(types, path, b)
    ensures a == b
  {
    if |a| <= |b| {
      ShorterIsPrefix(types, path, a, b);
      ReversedKeysArePrefixFree(types, a, b);
    } else {
      ShorterIsPrefix(types, path, b, a);
      ReversedKeysArePrefixFree(types, b, a);
    }
  }

  lemma ReversedTail(path: string, n: nat)
    requires n <= |path|
    ensures Reverse(Lower(Reverse(path)[..n])) == Lower(path[|path| - n..])
  {
  }

  lemma DottedTail(path: string, n: nat)
    requires 0 < n <= |path|
    ensures Lower(path[|path| - n..])[1..] == Lower(path[|path| - n + 1..])
    ensures Lower(path[|path| - n..])[0] == '.' ==>
              Lower(path[|path| - n..]) == "." + Lower(path[|path| - n + 1..])
  {
  }

  lemma ReversedFinds(types: map<string, string>, path: string, n: nat)
    requires 0 < n <= |path|
    ensures var key := Lower(path[|path| - n + 1..]);
            Reversed(types)(Lower(Reverse(path)[..n])) == if EndsIn(types, path, key) then Some(types[key]) else None
  {
    ReversedTail(path, n);
    DottedTail(path, n);
  }

  // The lookup by reversed path gives the type of the key the path ends in, or the default.
  lemma ByPathIs(types: map<string, string>, path: string)
    requires IsTable(types)
    ensures forall key :: EndsIn(types, path, key) ==> ByPath(types, path) == types[key]
    ensures (forall key :: !EndsIn(types, path, key)) ==> ByPath(types, path) == DEFAULT
  {
    var back := Reverse(path);
    var n := LongestSymbol(Reversed(types), back, |back|);
    if n > 0 {
      ReversedFinds(types, path, n);
    }
    forall key | EndsIn(types, path, key) ensures ByPath(types, path) == types[key] {
      var k := |key| + 1;
      ReversedFinds(types, path, k);
      assert Lower(path[|path| - k + 1..]) == key by { DottedTail(path, k); }
      assert Reversed(types)(Lower(back[..k])).Some?;
      assert n > 0;
      AtMostOneKey(types, path, key, Lower(path[|path| - n + 1..]));
    }
  }

  lemma {:induction false} AfterIsLast(s: string, c: char, at: nat)
    requires at < |s| && s[at] == c && forall i :: at < i < |s| ==> s[i] != c
    ensures After(s, c) == at + 1
  {
    if at + 1 < |s| {
      AfterIsLast(s[..|s| - 1], c, at);
    }
  }

  lemma {:induction false} AfterAtMost(s: string, c: char, n: nat)
    requires n <= |s| && forall i :: n <= i < |s| ==> s[i] != c
    ensures After(s, c) <= n
  {
    if n < |s| {
      AfterAtMost(s[..|s| - 1], c, n);
    }
  }

  lemma LastDotStartsExtension(path: string, dot: nat)
    requires dot + 1 < |path| && path[dot] == '.'
    requires forall i :: dot < i < |path| ==> path[i] != '.' && path[i] != '/'
    ensures Extension(path) == path[dot..]
  {
    var start := After(path, '/');
    AfterAtMost(path, '/', dot);
    var name := path[start..];
    AfterIsLast(name, '.', dot - start);
    assert name[|name| - 1] == path[|path| - 1];
    assert name[dot - start..] == path[dot..];
  }

  lemma EndIsDotted(types: map<string, string>, path: string, key: string, dot: nat)
    requires IsTable(types) && EndsIn(types, path, key) && dot == |path| - |key| - 1
    ensures path[dot] == '.' && forall i :: dot < i < |path| ==> path[i] != '.' && path[i] != '/'
  {
  }

  lemma EndHasExtension(types: map<string, string>, path: string, key: string)
    requires IsTable(types) && EndsIn(types, path, key)
    ensures Extension(path) != "" && Lower(Extension(path)[1..]) == key
  {
    var dot := |path| - |key| - 1;
    EndIsDotted(types, path, key, dot);
    LastDotStartsExtension(path, dot);
    DottedTail(path, |key| + 1);
    assert path[dot..][1..] == path[dot + 1..];
  }

  // A path ends in a table key exactly when that key is its extension.
  lemma EndIsExtension(types: map<string, string>, path: string, key: string)
    requires IsTable(types)
    ensures EndsIn(types, path, key)
      <==> key in types && Extension(path) != "" && Lower(Extension(path)[1..]) == key
  {
    if EndsIn(types, path, key) {
      EndHasExtension(types, path, key);
    }
    if key in types && Extension(path) != "" && Lower(Extension(path)[1..]) == key {
      ExtensionIsTail(path);
      DottedTail(path, |Extension(path)|);
    }
  }

  lemma {:induction false} AfterFollows(s: string, c: char)
    ensures After(s, c) > 0 ==> s[After(s, c) - 1] == c
  {
    if s != "" && s[|s| - 1] != c {
      AfterFollows(s[..|s| - 1], c);
    }
  }

  lemma ExtensionIsTail(path: string)
    requires Extension(path) != ""
    ensures var e := Extension(path); |e| <= |path| && path[|path| - |e|..] == e && e[0] == '.'
    ensures var e := Extension(path); path[|path| - |e| + 1..] == e[1..]
  {
    var name := path[After(path, '/')..];
    AfterFollows(name, '.');
  }

  // The parts of a path with this extension: whole directories, then a name without a slash that is
  // not "." or "..", and whose last dot begins the extension.
  ghost predicate HasExtension(path: string, directory: string, stem: string, extension: string) {
    && path == directory + (stem + extension)
    && (directory == "" || directory[|directory| - 1] == '/')
    && '/' !in stem && '/' !in extension
    && extension != "" && extension[0] == '.' && '.' !in extension[1..]
    && stem + extension != "." && stem + extension != ".."
  }

  lemma ExtensionOfParts(path: string, directory: string, stem: string, extension: string)
    requires HasExtension(path, directory, stem, extension)
    ensures Extension(path) == extension
  {
    var name := stem + extension;
    AfterDirectory(directory, name);
    assert name[|stem|] == '.';
    assert forall i :: |stem| < i < |name| ==> name[i] == extension[1..][i - |stem| - 1];
    AfterIsLast(name, '.', |stem|);
    assert path[|directory|..] == name && name[|stem|..] == extension;
  }

  lemma AfterDirectory(directory: string, name: string)
    requires (directory == "" || directory[|directory| - 1] == '/') && '/' !in name
    ensures After(directory + name, '/') == |directory|
  {
    var path := directory + name;
    assert forall i :: |directory| <= i < |path| ==> path[i] == name[i - |directory|];
    if directory == "" {
      AfterAtMost(path, '/', 0);
    } else {
      AfterIsLast(path, '/', |directory| - 1);
    }
  }

  lemma {:induction false} AfterHasNone(s: string, c: char)
    ensures c !in s[After(s, c)..]
  {
    if s != "" && s[|s| - 1] != c {
      AfterHasNone(s[..|s| - 1], c);
      assert s[After(s, c)..] == s[..|s| - 1][After(s, c)..] + [s[|s| - 1]];
    }
  }

  lemma NameHasStem(name: string, extension: string) returns (stem: string)
    requires After(name, '.') > 0 && extension == name[After(name, '.') - 1..]
    ensures name == stem + extension && extension[0] == '.' && '.' !in extension[1..]
  {
    var at := After(name, '.') - 1;
    AfterFollows(name, '.');
    AfterHasNone(name, '.');
    stem := name[..at];
    assert extension[1..] == name[at + 1..];
  }

  lemma SlashNotInParts(path: string, directory: string, stem: string, extension: string)
    requires path == directory + (stem + extension) && |directory| == After(path, '/')
    ensures '/' !in stem && '/' !in extension
  {
    AfterHasNone(path, '/');
    var name := path[|directory|..];
    assert name == stem + extension;
    assert forall c :: c in stem || c in extension ==> c in name;
  }

  lemma ExtensionHasParts(path: string, extension: string) returns (directory: string, stem: string)
    requires extension != "" && Extension(path) == extension
    ensures HasExtension(path, directory, stem, extension)
  {
    var slash := After(path, '/');
    AfterFollows(path, '/');
    directory := path[..slash];
    var name := path[slash..];
    stem := NameHasStem(name, extension);
    assert path == directory + name;
    SlashNotInParts(path, directory, stem, extension);
  }

  // The extension of a path, said without searching: it is what its parts say, and there is none if
  // no parts have one.
  lemma {:induction false} ExtensionIff(path: string, extension: string)
    requires extension != ""
    ensures Extension(path) == extension <==> exists directory, stem :: HasExtension(path, directory, stem, extension)
  {
    if Extension(path) == extension {
      var directory, stem := ExtensionHasParts(path, extension);
    }
    forall directory, stem | HasExtension(path, directory, stem, extension) ensures Extension(path) == extension {
      ExtensionOfParts(path, directory, stem, extension);
    }
  }

  // ---------- case ----------

  const UPPER := "ABCDEFGHIJKLMNOPQRSTUVWXYZ"
  const LOWER := "abcdefghijklmnopqrstuvwxyz"

  ghost predicate SameLetter(c: char, d: char) {
    c == d || exists i :: 0 <= i < 26 && {c, d} == {UPPER[i], LOWER[i]}
  }

  ghost predicate SameLetters(s: string, t: string) {
    |s| == |t| && forall i :: 0 <= i < |s| ==> SameLetter(s[i], t[i])
  }

  lemma LowerLetter(i: nat)
    requires i < 26
    ensures LowerChar(UPPER[i]) == LOWER[i] == LowerChar(LOWER[i])
    ensures UPPER[i] != '.' && UPPER[i] != '/' && LOWER[i] != '.' && LOWER[i] != '/'
  {
  }

  lemma SameLetterIsLower(c: char, d: char)
    requires SameLetter(c, d)
    ensures LowerChar(c) == LowerChar(d)
    ensures (c == '.' <==> d == '.') && (c == '/' <==> d == '/')
  {
    if c != d {
      var i :| 0 <= i < 26 && {c, d} == {UPPER[i], LOWER[i]};
      LowerLetter(i);
      assert c in {c, d} && d in {c, d};
    }
  }

  // Two characters are alike to the lookups exactly if they are the same letter.
  lemma SameLetterIff(c: char, d: char)
    ensures LowerChar(c) == LowerChar(d) <==> SameLetter(c, d)
  {
    if LowerChar(c) == LowerChar(d) {
      if c != d {
        var upper := if 'A' <= c <= 'Z' then c else d;
        var i := upper as int - 'A' as int;
        LetterAt(i);
        assert {c, d} == {UPPER[i], LOWER[i]};
      }
    } else if SameLetter(c, d) {
      SameLetterIsLower(c, d);
    }
  }

  lemma LetterAt(i: nat)
    requires i < 26
    ensures UPPER[i] as int == 'A' as int + i && LOWER[i] == LowerChar(UPPER[i])
  {
  }

  lemma SameLettersAreLower(s: string, t: string)
    requires SameLetters(s, t)
    ensures Lower(s) == Lower(t)
    ensures forall i :: 0 <= i < |s| ==> (s[i] == '.' <==> t[i] == '.') && (s[i] == '/' <==> t[i] == '/')
  {
    forall i | 0 <= i < |s|
      ensures LowerChar(s[i]) == LowerChar(t[i])
      ensures (s[i] == '.' <==> t[i] == '.') && (s[i] == '/' <==> t[i] == '/')
    {
      SameLetterIsLower(s[i], t[i]);
    }
  }

  lemma {:induction false} LongestSymbolSame(symbols: Symbols, s: string, t: string, n: nat)
    requires Lower(s) == Lower(t) && n <= |s|
    ensures LongestSymbol(symbols, s, n) == LongestSymbol(symbols, t, n)
  {
    assert |Lower(s)| == |s| && |Lower(t)| == |t|;
    assert Lower(s[..n]) == Lower(s)[..n] && Lower(t[..n]) == Lower(t)[..n];
    if n > 0 {
      LongestSymbolSame(symbols, s, t, n - 1);
    }
  }

  lemma SymbolThenEndSame(symbols: Symbols, s: string, t: string, result: string)
    requires Lower(s) == Lower(t)
    ensures SymbolThenEnd(symbols, s, result) == SymbolThenEnd(symbols, t, result)
  {
    assert |Lower(s)| == |s| && |Lower(t)| == |t|;
    LongestSymbolSame(symbols, s, t, |s|);
    var n := LongestSymbol(symbols, s, |s|);
    assert Lower(s[..n]) == Lower(s)[..n] && Lower(t[..n]) == Lower(t)[..n];
  }

  lemma {:induction false} AfterSame(s: string, t: string, c: char)
    requires |s| == |t| && forall i :: 0 <= i < |s| ==> (s[i] == c <==> t[i] == c)
    ensures After(s, c) == After(t, c)
  {
    if s != "" {
      AfterSame(s[..|s| - 1], t[..|t| - 1], c);
    }
  }

  lemma NameSame(n: string, m: string)
    requires SameLetters(n, m)
    ensures SameLetters(ExtensionOfName(n), ExtensionOfName(m))
  {
    SameLettersAreLower(n, m);
    AfterSame(n, m, '.');
    var at := After(n, '.');
    assert n == "." <==> m == ".";
    assert n == ".." <==> m == "..";
    if at > 0 {
      SameTail(n, m, at - 1);
    }
  }

  lemma SameTail(s: string, t: string, at: nat)
    requires SameLetters(s, t) && at <= |s|
    ensures SameLetters(s[at..], t[at..])
  {
  }

  lemma ExtensionSame(s: string, t: string)
    requires SameLetters(s, t)
    ensures SameLetters(Extension(s), Extension(t))
  {
    SameLettersAreLower(s, t);
    AfterSame(s, t, '/');
    var slash := After(s, '/');
    var n, m := s[slash..], t[slash..];
    SameTail(s, t, slash);
    NameSame(n, m);
  }

  // Neither lookup looks at the case of a letter.
  lemma CaseIsIgnored(s: string, t: string)
    requires SameLetters(s, t)
    ensures MimeExtension(s) == MimeExtension(t)
    ensures MimeExtensionFromPath(s) == MimeExtensionFromPath(t)
  {
    assert SameLetters(Reverse(s), Reverse(t));
    SameLettersAreLower(Reverse(s), Reverse(t));
    SymbolThenEndSame(Reversed(TYPES), Reverse(s), Reverse(t), DEFAULT);
    ExtensionSame(s, t);
    var e, f := Extension(s), Extension(t);
    if e != "" {
      assert SameLetters(e[1..], f[1..]);
      SameLettersAreLower(e[1..], f[1..]);
      SymbolThenEndSame(Plain(TYPES), e[1..], f[1..], DEFAULT);
    }
  }

  // Some key of the table begins the text, regardless of case.
  ghost predicate BeginsWithKey(types: map<string, string>, s: string) {
    exists n :: 0 < n <= |s| && Lower(s[..n]) in types
  }

  // The first n characters are the longest key of the table that begins the text.
  ghost predicate LongestKey(types: map<string, string>, s: string, n: nat) {
    0 < n <= |s| && Lower(s[..n]) in types && forall k :: n < k <= |s| ==> Lower(s[..k]) !in types
  }

  lemma LongestSymbolIsLongestKey(types: map<string, string>, s: string)
    ensures forall n: nat :: LongestKey(types, s, n) ==> LongestSymbol(Plain(types), s, |s|) == n
  {
    var r := LongestSymbol(Plain(types), s, |s|);
    forall n: nat | LongestKey(types, s, n) ensures r == n {
      assert Plain(types)(Lower(s[..n])).Some?;
      assert r > 0 ==> Lower(s[..r]) in types;
    }
  }

  // The lookup by extension gives the type of the longest key that begins the extension, whether
  // or not the extension goes on behind it, and the default exactly if no key begins it.
  lemma ByExtensionIs(types: map<string, string>, s: string)
    requires IsTable(types)
    ensures var result := SymbolThenEnd(Plain(types), s, DEFAULT).1;
            && (forall n: nat :: LongestKey(types, s, n) ==> result == types[Lower(s[..n])])
            && (Lower(s) in types ==> result == types[Lower(s)])
            && (result == DEFAULT <==> !BeginsWithKey(types, s))
  {
    LongestSymbolIsLongestKey(types, s);
    var n := LongestSymbol(Plain(types), s, |s|);
    assert s[..|s|] == s;
    if Lower(s) in types {
      assert Lower(s) != "";
      assert Plain(types)(Lower(s[..|s|])).Some?;
    }
    if BeginsWithKey(types, s) {
      var k :| 0 < k <= |s| && Lower(s[..k]) in types;
      assert Plain(types)(Lower(s[..k])).Some?;
    }
  }

  // The two lookups agree except when the extension is longer than a key it begins with and no key
  // itself: the lookup by extension then keeps the type of the key it begins with.
  lemma AgreeIff(types: map<string, string>, path: string)
    requires IsTable(types)
    ensures ByPath(types, path) == ByExtension(types, path)
      <==> (var extension := Extension(path);
            extension == "" || Lower(extension[1..]) in types || !BeginsWithKey(types, extension[1..]))
  {
    ByPathIs(types, path);
    var extension := Extension(path);
    forall key ensures EndsIn(types, path, key)
        <==> key in types && extension != "" && Lower(extension[1..]) == key {
      EndIsExtension(types, path, key);
    }
    if extension != "" {
      ByExtensionIs(types, extension[1..]);
      if Lower(extension[1..]) in types {
        assert EndsIn(types, path, Lower(extension[1..]));
      }
    }
  }

  lemma LookupsAgreeIff(path: string)
    ensures MimeExtension(path) == MimeExtensionFromPath(path)
      <==> (var extension := Extension(path);
            extension == "" || Lower(extension[1..]) in TYPES || !BeginsWithKey(TYPES, extension[1..]))
  {
    TypesIsTable();
    AgreeIff(TYPES, path);
  }

  // A key that merely begins the extension decides the lookup by extension; the lookup by path does
  // not recognize the ending.
  lemma BeginningDecides(types: map<string, string>, path: string, n: nat)
    requires IsTable(types) && Extension(path) != ""
    requires var x := Extension(path)[1..]; LongestKey(types, x, n) && n < |x|
    ensures ByPath(types, path) == DEFAULT
    ensures ByExtension(types, path) == types[Lower(Extension(path)[1..][..n])]
  {
    var x := Extension(path)[1..];
    ByExtensionIs(types, x);
    assert x[..|x|] == x;
    forall key ensures !EndsIn(types, path, key) {
      EndIsExtension(types, path, key);
    }
    ByPathIs(types, path);
  }

  lemma JsxExtension()
    ensures Extension("a.jsx") == ".jsx"
  {
    var path := "a.jsx";
    assert |path| == 5 && path[1] == '.' && path[2] == 'j' && path[3] == 's' && path[4] == 'x';
    LastDotStartsExtension(path, 1);
    assert path[1..] == ".jsx";
  }

  lemma JsxBeginsWithJs()
    ensures ".jsx"[1..] == "jsx" && Lower("jsx") == "jsx" && Lower("jsx"[..2]) == "js" && |"jsx"| == 3
  {
  }

  lemma TypesHasJs()
    ensures "js" in TYPES && TYPES["js"] == "application/javascript" && "jsx" !in TYPES
  {
  }

  lemma JsIsLongestKey()
    ensures LongestKey(TYPES, "jsx", 2)
  {
    TypesHasJs();
    JsxBeginsWithJs();
    assert "jsx"[..3] == "jsx";
  }

  // "a.jsx" is JavaScript to the lookup by extension and unknown to the lookup by path.
  lemma LookupsDisagree()
    ensures MimeExtension("a.jsx") == DEFAULT
    ensures MimeExtensionFromPath("a.jsx") == "application/javascript"
  {
    TypesIsTable();
    TypesHasJs();
    JsxExtension();
    JsxBeginsWithJs();
    JsIsLongestKey();
    BeginningDecides(TYPES, "a.jsx", 2);
  }
}
