/** ssh2/_version.py: parsing the output of git describe, and printing it again. */
module GitDescribe {
  import opened Basics

  datatype Pieces = Pieces(tag: Option<string>, distance: nat, short: string, dirty: bool)

  datatype Parsed = Parsed(pieces: Pieces) | Unparsable | WrongPrefix

  // ----- Decimal numbers -----

  /** The decimal digits of Unicode, which `\d` matches and `int()` reads. */
  datatype Unicode = Unicode(decimal: char -> Option<nat>)

  /** Among the ASCII characters the digits are 0 to 9, and every digit is below ten. */
  ghost predicate Standard(u: Unicode) {
    && (forall c :: u.decimal(c).Some? ==> u.decimal(c).value < 10)
    && (forall c | c <= '~' :: if Ascii(c) then u.decimal(c) == Some((c - '0') as int) else u.decimal(c) == None)
  }

  predicate Ascii(c: char) { '0' <= c <= '9' }

  function IsDigit(u: Unicode): char -> bool { c => u.decimal(c).Some? }

  predicate Hex(c: char) { '0' <= c <= '9' || 'a' <= c <= 'f' }

  function DigitChar(n: nat): char
    requires n < 10
  {
    '0' + n as char
  }

  /** `%d`. */
  function Decimal(n: nat): string {
    if n < 10 then [DigitChar(n)] else Decimal(n / 10) + [DigitChar(n % 10)]
  }

  /** `int(...)` of digits. */
  function Value(u: Unicode, s: string): nat
    requires All(s, IsDigit(u))
  {
    if s == [] then 0 else 10 * Value(u, s[..|s| - 1]) + u.decimal(s[|s| - 1]).value
  }

  predicate All(s: string, p: char -> bool) { forall i | 0 <= i < |s| :: p(s[i]) }

  /** Digits as `%d` prints them. */
  predicate Canonical(s: string) { All(s, Ascii) && (|s| == 1 || (|s| > 1 && s[0] != '0')) }

  lemma DigitCharValue(u: Unicode, n: nat)
    requires Standard(u) && n < 10
    ensures Ascii(DigitChar(n)) && u.decimal(DigitChar(n)) == Some(n)
  {
  }

  lemma {:induction false} DecimalDigits(u: Unicode, n: nat)
    requires Standard(u)
    ensures All(Decimal(n), IsDigit(u)) && Canonical(Decimal(n)) && (n > 0 ==> Decimal(n)[0] != '0')
    ensures Value(u, Decimal(n)) == n
  {
    DigitCharValue(u, n % 10);
    if n >= 10 {
      var front, c := Decimal(n / 10), DigitChar(n % 10);
      DecimalDigits(u, n / 10);
      assert Decimal(n)[..|Decimal(n)| - 1] == front;
    } else {
      assert n % 10 == n;
      assert Decimal(n)[..0] == [];
    }
  }

  lemma {:induction false} ValueOfCanonical(u: Unicode, s: string)
    requires Standard(u) && Canonical(s)
    ensures All(s, IsDigit(u)) && Decimal(Value(u, s)) == s && (s[0] != '0' ==> Value(u, s) > 0)
  {
    var front, c := s[..|s| - 1], s[|s| - 1];
    assert Ascii(c);
    assert u.decimal(c) == Some((c - '0') as int) && DigitChar((c - '0') as int) == c;
    if |s| == 1 {
      assert front == [];
      assert s == [c];
    } else {
      ValueOfCanonical(u, front);
      assert s == front + [c];
      assert Value(u, s) / 10 == Value(u, front) && Value(u, s) % 10 == u.decimal(c).value;
    }
  }

  // ----- The regular expression ^(.+)-(\d+)-g([0-9a-f]+)$ -----

  predicate Dot(c: char) { c != '\n' }

  /** What the groups may hold. */
  predicate Groups(u: Unicode, tag: string, digits: string, hex: string) {
    tag != [] && All(tag, Dot) && digits != [] && All(digits, IsDigit(u)) && hex != [] && All(hex, Hex)
  }

  function Joined(tag: string, digits: string, hex: string): string {
    tag + ['-'] + digits + ['-', 'g'] + hex
  }

  /** The expression matches s with these groups; `$` also matches before a final newline. */
  predicate Matches(u: Unicode, s: string, tag: string, digits: string, hex: string) {
    Groups(u, tag, digits, hex) && (s == Joined(tag, digits, hex) || s == Joined(tag, digits, hex) + ['\n'])
  }

  /** Where the longest suffix of characters in p begins. */
  function Suffix(s: string, p: char -> bool): (r: nat)
    ensures r <= |s| && All(s[r..], p) && (r > 0 ==> !p(s[r - 1]))
  {
    if s == [] || !p(s[|s| - 1]) then |s|
    else
      var r := Suffix(s[..|s| - 1], p);
      assert s[r..] == s[..|s| - 1][r..] + [s[|s| - 1]];
      r
  }

  lemma {:induction false} SuffixOf(front: string, back: string, p: char -> bool)
    requires All(back, p) && front != [] && !p(front[|front| - 1])
    ensures Suffix(front + back, p) == |front|
  {
    var s := front + back;
    if back != [] {
      assert s[..|s| - 1] == front + back[..|back| - 1];
      SuffixOf(front, back[..|back| - 1], p);
    } else {
      assert s == front;
    }
  }

  function WithoutNewline(s: string): string {
    if s != [] && s[|s| - 1] == '\n' then s[..|s| - 1] else s
  }

  /** The groups of the match, found from the right. */
  function Scan(u: Unicode, s: string): Option<(string, string, string)> {
    var body := WithoutNewline(s);
    var h := Suffix(body, Hex);
    if h == |body| || h < 2 || body[h - 2..h] != ['-', 'g'] then None
    else
      var rest := body[..h - 2];
      var d := Suffix(rest, IsDigit(u));
      if d == |rest| || d < 2 || rest[d - 1] != '-' || !All(rest[..d - 1], Dot) then None
      else Some((rest[..d - 1], rest[d..], body[h..]))
  }

  lemma ScanSound(u: Unicode, s: string)
    requires Scan(u, s).Some?
    ensures var (tag, digits, hex) := Scan(u, s).value; Matches(u, s, tag, digits, hex)
  {
    var (tag, digits, hex) := Scan(u, s).value;
    var body := WithoutNewline(s);
    var h := Suffix(body, Hex);
    var rest := body[..h - 2];
    assert rest == tag + ['-'] + digits;
    assert body == rest + ['-', 'g'] + hex;
    assert s == body || s == body + ['\n'];
  }

  /** The last two hyphens of such a text are where the scan stops. */
  lemma Stops(u: Unicode, s: string, tag: string, digits: string, hex: string)
    requires Standard(u) && s == Joined(tag, digits, hex)
    requires digits != [] && All(digits, IsDigit(u)) && hex != [] && All(hex, Hex)
    ensures var n := |tag| + 1 + |digits|;
      && |s| == n + 2 + |hex|
      && Suffix(s, Hex) == n + 2 && s[n + 2..] == hex && s[n..n + 2] == ['-', 'g']
      && Suffix(s[..n], IsDigit(u)) == |tag| + 1 && s[..n][|tag| + 1..] == digits
      && s[..n][..|tag|] == tag && s[..n][|tag|] == '-'
    ensures WithoutNewline(s) == s && WithoutNewline(s + ['\n']) == s && '-' in s
  {
    hide All, Suffix, Joined, Standard;
    Layout(s, tag, digits, hex);
    var rest := tag + ['-'] + digits;
    SuffixOf(rest + ['-', 'g'], hex, Hex);
    HyphenIsNoDigit(u);
    SuffixOf(tag + ['-'], digits, IsDigit(u));
    LastOf(rest + ['-', 'g'], hex);
    assert (s + ['\n'])[..|s|] == s;
  }

  lemma HyphenIsNoDigit(u: Unicode)
    requires Standard(u)
    ensures !IsDigit(u)('-')
  {
    assert !Ascii('-');
  }

  lemma Layout(s: string, tag: string, digits: string, hex: string)
    requires s == Joined(tag, digits, hex)
    ensures var rest := tag + ['-'] + digits;
      var n := |rest|;
      && s == rest + ['-', 'g'] + hex && |s| == n + 2 + |hex| && s[n + 2..] == hex && s[n..n + 2] == ['-', 'g']
      && s[..n] == rest && rest[|tag| + 1..] == digits && rest[..|tag|] == tag && rest[|tag|] == '-'
      && s[n] == '-'
  {
  }

  lemma LastOf(front: string, hex: string)
    requires hex != [] && All(hex, Hex)
    ensures Hex((front + hex)[|front + hex| - 1])
  {
    assert (front + hex)[|front + hex| - 1] == hex[|hex| - 1];
  }

  lemma ScanComplete(u: Unicode, s: string, tag: string, digits: string, hex: string)
    requires Standard(u) && Matches(u, s, tag, digits, hex)
    ensures Scan(u, s) == Some((tag, digits, hex))
  {
    hide Suffix, Joined, WithoutNewline;
    Stops(u, Joined(tag, digits, hex), tag, digits, hex);
  }

  /** The expression has at most one match, so greediness does not matter, and Scan finds it. */
  lemma ScanExactly(u: Unicode, s: string, tag: string, digits: string, hex: string)
    requires Standard(u)
    ensures Matches(u, s, tag, digits, hex) <==> Scan(u, s) == Some((tag, digits, hex))
  {
    if Matches(u, s, tag, digits, hex) {
      ScanComplete(u, s, tag, digits, hex);
    }
    if Scan(u, s).Some? {
      ScanSound(u, s);
    }
  }

  // ----- The two directions -----

  const DIRTY: string := "-dirty"

  predicate Ends(s: string, suffix: string) { |s| >= |suffix| && s[|s| - |suffix|..] == suffix }

  /**
   The stripped output of git describe, read under a tag prefix; HEAD's own id and the number of commits
   serve when there is no tag.
   */
  function Parse(u: Unicode, describe: string, prefix: string, head: string, commits: nat): Parsed {
    var dirty := Ends(describe, DIRTY);
    var s := if dirty then describe[..|describe| - |DIRTY|] else describe;
    if '-' in s then ParseTagged(u, s, prefix, dirty) else Parsed(Pieces(None, commits, head, dirty))
  }

  /** TAG-NUM-gHEX. */
  function ParseTagged(u: Unicode, s: string, prefix: string, dirty: bool): Parsed {
    match Scan(u, s)
    case None => Unparsable
    case Some((tag, digits, hex)) =>
      ScanSound(u, s);
      if |prefix| > |tag| || tag[..|prefix|] != prefix then WrongPrefix
      else Parsed(Pieces(Some(tag[|prefix|..]), Value(u, digits), hex, dirty))
  }

  /** render_git_describe_long. */
  function Render(p: Pieces): string {
    (if p.tag.Some? && p.tag.value != [] then Joined(p.tag.value, Decimal(p.distance), p.short) else p.short)
    + (if p.dirty then DIRTY else [])
  }

  lemma NotDirty(front: string, hex: string)
    requires hex != [] && All(hex, Hex)
    ensures !Ends(front + hex, DIRTY)
  {
    var s := front + hex;
    assert s[|s| - 1] == hex[|hex| - 1];
  }

  /** The dirty suffix comes off again, whatever it was put on. */
  lemma DirtyComesOff(body: string, dirty: bool)
    requires !dirty ==> !Ends(body, DIRTY)
    ensures var s := body + (if dirty then DIRTY else []);
      Ends(s, DIRTY) == dirty && (if dirty then s[..|s| - |DIRTY|] else s) == body
  {
    var s := body + (if dirty then DIRTY else []);
    if dirty {
      assert s[|s| - 6..] == DIRTY;
      assert s[..|s| - 6] == body;
    } else {
      assert s == body;
    }
  }

  /** Parsing what was printed after the prefix recovers every piece, exactly when prefix and tag hold no newline. */
  lemma RoundTrip(u: Unicode, prefix: string, p: Pieces, head: string, commits: nat)
    requires Standard(u) && p.tag.Some? && p.tag.value != [] && p.short != [] && All(p.short, Hex)
    ensures Parse(u, prefix + Render(p), prefix, head, commits) == Parsed(p) <==> All(prefix + p.tag.value, Dot)
  {
    hide Joined, Decimal, Render, Parse, ParseTagged, All, Ends;
    var body := Joined(prefix + p.tag.value, Decimal(p.distance), p.short);
    PrintedAs(prefix, p);
    ParsedAs(u, body, p.dirty, prefix, head, commits);
    TaggedAs(u, prefix, p);
  }

  lemma PrintedAs(prefix: string, p: Pieces)
    requires p.tag.Some? && p.tag.value != [] && p.short != [] && All(p.short, Hex)
    ensures var body := Joined(prefix + p.tag.value, Decimal(p.distance), p.short);
      prefix + Render(p) == body + (if p.dirty then DIRTY else []) && '-' in body && !Ends(body, DIRTY)
  {
    hide Decimal, Ends;
    var full, digits := prefix + p.tag.value, Decimal(p.distance);
    NotDirty(full + ['-'] + digits + ['-', 'g'], p.short);
    assert Joined(full, digits, p.short)[|full|] == '-';
  }

  lemma ParsedAs(u: Unicode, body: string, dirty: bool, prefix: string, head: string, commits: nat)
    requires '-' in body && !Ends(body, DIRTY)
    ensures Parse(u, body + (if dirty then DIRTY else []), prefix, head, commits) == ParseTagged(u, body, prefix, dirty)
  {
    hide ParseTagged, Ends;
    DirtyComesOff(body, dirty);
  }

  lemma TaggedAs(u: Unicode, prefix: string, p: Pieces)
    requires Standard(u) && p.tag.Some? && p.tag.value != [] && p.short != [] && All(p.short, Hex)
    ensures ParseTagged(u, Joined(prefix + p.tag.value, Decimal(p.distance), p.short), prefix, p.dirty)
         == if All(prefix + p.tag.value, Dot) then Parsed(p) else Unparsable
  {
    var full, digits := prefix + p.tag.value, Decimal(p.distance);
    DecimalDigits(u, p.distance);
    ScanOf(u, full, digits, p.short);
    assert full[..|prefix|] == prefix && full[|prefix|..] == p.tag.value;
    hide Joined, Decimal, Scan, All, Value;
  }

  /** The scan of a printed text: only the tag can spoil the match. */
  lemma ScanOf(u: Unicode, tag: string, digits: string, hex: string)
    requires Standard(u) && tag != [] && digits != [] && All(digits, IsDigit(u)) && hex != [] && All(hex, Hex)
    ensures Scan(u, Joined(tag, digits, hex)) == if All(tag, Dot) then Some((tag, digits, hex)) else None
  {
    hide Suffix, Joined, WithoutNewline;
    Stops(u, Joined(tag, digits, hex), tag, digits, hex);
  }

  /** Without a tag only the flag comes back: the id and the distance are asked of git again. */
  lemma RoundTripWithoutTag(u: Unicode, p: Pieces, prefix: string, head: string, commits: nat)
    requires p.tag == None && p.short != [] && All(p.short, Hex)
    ensures Parse(u, Render(p), prefix, head, commits) == Parsed(Pieces(None, commits, head, p.dirty))
  {
    NotDirty([], p.short);
    assert [] + p.short == p.short;
    DirtyComesOff(p.short, p.dirty);
  }

  /**
   What comes of every text, with or without the dirty suffix: the three groups of its match if the tag has the
   prefix, and which error if not.
   */
  lemma ParseExactly(u: Unicode, body: string, dirty: bool, prefix: string, head: string, commits: nat)
    requires Standard(u) && (!dirty ==> !Ends(body, DIRTY))
    ensures var r := Parse(u, body + (if dirty then DIRTY else []), prefix, head, commits);
      && ('-' !in body ==> r == Parsed(Pieces(None, commits, head, dirty)))
      && ('-' in body && (forall tag, digits, hex :: !Matches(u, body, tag, digits, hex)) ==> r == Unparsable)
      && (forall tag, digits, hex :: Matches(u, body, tag, digits, hex) ==>
            r == if prefix <= tag then Parsed(Pieces(Some(tag[|prefix|..]), Value(u, digits), hex, dirty))
                 else WrongPrefix)
  {
    hide Scan, Matches, Ends, All, Value;
    DirtyComesOff(body, dirty);
    forall tag, digits, hex | Matches(u, body, tag, digits, hex)
      ensures Scan(u, body) == Some((tag, digits, hex)) && '-' in body
    {
      ScanExactly(u, body, tag, digits, hex);
      MatchHasHyphen(u, body, tag, digits, hex);
    }
    if Scan(u, body).Some? {
      ScanSound(u, body);
    }
  }

  lemma MatchHasHyphen(u: Unicode, s: string, tag: string, digits: string, hex: string)
    requires Matches(u, s, tag, digits, hex)
    ensures '-' in s
  {
    assert Joined(tag, digits, hex)[|tag|] == '-';
    assert s[|tag|] == '-';
  }

  /** The text without its dirty suffix. */
  function Clean(describe: string): string {
    if Ends(describe, DIRTY) then describe[..|describe| - |DIRTY|] else describe
  }

  lemma CleanIs(describe: string)
    ensures describe == Clean(describe) + (if Ends(describe, DIRTY) then DIRTY else [])
  {
  }

  /**
   Printing what was parsed gives back the text, unless the distance had leading zeros or digits that are not
   ASCII, or a newline came before the end.
   */
  lemma RenderAfterParse(u: Unicode, describe: string, head: string, commits: nat)
    requires Standard(u)
    requires var r := Parse(u, describe, [], head, commits); r.Parsed? && r.pieces.tag.Some?
    ensures Scan(u, Clean(describe)).Some? && Clean(describe) != []
    ensures Render(Parse(u, describe, [], head, commits).pieces) == describe <==>
            (Canonical(Scan(u, Clean(describe)).value.1) && Clean(describe)[|Clean(describe)| - 1] != '\n')
  {
    var s := Clean(describe);
    var dirty := if Ends(describe, DIRTY) then DIRTY else [];
    var (tag, digits, hex) := Scan(u, s).value;
    ScanSound(u, s);
    var p := Parse(u, describe, [], head, commits).pieces;
    assert tag[0..] == tag;
    CleanIs(describe);
    var printed := Joined(tag, Decimal(Value(u, digits)), hex);
    assert Render(p) == printed + dirty;
    hide Scan, Ends, Parse, Render, Clean, Decimal, Suffix, All, Value, Canonical;
    SuffixCancels(printed, s, dirty);
    PrintedAgain(u, s, tag, digits, hex);
  }

  lemma SuffixCancels(a: string, b: string, c: string)
    ensures a + c == b + c <==> a == b
  {
    if a + c == b + c {
      assert (a + c)[..|a|] == a && (b + c)[..|b|] == b;
    }
  }

  lemma PrintedAgain(u: Unicode, s: string, tag: string, digits: string, hex: string)
    requires Standard(u) && Matches(u, s, tag, digits, hex)
    ensures s != [] && (Joined(tag, Decimal(Value(u, digits)), hex) == s <==> Canonical(digits) && s[|s| - 1] != '\n')
  {
    var n := Decimal(Value(u, digits));
    DecimalDigits(u, Value(u, digits));
    if Canonical(digits) {
      ValueOfCanonical(u, digits);
    }
    hide Decimal, Value;
    JoinedInjective(tag, n, digits, hex);
    JoinedLast(tag, n, hex);
    JoinedLast(tag, digits, hex);
    hide Joined, Canonical;
  }

  lemma JoinedInjective(tag: string, a: string, b: string, hex: string)
    ensures Joined(tag, a, hex) == Joined(tag, b, hex) <==> a == b
  {
    var s, r := Joined(tag, a, hex), Joined(tag, b, hex);
    assert s[|tag| + 1..|s| - |hex| - 2] == a;
    assert r[|tag| + 1..|r| - |hex| - 2] == b;
  }

  lemma JoinedLast(tag: string, digits: string, hex: string)
    requires hex != [] && All(hex, Hex)
    ensures Joined(tag, digits, hex) != [] && Joined(tag, digits, hex)[|Joined(tag, digits, hex)| - 1] != '\n'
  {
    LastOf(tag + ['-'] + digits + ['-', 'g'], hex);
  }

  // ----- Where the two directions part -----

  /** A tag with a newline in it does not come back. */
  lemma NewlineInTag(u: Unicode, head: string, commits: nat)
    requires Standard(u)
    ensures var p := Pieces(Some("v\n1"), 3, "abc", false);
      Parse(u, Render(p), [], head, commits) != Parsed(p)
  {
    var p := Pieces(Some("v\n1"), 3, "abc", false);
    RoundTrip(u, [], p, head, commits);
    assert [] + Render(p) == Render(p) && ([] + p.tag.value)[1] == '\n';
    hide Parse, Render;
  }

  lemma ZerosAreScanned(u: Unicode)
    requires Standard(u)
    ensures Scan(u, "v1-007-gabc") == Some(("v1", "007", "abc"))
  {
    hide Scan;
    assert "v1-007-gabc" == Joined("v1", "007", "abc");
    assert Ascii('0') && Ascii('7');
    ScanComplete(u, "v1-007-gabc", "v1", "007", "abc");
  }

  lemma ZerosAreClean()
    ensures var s := "v1-007-gabc"; !Ends(s, DIRTY) && '-' in s
  {
    var s := "v1-007-gabc";
    assert s[10] == 'c' && s[2] == '-';
  }

  /** A distance with leading zeros is printed without them. */
  lemma LeadingZeros(u: Unicode, head: string, commits: nat)
    requires Standard(u)
    ensures var r := Parse(u, "v1-007-gabc", [], head, commits);
      r.Parsed? && Render(r.pieces) != "v1-007-gabc"
  {
    hide Scan, Value, Ends, Render, Standard;
    ZerosAreScanned(u);
    ZerosAreClean();
    RenderAfterParse(u, "v1-007-gabc", head, commits);
  }
}
