/**
  Semantic versions, by items 2, 9 and 10 and the grammar of SemVer 2.0.0, with the 64-bit numbers of
  `semver::Version`: what the printer writes, and what the parser reads. A pre-release or build text is empty when
  the version has none.
 */
module SemVer {
  import opened Wrappers
  import opened Text
  import opened Numerals

  datatype Version = Version(major: u64, minor: u64, patch: u64, pre: string, build: string)

  const MAX_PART: nat := 0x1_0000_0000_0000_0000

  predicate IsIdentifierChar(c: char) {
    '0' <= c <= '9' || 'A' <= c <= 'Z' || 'a' <= c <= 'z' || c == '-'
  }

  predicate IsIdentifier(s: string) {
    s != "" && forall c :: c in s ==> IsIdentifierChar(c)
  }

  /** A numeric pre-release identifier has no leading zero; one with a letter or hyphen may. */
  predicate IsPreIdentifier(s: string) {
    IsIdentifier(s) && ((forall c :: c in s ==> '0' <= c <= '9') && |s| > 1 ==> s[0] != '0')
  }

  predicate IsPre(s: string) {
    forall part :: part in Split(s, '.') ==> IsPreIdentifier(part)
  }

  predicate IsBuild(s: string) {
    forall part :: part in Split(s, '.') ==> IsIdentifier(part)
  }

  predicate IsValid(v: Version) {
    (v.pre != "" ==> IsPre(v.pre)) && (v.build != "" ==> IsBuild(v.build))
  }

  /** `Version::new`: neither pre-release nor build. */
  function Plain(major: u64, minor: u64, patch: u64): Version {
    Version(major, minor, patch, "", "")
  }

  // ----- printing -----

  function PrintCore(v: Version): string {
    Join([Render(v.major, 10), Render(v.minor, 10), Render(v.patch, 10)], '.')
  }

  function Print(v: Version): string {
    PrintCore(v) + (if v.pre != "" then "-" + v.pre else "") + (if v.build != "" then "+" + v.build else "")
  }

  /** The whole text: three decimal numbers, and each further part behind its own mark when there is one. */
  lemma PrintText(v: Version)
    ensures var core := Render(v.major, 10) + "." + Render(v.minor, 10) + "." + Render(v.patch, 10);
            Print(v) == core + (if v.pre == "" then "" else "-" + v.pre) + (if v.build == "" then "" else "+" + v.build)
  {
    var parts := [Render(v.major, 10), Render(v.minor, 10), Render(v.patch, 10)];
    assert parts[1..] == [parts[1], parts[2]] && parts[1..][1..] == [parts[2]];
    assert Join(parts[1..][1..], '.') == parts[2];
    assert Join(parts[1..], '.') == parts[1] + "." + parts[2];
    assert Join(parts, '.') == parts[0] + "." + (parts[1] + "." + parts[2]);
  }

  // ----- the two grammars, by the characters -----

  lemma {:induction false} SplitConcatenation(a: string, b: string, sep: char)
    ensures Split(a + [sep] + b, sep) == Split(a, sep) + Split(b, sep)
  {
    var text := a + [sep] + b;
    if a == "" {
      assert text[1..] == b && text[0] == sep;
    } else {
      var left, right := Split(a[1..], sep), Split(b, sep);
      SplitConcatenation(a[1..], b, sep);
      assert text[1..] == a[1..] + [sep] + b && text[0] == a[0];
      assert (left + right)[0] == left[0] && (left + right)[1..] == left[1..] + right;
    }
  }

  lemma {:induction false} SplitWithout(s: string, sep: char)
    requires sep !in s
    ensures Split(s, sep) == [s]
  {
    SplitPrefix(s, "", sep);
    assert s + "" == s;
  }

  /** A dotted text is admitted exactly when what is on each side of a dot is. */
  lemma GrammarOfDotted(a: string, b: string)
    ensures IsPre(a + "." + b) <==> IsPre(a) && IsPre(b)
    ensures IsBuild(a + "." + b) <==> IsBuild(a) && IsBuild(b)
  {
    SplitConcatenation(a, b, '.');
  }

  /** And one identifier exactly when it has only these characters and, before a build, no leading zero. */
  lemma GrammarOfUndotted(s: string)
    requires '.' !in s
    ensures var plain := s != "" && forall c :: c in s ==>
              '0' <= c <= '9' || 'A' <= c <= 'Z' || 'a' <= c <= 'z' || c == '-';
            && (IsBuild(s) <==> plain)
            && (IsPre(s) <==>
                  plain && (s[0] == '0' && |s| > 1 ==> exists c :: c in s && !('0' <= c <= '9')))
  {
    SplitWithout(s, '.');
    assert s in Split(s, '.') && forall part :: part in Split(s, '.') ==> part == s;
  }

  // ----- parsing -----

  predicate IsPart(s: string) {
    IsCanonical(s, 10) && Value(s, 10) < MAX_PART
  }

  function ParseCore(s: string): Option<(u64, u64, u64)> {
    var parts := Split(s, '.');
    if |parts| == 3 && IsPart(parts[0]) && IsPart(parts[1]) && IsPart(parts[2])
    then Some((Value(parts[0], 10), Value(parts[1], 10), Value(parts[2], 10)))
    else None
  }

  function Parse(s: string): Option<Version> {
    var (head, build) := SplitOnce(s, '+');
    var (core, pre) := SplitOnce(head, '-');
    match ParseCore(core)
    case None => None
    case Some((major, minor, patch)) =>
      if pre.Some? && !IsPre(pre.value) then None
      else if build.Some? && !IsBuild(build.value) then None
      else Some(Version(major, minor, patch,
                        if pre.Some? then pre.value else "", if build.Some? then build.value else ""))
  }

  // ----- the two are inverse -----

  lemma PartRoundTrip(n: u64)
    ensures IsPart(Render(n, 10)) && Value(Render(n, 10), 10) == n
    ensures forall c :: c in Render(n, 10) ==> '0' <= c <= '9'
  {
    ValueOfRender(n, 10);
    DecimalChars(Render(n, 10));
  }

  lemma CoreChars(v: Version)
    ensures forall c :: c in PrintCore(v) ==> c == '.' || '0' <= c <= '9'
    ensures PrintCore(v) != ""
  {
    PartRoundTrip(v.major);
    PartRoundTrip(v.minor);
    PartRoundTrip(v.patch);
    forall c | c in PrintCore(v)
      ensures c == '.' || '0' <= c <= '9'
    {
      JoinChars([Render(v.major, 10), Render(v.minor, 10), Render(v.patch, 10)], '.', c);
    }
  }

  lemma DottedChars(s: string)
    requires IsBuild(s)
    ensures s != "" && forall c :: c in s ==> c == '.' || IsIdentifierChar(c)
  {
    JoinSplit(s, '.');
    assert Split("", '.') == [""];
    assert s == "" ==> "" in Split(s, '.');
    forall c | c in s
      ensures c == '.' || IsIdentifierChar(c)
    {
      JoinChars(Split(s, '.'), '.', c);
    }
  }

  lemma PreIsBuild(s: string)
    requires IsPre(s)
    ensures IsBuild(s)
  {
  }

  lemma ParsePrintedCore(v: Version)
    ensures ParseCore(PrintCore(v)) == Some((v.major, v.minor, v.patch))
  {
    var parts := [Render(v.major, 10), Render(v.minor, 10), Render(v.patch, 10)];
    PartRoundTrip(v.major);
    PartRoundTrip(v.minor);
    PartRoundTrip(v.patch);
    SplitJoin(parts, '.');
  }

  lemma PrintParsedCore(s: string)
    requires ParseCore(s).Some?
    ensures var (major, minor, patch) := ParseCore(s).value;
            s == Join([Render(major, 10), Render(minor, 10), Render(patch, 10)], '.')
  {
    var parts := Split(s, '.');
    JoinSplit(s, '.');
    RenderOfValue(parts[0], 10);
    RenderOfValue(parts[1], 10);
    RenderOfValue(parts[2], 10);
    assert parts == [parts[0], parts[1], parts[2]];
  }

  lemma ParsePrint(v: Version)
    requires IsValid(v)
    ensures Parse(Print(v)) == Some(v)
  {
    var core := PrintCore(v);
    var pre := if v.pre != "" then Some(v.pre) else None;
    var build := if v.build != "" then Some(v.build) else None;
    CoreChars(v);
    if v.pre != "" {
      PreIsBuild(v.pre);
      DottedChars(v.pre);
    }
    SplitOnceFinds(core, pre, '-');
    SplitOnceFinds(core + (if v.pre != "" then "-" + v.pre else ""), build, '+');
    ParsePrintedCore(v);
  }

  lemma PrintParse(s: string)
    requires Parse(s).Some?
    ensures IsValid(Parse(s).value) && Print(Parse(s).value) == s
  {
    var (head, build) := SplitOnce(s, '+');
    var (core, pre) := SplitOnce(head, '-');
    SplitOnceSound(s, '+');
    SplitOnceSound(head, '-');
    PrintParsedCore(core);
    if pre.Some? {
      PreIsBuild(pre.value);
      DottedChars(pre.value);
    }
    if build.Some? {
      DottedChars(build.value);
    }
  }

  /** The grammar is lossless: a text is read as a version exactly when it is how that version prints. */
  lemma ParseIsInverse(s: string, v: Version)
    ensures Parse(s) == Some(v) <==> IsValid(v) && s == Print(v)
  {
    if Parse(s).Some? {
      PrintParse(s);
    }
    if IsValid(v) {
      ParsePrint(v);
    }
  }

  lemma PrintInjective(v: Version, w: Version)
    requires IsValid(v) && IsValid(w) && Print(v) == Print(w)
    ensures v == w
  {
    ParsePrint(v);
    ParsePrint(w);
  }

  /** Nothing a version prints is whitespace or a product separator. */
  lemma PrintChars(v: Version)
    requires IsValid(v)
    ensures Print(v) != "" && forall c :: c in Print(v) ==> c != '/' && !IsWhitespace(c)
  {
    CoreChars(v);
    if v.pre != "" {
      PreIsBuild(v.pre);
      DottedChars(v.pre);
    }
    if v.build != "" {
      DottedChars(v.build);
    }
  }
}
