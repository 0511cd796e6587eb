/**
  Strings: the order Rust compares `str` values by, splitting, joining and trimming.

  A `string` here is read in one of two ways, and each module says which: as the text's UTF-8 bytes
  (the identifier codecs, which index bytes) or as its Unicode scalar values (trimming and
  escaping). UTF-8 keeps scalar order, so `Less` is Rust's `str` order under either reading.
 */
module Text {
  import opened Wrappers

  // ----- the order of strings -----

  predicate Less(a: string, b: string) {
    b != "" && (a == "" || a[0] < b[0] || (a[0] == b[0] && Less(a[1..], b[1..])))
  }

  lemma {:induction false} LessIrreflexive(a: string)
    ensures !Less(a, a)
  {
    if a == "" {
    } else {
      LessIrreflexive(a[1..]);
    }
  }

  lemma {:induction false} LessTransitive(a: string, b: string, c: string)
    requires Less(a, b) && Less(b, c)
    ensures Less(a, c)
  {
    if a == "" || a[0] != b[0] || b[0] != c[0] {
    } else {
      LessTransitive(a[1..], b[1..], c[1..]);
    }
  }

  lemma {:induction false} LessTotal(a: string, b: string)
    ensures Less(a, b) || a == b || Less(b, a)
  {
    if a == "" || b == "" || a[0] != b[0] {
    } else {
      LessTotal(a[1..], b[1..]);
      assert a == [a[0]] + a[1..] && b == [b[0]] + b[1..];
    }
  }

  lemma LessAsymmetric(a: string, b: string)
    requires Less(a, b)
    ensures !Less(b, a) && a != b
  {
    LessIrreflexive(a);
    if Less(b, a) {
      LessTransitive(a, b, a);
    }
  }

  ghost predicate Ascending(ids: seq<string>) {
    forall i, j :: 0 <= i < j < |ids| ==> Less(ids[i], ids[j])
  }

  lemma AscendingDistinct(ids: seq<string>, i: nat, j: nat)
    requires Ascending(ids) && i < |ids| && j < |ids| && ids[i] == ids[j]
    ensures i == j
  {
    LessIrreflexive(ids[i]);
  }

  // ----- a finite set of strings, in ascending order: how a BTreeMap or BTreeSet is iterated -----

  predicate IsLeast(x: string, s: set<string>) {
    x in s && forall y :: y in s ==> y == x || Less(x, y)
  }

  lemma {:induction false} LeastExists(s: set<string>)
    requires s != {}
    ensures exists x :: IsLeast(x, s)
  {
    var y :| y in s;
    var rest := s - {y};
    if rest == {} {
      forall x | x in s
        ensures x == y
      {
        assert x != y ==> x in rest;
      }
      assert IsLeast(y, s);
    } else {
      LeastExists(rest);
      var z :| IsLeast(z, rest);
      LessTotal(y, z);
      var least := if Less(y, z) then y else z;
      forall x | x in s
        ensures x == least || Less(least, x)
      {
        if x in rest && Less(y, z) && x != z {
          LessTransitive(y, z, x);
        }
      }
      assert IsLeast(least, s);
    }
  }

  lemma LeastUnique(s: set<string>)
    ensures forall x, y :: IsLeast(x, s) && IsLeast(y, s) ==> x == y
  {
    forall x, y | IsLeast(x, s) && IsLeast(y, s)
      ensures x == y
    {
      if x != y {
        LessAsymmetric(x, y);
      }
    }
  }

  /** The members of `s` in ascending order. */
  function InOrder(s: set<string>): (order: seq<string>)
    ensures Ascending(order)
    ensures forall x :: x in order <==> x in s
    ensures |order| == |s|
  {
    if s == {} then [] else
      LeastExists(s);
      LeastUnique(s);
      var least :| least in s && IsLeast(least, s);
      [least] + InOrder(s - {least})
  }

  // ----- splitting and joining on a one-character separator -----

  function Split(s: string, sep: char): (parts: seq<string>)
    ensures |parts| >= 1
    ensures forall p :: p in parts ==> sep !in p
  {
    if s == "" then [""] else
      var rest := Split(s[1..], sep);
      if s[0] == sep then [""] + rest else [[s[0]] + rest[0]] + rest[1..]
  }

  function Join(parts: seq<string>, sep: char): string
    requires |parts| >= 1
  {
    if |parts| == 1 then parts[0] else parts[0] + [sep] + Join(parts[1..], sep)
  }

  lemma {:induction false} JoinSplit(s: string, sep: char)
    ensures Join(Split(s, sep), sep) == s
  {
    if s == "" {
    } else {
      JoinSplit(s[1..], sep);
      var rest := Split(s[1..], sep);
      if s[0] == sep {
        assert ([""] + rest)[1..] == rest;
      } else {
        var head := [s[0]] + rest[0];
        assert ([head] + rest[1..])[1..] == rest[1..];
        assert s == [s[0]] + s[1..];
      }
    }
  }

  lemma {:induction false} SplitPrefix(p: string, s: string, sep: char)
    requires sep !in p
    ensures var parts := Split(s, sep); Split(p + s, sep) == [p + parts[0]] + parts[1..]
  {
    var parts := Split(s, sep);
    if p == "" {
      assert p + s == s;
      assert p + parts[0] == parts[0] && [parts[0]] + parts[1..] == parts;
    } else {
      SplitPrefix(p[1..], s, sep);
      assert (p + s)[1..] == p[1..] + s && (p + s)[0] == p[0];
      assert ([p[1..] + parts[0]] + parts[1..])[1..] == parts[1..];
      assert [p[0]] + (p[1..] + parts[0]) == p + parts[0];
    }
  }

  lemma {:induction false} SplitJoin(parts: seq<string>, sep: char)
    requires |parts| >= 1 && forall p :: p in parts ==> sep !in p
    ensures Split(Join(parts, sep), sep) == parts
  {
    if |parts| == 1 {
      SplitPrefix(parts[0], "", sep);
      assert parts[0] + "" == parts[0];
    } else {
      var rest := Join(parts[1..], sep);
      SplitJoin(parts[1..], sep);
      SplitPrefix(parts[0], [sep] + rest, sep);
      assert ([sep] + rest)[1..] == rest;
      assert parts[0] + ([sep] + rest) == parts[0] + [sep] + rest;
      assert Split([sep] + rest, sep) == [""] + parts[1..];
      assert ([""] + parts[1..])[1..] == parts[1..];
      assert parts[0] + "" == parts[0];
    }
  }

  lemma {:induction false} JoinChars(parts: seq<string>, sep: char, c: char)
    requires |parts| >= 1 && c in Join(parts, sep)
    ensures c == sep || exists p :: p in parts && c in p
  {
    if |parts| <= 1 {
    } else {
      assert parts[0] in parts && forall p :: p in parts[1..] ==> p in parts;
      if c != sep && c !in parts[0] {
        JoinChars(parts[1..], sep, c);
      }
    }
  }

  /** `str::rsplit_once`: the text before and after the last `sep`. */
  function RSplitOnce(s: string, sep: char): Option<(string, string)> {
    if s == "" then None else
      var last := |s| - 1;
      if s[last] == sep then Some((s[..last], "")) else
        match RSplitOnce(s[..last], sep)
        case None => None
        case Some((before, after)) => Some((before, after + [s[last]]))
  }

  lemma {:induction false} RSplitOnceFinds(before: string, after: string, sep: char)
    requires sep !in after
    ensures RSplitOnce(before + [sep] + after, sep) == Some((before, after))
  {
    var s := before + [sep] + after;
    var last := |s| - 1;
    if after == "" {
      assert s[..last] == before;
    } else {
      var shorter := after[..|after| - 1];
      RSplitOnceFinds(before, shorter, sep);
      assert s[..last] == before + [sep] + shorter;
      assert shorter + [s[last]] == after;
    }
  }

  lemma {:induction false} RSplitOnceSound(s: string, sep: char)
    ensures match RSplitOnce(s, sep)
            case None => sep !in s
            case Some((before, after)) => s == before + [sep] + after && sep !in after
  {
    if s == "" {
    } else {
      RSplitOnceSound(s[..|s| - 1], sep);
      assert s == s[..|s| - 1] + [s[|s| - 1]];
    }
  }

  /** `str::split_once`: the text before the first `sep`, and the text after it if there is one. */
  function SplitOnce(s: string, sep: char): (string, Option<string>) {
    if s == "" then ("", None)
    else if s[0] == sep then ("", Some(s[1..]))
    else
      var (before, after) := SplitOnce(s[1..], sep);
      ([s[0]] + before, after)
  }

  lemma {:induction false} SplitOnceFinds(before: string, after: Option<string>, sep: char)
    requires sep !in before
    ensures SplitOnce(before + (if after.Some? then [sep] + after.value else ""), sep) == (before, after)
  {
    var rest := if after.Some? then [sep] + after.value else "";
    if before == "" {
      assert "" + rest == rest;
    } else {
      SplitOnceFinds(before[1..], after, sep);
      assert (before + rest)[1..] == before[1..] + rest && (before + rest)[0] == before[0];
      assert before == [before[0]] + before[1..] && before[0] in before;
    }
  }

  lemma {:induction false} SplitOnceSound(s: string, sep: char)
    ensures var (before, after) := SplitOnce(s, sep);
            s == before + (if after.Some? then [sep] + after.value else "") && sep !in before
  {
    if s == "" {
    } else {
      SplitOnceSound(s[1..], sep);
      assert s == [s[0]] + s[1..];
    }
  }

  // ----- trimming, over Unicode scalar values -----

  /** Unicode White_Space, the class `str::trim` removes. */
  predicate IsWhitespace(c: char) {
    var u := c as int;
    || 0x9 <= u <= 0xD || u == 0x20 || u == 0x85 || u == 0xA0 || u == 0x1680
    || 0x2000 <= u <= 0x200A || u == 0x2028 || u == 0x2029 || u == 0x202F || u == 0x205F || u == 0x3000
  }

  /** The 25 characters of that class, ASCII first. */
  lemma WhitespaceChars(c: char)
    ensures var ascii := "\U{9}\U{A}\U{B}\U{C}\U{D} ";
            var spaces := "\U{2000}\U{2001}\U{2002}\U{2003}\U{2004}\U{2005}\U{2006}\U{2007}\U{2008}\U{2009}\U{200A}";
            var others := "\U{85}\U{A0}\U{1680}\U{2028}\U{2029}\U{202F}\U{205F}\U{3000}";
            && |ascii + spaces + others| == 25
            && (IsWhitespace(c) <==> c in ascii || c in spaces || c in others)
  {
  }

  function TrimStart(s: string): string {
    if s != "" && IsWhitespace(s[0]) then TrimStart(s[1..]) else s
  }

  function TrimEnd(s: string): string {
    if s != "" && IsWhitespace(s[|s| - 1]) then TrimEnd(s[..|s| - 1]) else s
  }

  function Trim(s: string): string {
    TrimEnd(TrimStart(s))
  }

  lemma {:induction false} TrimStartAppend(s: string, t: string)
    requires t != "" && !IsWhitespace(t[0])
    ensures TrimStart(s + t) == TrimStart(s) + t
  {
    if s == "" {
      assert s + t == t;
    } else if IsWhitespace(s[0]) {
      assert (s + t)[1..] == s[1..] + t;
      TrimStartAppend(s[1..], t);
    }
  }

  lemma TrimKeepsTail(s: string, t: string)
    requires t != "" && !IsWhitespace(t[0]) && !IsWhitespace(t[|t| - 1])
    ensures Trim(s + t) == TrimStart(s) + t
  {
    TrimStartAppend(s, t);
    TrimEndOf(TrimStart(s) + t, "");
    assert (TrimStart(s) + t) + "" == TrimStart(s) + t;
  }

  // ----- what trimming does, without mention of how -----

  predicate AllWhitespace(s: string) {
    forall c :: c in s ==> IsWhitespace(c)
  }

  /** Neither end is whitespace. */
  predicate IsBare(t: string) {
    t != "" ==> !IsWhitespace(t[0]) && !IsWhitespace(t[|t| - 1])
  }

  /** The text with some whitespace, perhaps none, before and after it. */
  ghost predicate Pads(s: string, t: string) {
    exists a, b :: AllWhitespace(a) && AllWhitespace(b) && s == a + t + b
  }

  lemma {:induction false} TrimStartSplits(s: string) returns (a: string)
    ensures AllWhitespace(a) && s == a + TrimStart(s)
    ensures var t := TrimStart(s); t != "" ==> !IsWhitespace(t[0])
  {
    if s == "" || !IsWhitespace(s[0]) {
      a := "";
    } else {
      var rest := TrimStartSplits(s[1..]);
      a := [s[0]] + rest;
      assert s == [s[0]] + s[1..];
    }
  }

  lemma {:induction false} TrimEndSplits(s: string) returns (b: string)
    ensures AllWhitespace(b) && s == TrimEnd(s) + b
    ensures var t := TrimEnd(s); t != "" ==> !IsWhitespace(t[|t| - 1])
  {
    if s == "" || !IsWhitespace(s[|s| - 1]) {
      b := "";
    } else {
      var rest := TrimEndSplits(s[..|s| - 1]);
      b := rest + [s[|s| - 1]];
      assert s == s[..|s| - 1] + [s[|s| - 1]];
    }
  }

  lemma {:induction false} TrimStartOf(a: string, t: string)
    requires AllWhitespace(a) && (t != "" ==> !IsWhitespace(t[0]))
    ensures TrimStart(a + t) == t
  {
    if a == "" {
      assert a + t == t;
    } else {
      assert a[0] in a && forall c :: c in a[1..] ==> c in a;
      assert (a + t)[1..] == a[1..] + t;
      TrimStartOf(a[1..], t);
    }
  }

  lemma {:induction false} TrimEndOf(t: string, b: string)
    requires AllWhitespace(b) && (t != "" ==> !IsWhitespace(t[|t| - 1]))
    ensures TrimEnd(t + b) == t
  {
    if b == "" {
      assert t + b == t;
    } else {
      var n := |b| - 1;
      assert b[n] in b && forall c :: c in b[..n] ==> c in b;
      assert (t + b)[..|t + b| - 1] == t + b[..n];
      TrimEndOf(t, b[..n]);
    }
  }

  /** Trimming an end takes nothing of what stands before a visible character. */
  lemma {:induction false} TrimEndKeeps(s: string, t: string)
    requires s != "" && !IsWhitespace(s[|s| - 1])
    ensures s <= TrimEnd(s + t)
  {
    if t == "" {
      assert s + t == s;
    } else {
      assert (s + t)[..|s + t| - 1] == s + t[..|t| - 1];
      TrimEndKeeps(s, t[..|t| - 1]);
    }
  }

  lemma AllWhitespaceConcatenation(a: string, b: string)
    requires AllWhitespace(a) && AllWhitespace(b)
    ensures AllWhitespace(a + b)
  {
  }

  lemma PaddedTrims(a: string, t: string, b: string)
    requires AllWhitespace(a) && AllWhitespace(b) && IsBare(t)
    ensures Trim(a + t + b) == t
  {
    if t == "" {
      AllWhitespaceConcatenation(a, b);
      assert a + t + b == (a + b) + "";
      TrimStartOf(a + b, "");
    } else {
      assert a + t + b == a + (t + b);
      TrimStartOf(a, t + b);
      TrimEndOf(t, b);
    }
  }

  /** Trimming takes all the whitespace off both ends and nothing else. */
  lemma TrimMeaning(s: string, t: string)
    ensures Trim(s) == t <==> IsBare(t) && Pads(s, t)
  {
    var a := TrimStartSplits(s);
    var b := TrimEndSplits(TrimStart(s));
    assert s == a + Trim(s) + b;
    assert Pads(s, Trim(s));
    assert TrimStart(s) != "" && Trim(s) != "" ==> Trim(s)[0] == TrimStart(s)[0];
    if IsBare(t) && Pads(s, t) {
      var x, y :| AllWhitespace(x) && AllWhitespace(y) && s == x + t + y;
      PaddedTrims(x, t, y);
    }
  }

  /** A text starts, after any whitespace, with a text that does not itself start with whitespace. */
  lemma TrimStartPrefix(s: string, p: string)
    requires p != "" && !IsWhitespace(p[0])
    ensures p <= TrimStart(s) <==> exists a, rest :: AllWhitespace(a) && s == a + p + rest
  {
    var a := TrimStartSplits(s);
    if p <= TrimStart(s) {
      assert s == a + p + TrimStart(s)[|p|..];
    }
    if x, rest :| AllWhitespace(x) && s == x + p + rest {
      assert s == x + (p + rest);
      TrimStartOf(x, p + rest);
    }
  }

  lemma TrimIdempotent(s: string)
    ensures Trim(Trim(s)) == Trim(s)
    ensures forall c :: c in Trim(s) ==> c in s
  {
    var t := Trim(s);
    TrimMeaning(s, t);
    assert "" + t + "" == t;
    PaddedTrims("", t, "");
    var a, b :| AllWhitespace(a) && AllWhitespace(b) && s == a + t + b;
  }
}
