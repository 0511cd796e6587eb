/**
  Showing a token this build does not recognise: escaped, and cut to a byte budget. A token is its
  Unicode scalar values. The escape of one character is a parameter, standing for
  `char::escape_debug`; nothing below depends on which characters it escapes.
 */
module Rendering {

  /** The bytes UTF-8 takes for a character. */
  function CharBytes(c: char): nat {
    var u := c as int;
    if u < 0x80 then 1 else if u < 0x800 then 2 else if u < 0x1_0000 then 3 else 4
  }

  function Bytes(s: string): nat {
    if s == "" then 0 else Bytes(s[..|s| - 1]) + CharBytes(s[|s| - 1])
  }

  /** The bytes themselves: a lead byte, and six bits in each byte that follows it. */
  function Utf8(c: char): seq<int> {
    var u := c as int;
    var v, w, x := u / 64, u / 64 / 64, u / 64 / 64 / 64;
    if u < 0x80 then [u]
    else if u < 0x800 then [0xC0 + v, 0x80 + u % 64]
    else if u < 0x1_0000 then [0xE0 + w, 0x80 + v % 64, 0x80 + u % 64]
    else [0xF0 + x, 0x80 + w % 64, 0x80 + v % 64, 0x80 + u % 64]
  }

  function Utf8Text(s: string): seq<int> {
    if s == "" then [] else Utf8(s[0]) + Utf8Text(s[1..])
  }

  /** How many bytes the first character of an encoded text takes, and which character it is. */
  function Lead(bytes: seq<int>): nat
    requires bytes != []
  {
    if bytes[0] < 0x80 then 1 else if bytes[0] < 0xE0 then 2 else if bytes[0] < 0xF0 then 3 else 4
  }

  function Scalar(bytes: seq<int>): int
    requires bytes != [] && Lead(bytes) <= |bytes|
  {
    var n := Lead(bytes);
    if n == 1 then bytes[0]
    else if n == 2 then Six(bytes[0] - 0xC0, bytes[1])
    else if n == 3 then Six(Six(bytes[0] - 0xE0, bytes[1]), bytes[2])
    else Six(Six(Six(bytes[0] - 0xF0, bytes[1]), bytes[2]), bytes[3])
  }

  function Six(high: int, byte: int): int {
    64 * high + (byte - 0x80)
  }

  /** The width counted is that of the encoding, which can be read back whatever follows it. */
  lemma WidthIsEncoded(c: char, rest: seq<int>)
    ensures |Utf8(c)| == CharBytes(c) && forall b :: b in Utf8(c) ==> 0 <= b < 0x100
    ensures var bytes := Utf8(c) + rest; Lead(bytes) == CharBytes(c) && Scalar(bytes) == c as int
  {
    var u := c as int;
    assert Six(u / 64, 0x80 + u % 64) == u;
    assert Six(u / 64 / 64, 0x80 + u / 64 % 64) == u / 64;
    assert Six(u / 64 / 64 / 64, 0x80 + u / 64 / 64 % 64) == u / 64 / 64;
    assert u < 0x11_0000;
  }

  lemma {:induction false} BytesAreUtf8(s: string)
    ensures Bytes(s) == |Utf8Text(s)|
  {
    if s == "" {
    } else {
      BytesAreUtf8(s[1..]);
      assert s == [s[0]] + s[1..];
      BytesOfConcatenation([s[0]], s[1..]);
      assert [s[0]][..0] == "" && Bytes([s[0]]) == CharBytes(s[0]);
      WidthIsEncoded(s[0], []);
    }
  }

  type Escape = char -> string

  function Escaped(token: string, escape: Escape): string {
    if token == "" then "" else Escaped(token[..|token| - 1], escape) + escape(token[|token| - 1])
  }

  const MARKER: char := '\U{2026}'

  lemma {:induction false} BytesOfConcatenation(a: string, b: string)
    ensures Bytes(a + b) == Bytes(a) + Bytes(b)
  {
    if b == "" {
      assert a + b == a;
    } else {
      BytesOfConcatenation(a, b[..|b| - 1]);
      assert (a + b)[..|a + b| - 1] == a + b[..|b| - 1];
    }
  }

  lemma EscapedSnoc(token: string, k: nat, escape: Escape)
    requires k < |token|
    ensures Escaped(token[..k + 1], escape) == Escaped(token[..k], escape) + escape(token[k])
    ensures Bytes(Escaped(token[..k + 1], escape)) == Bytes(Escaped(token[..k], escape)) + Bytes(escape(token[k]))
  {
    assert token[..k + 1][..k] == token[..k];
    BytesOfConcatenation(Escaped(token[..k], escape), escape(token[k]));
  }

  /** The first `k` characters fit the budget once escaped. */
  predicate Fits(token: string, k: nat, maxLen: nat, escape: Escape)
    requires k <= |token|
  {
    Bytes(Escaped(token[..k], escape)) <= maxLen
  }

  lemma {:induction false} FitsShorter(token: string, j: nat, k: nat, maxLen: nat, escape: Escape)
    requires j <= k <= |token| && Fits(token, k, maxLen, escape)
    ensures Fits(token, j, maxLen, escape)
    decreases k - j
  {
    if j >= k {
    } else {
      EscapedSnoc(token, k - 1, escape);
      FitsShorter(token, j, k - 1, maxLen, escape);
    }
  }

  /** How many whole characters `display_bounded` keeps: the most whose escapes fit. */
  ghost predicate IsLongestFit(token: string, k: nat, maxLen: nat, escape: Escape) {
    && k <= |token|
    && Fits(token, k, maxLen, escape)
    && forall j :: k < j <= |token| ==> !Fits(token, j, maxLen, escape)
  }

  /** The first `kept` characters escaped, with the marker appended if that is not all of them. */
  function Bounded(token: string, kept: nat, escape: Escape): string
    requires kept <= |token|
  {
    Escaped(token[..kept], escape) + (if kept < |token| then [MARKER] else "")
  }

  /** `UnknownPhaseToken::display_bounded`. */
  method DisplayBounded(token: string, maxLen: nat, escape: Escape) returns (rendered: string)
    ensures exists kept :: IsLongestFit(token, kept, maxLen, escape) && rendered == Bounded(token, kept, escape)
  {
    rendered := "";
    var dropped := false;
    ghost var kept := 0;
    for i := 0 to |token|
      invariant !dropped && kept == i
      invariant rendered == Escaped(token[..i], escape) && Fits(token, i, maxLen, escape)
    {
      var escaped := escape(token[i]);
      EscapedSnoc(token, i, escape);
      if Bytes(rendered) + Bytes(escaped) > maxLen {
        dropped := true;
        break;
      }
      rendered := rendered + escaped;
      kept := i + 1;
    }
    assert dropped <==> kept < |token|;
    if dropped {
      StopsAtFirstMisfit(token, kept, maxLen, escape);
      rendered := rendered + [MARKER];
    }
    assert IsLongestFit(token, kept, maxLen, escape);
  }

  lemma StopsAtFirstMisfit(token: string, k: nat, maxLen: nat, escape: Escape)
    requires k < |token| && !Fits(token, k + 1, maxLen, escape)
    ensures forall j :: k < j <= |token| ==> !Fits(token, j, maxLen, escape)
  {
    forall j | k < j <= |token|
      ensures !Fits(token, j, maxLen, escape)
    {
      if Fits(token, j, maxLen, escape) {
        FitsShorter(token, k + 1, j, maxLen, escape);
      }
    }
  }

  /** The `Display` of a token: every character escaped. */
  method Display(token: string, escape: Escape) returns (out: string)
    ensures out == Escaped(token, escape)
  {
    out := "";
    for i := 0 to |token|
      invariant out == Escaped(token[..i], escape)
    {
      EscapedSnoc(token, i, escape);
      out := out + escape(token[i]);
    }
    assert token[..|token|] == token;
  }

  /** A text of ASCII characters that need no escaping. */
  predicate IsPlain(token: string, escape: Escape) {
    forall c :: c in token ==> c as int < 0x80 && escape(c) == [c]
  }

  lemma {:induction false} PlainIsItself(token: string, escape: Escape)
    requires IsPlain(token, escape)
    ensures Escaped(token, escape) == token && Bytes(token) == |token|
  {
    if token == "" {
    } else {
      var n := |token| - 1;
      assert token[n] in token && forall c :: c in token[..n] ==> c in token;
      PlainIsItself(token[..n], escape);
      assert token == token[..n] + [token[n]];
    }
  }

  /** What a plain token is rendered as: itself if it fits, or as many characters as the budget and an ellipsis. */
  lemma PlainRendering(token: string, k: nat, maxLen: nat, escape: Escape)
    requires IsPlain(token, escape) && IsLongestFit(token, k, maxLen, escape)
    ensures Bounded(token, k, escape) == if |token| <= maxLen then token else token[..maxLen] + "\U{2026}"
  {
    forall j | 0 <= j <= |token|
      ensures Fits(token, j, maxLen, escape) <==> j <= maxLen
    {
      assert forall c :: c in token[..j] ==> c in token;
      PlainIsItself(token[..j], escape);
    }
    var fit := if |token| <= maxLen then |token| else maxLen;
    assert Fits(token, fit, maxLen, escape);
    OneLongestFit(token, k, fit, maxLen, escape);
    assert forall c :: c in token[..k] ==> c in token;
    PlainIsItself(token[..k], escape);
    assert token[..|token|] == token;
  }

  /** Only one number can be kept, so the contract above determines the rendering. */
  lemma OneLongestFit(token: string, j: nat, k: nat, maxLen: nat, escape: Escape)
    requires IsLongestFit(token, j, maxLen, escape) && IsLongestFit(token, k, maxLen, escape)
    ensures j == k
  {
    assert Fits(token, j, maxLen, escape) && Fits(token, k, maxLen, escape);
  }

  /** All of the token is kept exactly when its whole escape fits, and then `Display` agrees. */
  lemma WholeTokenFits(token: string, k: nat, maxLen: nat, escape: Escape)
    requires IsLongestFit(token, k, maxLen, escape)
    ensures k == |token| <==> Bytes(Escaped(token, escape)) <= maxLen
    ensures k == |token| ==> Bounded(token, k, escape) == Escaped(token, escape)
  {
    assert token[..|token|] == token;
    assert Fits(token, |token|, maxLen, escape) <==> Bytes(Escaped(token, escape)) <= maxLen;
  }

  /** The budget bounds the escaped content; the marker, when there is one, is three bytes more. */
  lemma BoundedBytes(token: string, k: nat, maxLen: nat, escape: Escape)
    requires IsLongestFit(token, k, maxLen, escape)
    ensures Bytes(Escaped(token[..k], escape)) <= maxLen
    ensures Bytes(Bounded(token, k, escape))
         == Bytes(Escaped(token[..k], escape)) + (if k < |token| then 3 else 0)
  {
    var content := Escaped(token[..k], escape);
    BytesOfConcatenation(content, [MARKER]);
    assert Bytes([MARKER]) == 3 by { assert [MARKER][..0] == ""; }
    assert content + "" == content;
  }

  /** A larger budget keeps at least as much, so a rendering only ever grows. */
  lemma LargerBudgetKeepsMore(token: string, k: nat, m: nat, small: nat, large: nat, escape: Escape)
    requires small <= large
    requires IsLongestFit(token, k, small, escape) && IsLongestFit(token, m, large, escape)
    ensures k <= m && Escaped(token[..k], escape) <= Escaped(token[..m], escape)
  {
    assert Fits(token, k, large, escape);
    EscapedPrefix(token, k, m, escape);
  }

  lemma {:induction false} EscapedPrefix(token: string, k: nat, m: nat, escape: Escape)
    requires k <= m <= |token|
    ensures Escaped(token[..k], escape) <= Escaped(token[..m], escape)
    decreases m
  {
    if k >= m {
    } else {
      EscapedSnoc(token, m - 1, escape);
      EscapedPrefix(token, k, m - 1, escape);
    }
  }

  /** The kept part of a cut token, followed by the marker as a character of its own. */
  function PassingToken(token: string, k: nat): string
    requires k <= |token|
  {
    token[..k] + [MARKER]
  }

  lemma PassingTokenEscape(token: string, k: nat, escape: Escape)
    requires k <= |token| && escape(MARKER) == [MARKER]
    ensures var t := PassingToken(token, k);
            && t[..|t|] == t
            && Escaped(t, escape) == Escaped(token[..k], escape) + [MARKER]
            && Bytes(Escaped(t, escape)) == Bytes(Escaped(token[..k], escape)) + 3
  {
    var t := PassingToken(token, k);
    assert t[..|t|] == t && t[..k] == token[..k];
    EscapedSnoc(t, k, escape);
    assert Bytes([MARKER]) == 3 by { assert [MARKER][..0] == ""; }
  }

  /** Some token that fits whole under this budget renders as `rendered` does. */
  ghost predicate IsWholeRendering(rendered: string, maxLen: nat, escape: Escape) {
    exists t: string :: IsLongestFit(t, |t|, maxLen, escape) && Bounded(t, |t|, escape) == rendered
  }

  /**
    When the rendering of a cut token can be mistaken for that of a whole one: exactly when the budget
    left room for the marker, so that a token really ending in it would have fitted.
   */
  lemma TruncationCanPassForWhole(token: string, k: nat, maxLen: nat, escape: Escape)
    requires escape(MARKER) == [MARKER]
    requires IsLongestFit(token, k, maxLen, escape) && k < |token|
    ensures IsWholeRendering(Bounded(token, k, escape), maxLen, escape)
       <==> Bytes(Escaped(token[..k], escape)) + 3 <= maxLen
  {
    var rendered := Bounded(token, k, escape);
    BoundedBytes(token, k, maxLen, escape);
    if IsWholeRendering(rendered, maxLen, escape) {
      var t: string :| IsLongestFit(t, |t|, maxLen, escape) && Bounded(t, |t|, escape) == rendered;
      BoundedBytes(t, |t|, maxLen, escape);
    }
    if Bytes(Escaped(token[..k], escape)) + 3 <= maxLen {
      var t := PassingToken(token, k);
      PassingTokenEscape(token, k, escape);
      assert Fits(t, |t|, maxLen, escape);
      assert IsLongestFit(t, |t|, maxLen, escape);
      WholeTokenFits(t, |t|, maxLen, escape);
    }
  }

  /** At the least budget that can hold the marker: a character too wide for it, and the marker itself. */
  lemma MarkerIsAmbiguous(c: char, escape: Escape)
    requires escape(MARKER) == [MARKER] && Bytes(escape(c)) > 3
    ensures [c] != [MARKER]
    ensures IsLongestFit([MARKER], 1, 3, escape) && IsLongestFit([c], 0, 3, escape)
    ensures Bounded([MARKER], 1, escape) == Bounded([c], 0, escape)
  {
    assert Bytes([MARKER]) == 3 by { assert [MARKER][..0] == ""; }
    EscapedSnoc([MARKER], 0, escape);
    EscapedSnoc([c], 0, escape);
    assert "" + escape(MARKER) == escape(MARKER);
    assert [MARKER][..1] == [MARKER] && [c][..1] == [c];
    assert Escaped([MARKER][..1], escape) == [MARKER];
    assert Bytes(Escaped([c][..0], escape)) == 0 && !Fits([c], 1, 3, escape);
  }
}
