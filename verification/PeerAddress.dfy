/**
  The canonical text of a Chia peer's address, and joining it to a port. The address literals are
  those of section 2.2 of RFC 4291, printed as section 4 of RFC 5952 recommends, which is what the
  contract relies on `std::net::IpAddr` for.
 */
module PeerAddress {
  import opened Wrappers
  import opened Text
  import opened Numerals
  import opened Requests

  type Octets = s: seq<byte> | |s| == 4 witness [0, 0, 0, 0]
  type Groups = s: seq<u16> | |s| == 8 witness [0, 0, 0, 0, 0, 0, 0, 0]

  datatype IpAddr = V4(octets: Octets) | V6(groups: Groups)

  // ----- IPv4 -----

  predicate IsOctet(s: string) {
    IsCanonical(s, 10) && Value(s, 10) < 256
  }

  function ParseV4(s: string): Option<Octets> {
    var parts := Split(s, '.');
    if |parts| == 4 && IsOctet(parts[0]) && IsOctet(parts[1]) && IsOctet(parts[2]) && IsOctet(parts[3])
    then Some([Value(parts[0], 10), Value(parts[1], 10), Value(parts[2], 10), Value(parts[3], 10)])
    else None
  }

  function PrintV4(o: Octets): string {
    Join([Render(o[0], 10), Render(o[1], 10), Render(o[2], 10), Render(o[3], 10)], '.')
  }

  // ----- reading IPv6: colon-separated groups, at most one gap, a dotted quad allowed last -----

  predicate IsGroup(s: string) {
    IsNumeral(s, 16) && |s| <= 4
  }

  function GroupValue(s: string): u16
    requires IsGroup(s)
  {
    GroupBound(s);
    Value(s, 16)
  }

  lemma GroupBound(s: string)
    requires IsGroup(s)
    ensures Value(s, 16) < 0x1_0000
  {
    DigitsValueBound(s, 16);
    assert Pow(16, 0) == 1 && Pow(16, 1) == 16 && Pow(16, 2) == 256 && Pow(16, 3) == 4096 && Pow(16, 4) == 65536;
  }

  function Tokens(s: string): seq<string> {
    if s == "" then [] else Split(s, ':')
  }

  /** The text before the first `::`, and the text after it if there is one. */
  function SplitGap(s: string): (string, Option<string>) {
    if "::" <= s then ("", Some(s[2..]))
    else if s == "" then ("", None)
    else
      var (before, after) := SplitGap(s[1..]);
      ([s[0]] + before, after)
  }

  /** Two octets as one big-endian group, and the group's octets back. */
  function Word(hi: byte, lo: byte): (word: u16)
    ensures word / 256 == hi && word % 256 == lo
  {
    var high: nat := hi;
    high * 256 + lo
  }

  function ParseGroups(tokens: seq<string>, quadAllowed: bool): Option<seq<u16>> {
    if tokens == [] then Some([])
    else if quadAllowed && |tokens| == 1 && ParseV4(tokens[0]).Some? then
      var o := ParseV4(tokens[0]).value;
      Some([Word(o[0], o[1]), Word(o[2], o[3])])
    else if IsGroup(tokens[0]) then
      match ParseGroups(tokens[1..], quadAllowed)
      case None => None
      case Some(rest) => Some([GroupValue(tokens[0])] + rest)
    else None
  }

  function Zeros(n: nat): seq<u16> {
    seq(n, _ => 0)
  }

  /** What a gap stands for: as many zero groups as are missing, at least one. */
  function Fill(head: seq<u16>, tail: Option<seq<u16>>): Option<Groups> {
    if tail.Some? && |head| + |tail.value| <= 7
    then Some(head + Zeros(8 - |head| - |tail.value|) + tail.value)
    else None
  }

  function ParseV6(s: string): Option<Groups> {
    var (before, after) := SplitGap(s);
    match after
    case None =>
      var groups := ParseGroups(Tokens(before), true);
      if groups.Some? && |groups.value| == 8 then Some(groups.value) else None
    case Some(text) =>
      var head := ParseGroups(Tokens(before), false);
      if head.Some? then Fill(head.value, ParseGroups(Tokens(text), true)) else None
  }

  function ParseIp(s: string): Option<IpAddr> {
    match ParseV4(s)
    case Some(o) => Some(V4(o))
    case None =>
      match ParseV6(s)
      case Some(g) => Some(V6(g))
      case None => None
  }

  // ----- printing IPv6 -----

  function ZerosAt(g: seq<u16>, i: nat): (n: nat)
    requires i <= |g|
    ensures i + n <= |g|
    ensures forall j :: i <= j < i + n ==> g[j] == 0
    ensures i + n < |g| ==> g[i + n] != 0
    decreases |g| - i
  {
    if i < |g| && g[i] == 0 then 1 + ZerosAt(g, i + 1) else 0
  }

  datatype Span = Span(start: nat, len: nat)

  /** The longest run of zero groups from `i` on, the first of them when several are as long. */
  function LongestZeros(g: seq<u16>, i: nat): (span: Span)
    requires i <= |g|
    ensures i <= span.start <= |g| && span.len == ZerosAt(g, span.start)
    ensures forall j :: i <= j <= |g| ==> ZerosAt(g, j) <= span.len
    ensures forall j :: i <= j < span.start ==> ZerosAt(g, j) < span.len
    decreases |g| - i
  {
    if i == |g| then Span(i, 0) else
      var later := LongestZeros(g, i + 1);
      if ZerosAt(g, i) >= later.len then Span(i, ZerosAt(g, i)) else later
  }

  function HexTokens(g: seq<u16>): (tokens: seq<string>)
    ensures |tokens| == |g|
  {
    if g == [] then [] else [Render(g[0], 16)] + HexTokens(g[1..])
  }

  function PrintTokens(tokens: seq<string>): string {
    if tokens == [] then "" else Join(tokens, ':')
  }

  predicate IsMapped(g: Groups) {
    g[..5] == [0, 0, 0, 0, 0] && g[5] == 0xffff
  }

  /** The dotted quad an IPv4-mapped address ends with. */
  function MappedOctets(g: Groups): Octets {
    [g[6] / 256, g[6] % 256, g[7] / 256, g[7] % 256]
  }

  predicate IsCompressed(g: Groups) {
    LongestZeros(g, 0).len > 1
  }

  function Head(g: Groups): seq<u16> {
    g[..LongestZeros(g, 0).start]
  }

  function Tail(g: Groups): seq<u16> {
    var span := LongestZeros(g, 0);
    g[span.start + span.len..]
  }

  function PrintV6(g: Groups): string {
    if IsMapped(g) then "::" + PrintTokens(["ffff", PrintV4(MappedOctets(g))])
    else if IsCompressed(g) then PrintTokens(HexTokens(Head(g))) + "::" + PrintTokens(HexTokens(Tail(g)))
    else PrintTokens(HexTokens(g))
  }

  function Print(ip: IpAddr): string {
    match ip
    case V4(o) => PrintV4(o)
    case V6(g) => PrintV6(g)
  }

  // ----- the repository's two functions -----

  const PEER_IP_ERROR: string :=
    "ip must be a bare IPv4 or IPv6 literal (no brackets, no port, no hostname)"

  function CanonicalPeerIp(raw: string): Result<string, ControlError> {
    match ParseIp(Trim(raw))
    case Some(ip) => Ok(Print(ip))
    case None => Err(Invalid(PEER_IP_ERROR))
  }

  /** The part of an endpoint before its port. */
  function Host(ip: string): string {
    match ParseIp(Trim(ip))
    case Some(V6(g)) => "[" + PrintV6(g) + "]"
    case Some(V4(o)) => PrintV4(o)
    case None => ip
  }

  function ChiaPeerEndpoint(ip: string, port: u16): string {
    Host(ip) + ":" + Render(port, 10)
  }

  // ----- tokens and gaps -----

  predicate IsToken(s: string) {
    s != "" && ':' !in s
  }

  predicate AreTokens(tokens: seq<string>) {
    forall t :: t in tokens ==> IsToken(t)
  }

  lemma TokensOfPrinted(tokens: seq<string>)
    requires AreTokens(tokens)
    ensures Tokens(PrintTokens(tokens)) == tokens
  {
    if tokens != [] {
      assert IsToken(tokens[0]);
      SplitJoin(tokens, ':');
    }
  }

  lemma GapAfterChar(c: char, s: string)
    requires c != ':' || s == "" || s[0] != ':'
    ensures SplitGap([c] + s) == ([c] + SplitGap(s).0, SplitGap(s).1)
  {
    var text := [c] + s;
    assert text[1..] == s && text[0] == c;
    assert s == "" || text[0] != ':' || text[1] != ':';
  }

  lemma {:induction false} GapAfterToken(token: string, s: string)
    requires ':' !in token
    ensures SplitGap(token + s) == (token + SplitGap(s).0, SplitGap(s).1)
  {
    var (before, after) := SplitGap(s);
    if token == "" {
      assert token + s == s && token + before == before;
    } else {
      GapAfterToken(token[1..], s);
      assert token[0] in token;
      GapAfterChar(token[0], token[1..] + s);
      assert token + s == [token[0]] + (token[1..] + s);
      assert token + before == [token[0]] + (token[1..] + before);
    }
  }

  function GapText(after: Option<string>): string {
    if after.Some? then "::" + after.value else ""
  }

  lemma JoinOfTwo(tokens: seq<string>, rest: string)
    requires |tokens| >= 2
    ensures PrintTokens(tokens) + rest == tokens[0] + ([':'] + (PrintTokens(tokens[1..]) + rest))
  {
    assert PrintTokens(tokens) == tokens[0] + [':'] + PrintTokens(tokens[1..]);
  }

  /** The first gap after printed groups is the one written there. */
  lemma {:induction false} GapAfterTokens(tokens: seq<string>, after: Option<string>)
    requires AreTokens(tokens)
    ensures SplitGap(PrintTokens(tokens) + GapText(after)) == (PrintTokens(tokens), after)
  {
    var gap := GapText(after);
    assert SplitGap(gap) == ("", after) by {
      if after.Some? {
        assert gap[2..] == after.value;
      }
    }
    if tokens == [] {
      assert "" + gap == gap;
    } else if |tokens| == 1 {
      assert IsToken(tokens[0]);
      GapAfterToken(tokens[0], gap);
      assert tokens[0] + "" == tokens[0];
    } else {
      assert IsToken(tokens[0]) && IsToken(tokens[1]);
      GapAfterTokens(tokens[1..], after);
      var rest := PrintTokens(tokens[1..]);
      assert rest[0] == tokens[1][0] && tokens[1][0] in tokens[1];
      GapAfterChar(':', rest + gap);
      GapAfterToken(tokens[0], [':'] + (rest + gap));
      JoinOfTwo(tokens, gap);
      JoinOfTwo(tokens, "");
      assert rest + "" == rest && PrintTokens(tokens) + "" == PrintTokens(tokens);
    }
  }

  // ----- IPv4 round trip; what cannot be IPv4 -----

  lemma OctetRoundTrip(n: byte)
    ensures IsOctet(Render(n, 10)) && Value(Render(n, 10), 10) == n
    ensures forall c :: c in Render(n, 10) ==> '0' <= c <= '9'
  {
    ValueOfRender(n, 10);
    DecimalChars(Render(n, 10));
  }

  lemma ParsePrintV4(o: Octets)
    ensures ParseV4(PrintV4(o)) == Some(o)
    ensures PrintV4(o) != "" && '0' <= PrintV4(o)[0] <= '9'
    ensures forall c :: c in PrintV4(o) ==> c == '.' || '0' <= c <= '9'
    ensures '.' in PrintV4(o)
  {
    var parts := [Render(o[0], 10), Render(o[1], 10), Render(o[2], 10), Render(o[3], 10)];
    OctetRoundTrip(o[0]);
    OctetRoundTrip(o[1]);
    OctetRoundTrip(o[2]);
    OctetRoundTrip(o[3]);
    SplitJoin(parts, '.');
    assert o == [o[0], o[1], o[2], o[3]];
    forall c | c in PrintV4(o)
      ensures c == '.' || '0' <= c <= '9'
    {
      JoinChars(parts, '.', c);
    }
    assert PrintV4(o)[0] == parts[0][0] && parts[0][0] in parts[0];
    assert PrintV4(o)[|parts[0]|] == '.';
  }

  lemma V4Chars(s: string)
    requires ParseV4(s).Some?
    ensures forall c :: c in s ==> c == '.' || '0' <= c <= '9'
    ensures '.' in s
  {
    var parts := Split(s, '.');
    JoinSplit(s, '.');
    assert forall p :: p in parts ==> p == parts[0] || p == parts[1] || p == parts[2] || p == parts[3];
    DecimalChars(parts[0]);
    DecimalChars(parts[1]);
    DecimalChars(parts[2]);
    DecimalChars(parts[3]);
    forall c | c in s
      ensures c == '.' || '0' <= c <= '9'
    {
      JoinChars(parts, '.', c);
    }
    assert s[|parts[0]|] == '.';
  }

  // ----- IPv6 round trip -----

  lemma HexToken(n: u16)
    ensures var s := Render(n, 16); IsGroup(s) && GroupValue(s) == n && IsToken(s) && ParseV4(s).None?
  {
    ValueOfRender(n, 16);
    assert Pow(16, 0) == 1 && Pow(16, 1) == 16 && Pow(16, 2) == 256 && Pow(16, 3) == 4096 && Pow(16, 4) == 65536;
    RenderLength(n, 16, 4);
    GroupIsToken(Render(n, 16));
  }

  lemma GroupIsToken(s: string)
    requires IsGroup(s)
    ensures IsToken(s) && '.' !in s && ParseV4(s).None?
  {
    assert DigitValue(':') == 16 && DigitValue('.') == 16;
    if ParseV4(s).Some? {
      V4Chars(s);
    }
  }

  lemma {:induction false} HexTokensAreTokens(g: seq<u16>)
    ensures AreTokens(HexTokens(g))
  {
    if g == [] {
    } else {
      HexTokensAreTokens(g[1..]);
      HexToken(g[0]);
    }
  }

  /** Groups in front of what is read after them, if that is read at all. */
  function Prefixed(g: seq<u16>, rest: Option<seq<u16>>): Option<seq<u16>> {
    match rest
    case Some(later) => Some(g + later)
    case None => None
  }

  lemma PrefixedCons(g: seq<u16>, rest: Option<seq<u16>>)
    ensures g == [] ==> Prefixed(g, rest) == rest
    ensures g != [] ==> Prefixed(g, rest) == Prefixed([g[0]], Prefixed(g[1..], rest))
  {
    if rest.Some? {
      assert g == [] ==> g + rest.value == rest.value;
      assert g != [] ==> g + rest.value == [g[0]] + (g[1..] + rest.value);
    }
  }

  lemma GroupIsRead(token: string, more: seq<string>, quadAllowed: bool)
    requires IsGroup(token)
    ensures ParseGroups([token] + more, quadAllowed) == Prefixed([GroupValue(token)], ParseGroups(more, quadAllowed))
  {
    GroupIsToken(token);
    assert ([token] + more)[1..] == more;
  }

  lemma HexGroupIsRead(n: u16, more: seq<string>, quadAllowed: bool)
    ensures ParseGroups([Render(n, 16)] + more, quadAllowed) == Prefixed([n], ParseGroups(more, quadAllowed))
  {
    HexToken(n);
    GroupIsRead(Render(n, 16), more, quadAllowed);
  }

  lemma HexTokensCons(g: seq<u16>, more: seq<string>)
    ensures g == [] ==> HexTokens(g) + more == more
    ensures g != [] ==> HexTokens(g) + more == [Render(g[0], 16)] + (HexTokens(g[1..]) + more)
  {
  }

  /** Printed groups are read back as those groups, whatever is read after them. */
  lemma {:induction false} GroupsThenMore(g: seq<u16>, more: seq<string>, quadAllowed: bool)
    ensures ParseGroups(HexTokens(g) + more, quadAllowed) == Prefixed(g, ParseGroups(more, quadAllowed))
  {
    HexTokensCons(g, more);
    PrefixedCons(g, ParseGroups(more, quadAllowed));
    if g == [] {
    } else {
      GroupsThenMore(g[1..], more, quadAllowed);
      HexGroupIsRead(g[0], HexTokens(g[1..]) + more, quadAllowed);
    }
  }

  lemma GroupsRoundTrip(g: seq<u16>, quadAllowed: bool)
    ensures ParseGroups(HexTokens(g), quadAllowed) == Some(g)
  {
    GroupsThenMore(g, [], quadAllowed);
    assert HexTokens(g) + [] == HexTokens(g) && g + [] == g;
  }

  /** Reading a gap between two lists of tokens, however each is spelled. */
  lemma ReadGap(head: seq<string>, tail: seq<string>)
    requires AreTokens(head) && AreTokens(tail)
    ensures var groups := ParseGroups(head, false);
            ParseV6(PrintTokens(head) + "::" + PrintTokens(tail))
            == if groups.Some? then Fill(groups.value, ParseGroups(tail, true)) else None
  {
    var before, text := PrintTokens(head), PrintTokens(tail);
    GapAfterTokens(head, Some(text));
    assert before + "::" + text == before + GapText(Some(text));
    TokensOfPrinted(head);
    TokensOfPrinted(tail);
  }

  lemma ReadCompressed(head: seq<u16>, tokens: seq<string>)
    requires AreTokens(tokens)
    ensures var s := PrintTokens(HexTokens(head)) + "::" + PrintTokens(tokens);
            ParseV6(s) == Fill(head, ParseGroups(tokens, true))
  {
    HexTokensAreTokens(head);
    ReadGap(HexTokens(head), tokens);
    GroupsRoundTrip(head, false);
  }

  /** Reading tokens with no gap among them. */
  lemma ReadUncompressed(tokens: seq<string>)
    requires AreTokens(tokens)
    ensures var groups := ParseGroups(tokens, true);
            ParseV6(PrintTokens(tokens)) == if groups.Some? && |groups.value| == 8 then Some(groups.value) else None
  {
    GapAfterTokens(tokens, None);
    assert PrintTokens(tokens) + "" == PrintTokens(tokens);
    TokensOfPrinted(tokens);
  }

  lemma QuadIsLast(o: Octets)
    ensures IsToken(PrintV4(o))
    ensures ParseGroups([PrintV4(o)], true) == Some([Word(o[0], o[1]), Word(o[2], o[3])])
  {
    ParsePrintV4(o);
  }

  lemma MappedTokens(o: Octets)
    ensures AreTokens(["ffff", PrintV4(o)])
    ensures ParseGroups(["ffff", PrintV4(o)], true) == Some([0xffff as u16, Word(o[0], o[1]), Word(o[2], o[3])])
  {
    var tokens := ["ffff", PrintV4(o)];
    FfffIsGroup();
    GroupIsToken("ffff");
    QuadIsLast(o);
    assert tokens[1..] == [PrintV4(o)];
    assert [0xffff as u16] + [Word(o[0], o[1]), Word(o[2], o[3])]
        == [0xffff as u16, Word(o[0], o[1]), Word(o[2], o[3])];
  }

  lemma FfffIsGroup()
    ensures IsGroup("ffff") && GroupValue("ffff") == 0xffff
  {
    assert "ffff"[..3] == "fff" && "fff"[..2] == "ff" && "ff"[..1] == "f" && "f"[..0] == "";
    assert Value("f", 16) == 15 && Value("ff", 16) == 255 && Value("fff", 16) == 4095;
  }

  lemma ReadMapped(g: Groups)
    requires IsMapped(g)
    ensures ParseV6(PrintV6(g)) == Some(g)
  {
    var o := MappedOctets(g);
    MappedTokens(o);
    ReadCompressed([], ["ffff", PrintV4(o)]);
    assert PrintV6(g) == "" + "::" + PrintTokens(["ffff", PrintV4(o)]);
    assert Word(o[0], o[1]) == g[6] && Word(o[2], o[3]) == g[7];
    assert g[..5] == Zeros(5);
    assert g == g[..5] + [g[5], g[6], g[7]];
    assert [] + Zeros(5) + [g[5], g[6], g[7]] == g;
  }

  lemma GapStandsForZeros(g: Groups)
    requires IsCompressed(g)
    ensures |Head(g)| + |Tail(g)| <= 6
    ensures g == Head(g) + Zeros(8 - |Head(g)| - |Tail(g)|) + Tail(g)
  {
  }

  lemma ReadGapped(g: Groups)
    requires IsCompressed(g) && !IsMapped(g)
    ensures ParseV6(PrintV6(g)) == Some(g)
  {
    HexTokensAreTokens(Tail(g));
    GroupsRoundTrip(Tail(g), true);
    ReadCompressed(Head(g), HexTokens(Tail(g)));
    GapStandsForZeros(g);
  }

  lemma ReadPlain(g: Groups)
    requires !IsCompressed(g) && !IsMapped(g)
    ensures ParseV6(PrintV6(g)) == Some(g)
  {
    HexTokensAreTokens(g);
    GroupsRoundTrip(g, true);
    ReadUncompressed(HexTokens(g));
  }

  lemma ParsePrintV6(g: Groups)
    ensures ParseV6(PrintV6(g)) == Some(g)
  {
    if IsMapped(g) {
      ReadMapped(g);
    } else if IsCompressed(g) {
      ReadGapped(g);
    } else {
      ReadPlain(g);
    }
  }

  lemma V6HasColon(g: Groups)
    ensures ':' in PrintV6(g)
  {
    if !IsMapped(g) {
      if IsCompressed(g) {
        var before := PrintTokens(HexTokens(Head(g)));
        assert PrintV6(g)[|before|] == ':';
      } else {
        var tokens := HexTokens(g);
        assert PrintV6(g) == tokens[0] + ":" + Join(tokens[1..], ':');
      }
    }
  }

  /** Every address is read back from its canonical text. */
  lemma ParsePrint(ip: IpAddr)
    ensures ParseIp(Print(ip)) == Some(ip)
  {
    match ip {
      case V4(o) => ParsePrintV4(o);
      case V6(g) =>
        ParsePrintV6(g);
        V6HasColon(g);
        if ParseV4(PrintV6(g)).Some? {
          V4Chars(PrintV6(g));
        }
    }
  }

  // ----- what is accepted -----

  predicate IsAddressChar(c: char) {
    c == '.' || c == ':' || DigitValue(c) < 16
  }

  lemma {:induction false} GapChars(s: string)
    ensures var (before, after) := SplitGap(s);
            s == before + (if after.Some? then "::" + after.value else "")
  {
    if s == "" {
    } else if "::" <= s {
      assert s == "::" + s[2..];
    } else {
      GapChars(s[1..]);
      assert s == [s[0]] + s[1..];
    }
  }

  lemma {:induction false} GroupTokenChars(tokens: seq<string>, quadAllowed: bool)
    requires ParseGroups(tokens, quadAllowed).Some?
    ensures forall t, c :: t in tokens && c in t ==> IsAddressChar(c)
  {
    if tokens == [] {
    } else {
      if quadAllowed && |tokens| == 1 && ParseV4(tokens[0]).Some? {
        V4Chars(tokens[0]);
      } else {
        GroupTokenChars(tokens[1..], quadAllowed);
      }
    }
  }

  lemma TokenTextChars(s: string, quadAllowed: bool)
    requires ParseGroups(Tokens(s), quadAllowed).Some?
    ensures forall c :: c in s ==> IsAddressChar(c)
  {
    GroupTokenChars(Tokens(s), quadAllowed);
    if s != "" {
      JoinSplit(s, ':');
      forall c | c in s
        ensures IsAddressChar(c)
      {
        JoinChars(Split(s, ':'), ':', c);
      }
    }
  }

  predicate AreGroups(tokens: seq<string>) {
    forall t :: t in tokens ==> IsGroup(t)
  }

  function Values(tokens: seq<string>): (groups: seq<u16>)
    requires AreGroups(tokens)
    ensures |groups| == |tokens|
    ensures forall i :: 0 <= i < |tokens| ==> groups[i] == Value(tokens[i], 16)
  {
    if tokens == [] then [] else [GroupValue(tokens[0])] + Values(tokens[1..])
  }

  lemma {:induction false} GroupsAreRead(tokens: seq<string>, quadAllowed: bool)
    requires AreGroups(tokens)
    ensures AreTokens(tokens)
    ensures ParseGroups(tokens, quadAllowed) == Some(Values(tokens))
  {
    if tokens == [] {
    } else {
      assert tokens[0] in tokens;
      GroupIsToken(tokens[0]);
      GroupsAreRead(tokens[1..], quadAllowed);
      assert forall t :: t in tokens <==> t == tokens[0] || t in tokens[1..];
    }
  }

  /** The groups on one side of a gap, or all of them: hexadecimal ones, then perhaps a dotted quad. */
  datatype Half = Half(groups: seq<string>, quad: Option<Octets>)

  function HalfTokens(half: Half): seq<string> {
    half.groups + match half.quad
                  case Some(o) => [PrintV4(o)]
                  case None => []
  }

  function HalfValue(half: Half): seq<u16>
    requires AreGroups(half.groups)
  {
    Values(half.groups) + match half.quad
                          case Some(o) => [Word(o[0], o[1]), Word(o[2], o[3])]
                          case None => []
  }

  lemma {:induction false} HalfIsRead(half: Half)
    requires AreGroups(half.groups)
    ensures AreTokens(HalfTokens(half))
    ensures ParseGroups(HalfTokens(half), true) == Some(HalfValue(half))
    decreases half.groups
  {
    if half.groups == [] {
      if half.quad.Some? {
        var o := half.quad.value;
        QuadIsLast(o);
        assert HalfTokens(half) == [PrintV4(o)] && HalfValue(half) == [Word(o[0], o[1]), Word(o[2], o[3])];
      }
    } else {
      var first, rest := half.groups[0], half.(groups := half.groups[1..]);
      assert first in half.groups;
      GroupIsToken(first);
      GroupIsRead(first, HalfTokens(rest), true);
      HalfIsRead(rest);
      assert HalfTokens(half) == [first] + HalfTokens(rest);
      assert HalfValue(half) == [GroupValue(first)] + HalfValue(rest);
    }
  }

  /** Tokens that are read are the tokens of some such half. */
  lemma {:induction false} HalfOf(tokens: seq<string>) returns (half: Half)
    requires ParseGroups(tokens, true).Some?
    ensures AreGroups(half.groups) && HalfTokens(half) == tokens
    ensures HalfValue(half) == ParseGroups(tokens, true).value
  {
    if tokens == [] {
      half := Half([], None);
    } else if |tokens| == 1 && ParseV4(tokens[0]).Some? {
      half := Half([], ParseV4(tokens[0]));
      V4Text(tokens[0]);
    } else {
      var rest := HalfOf(tokens[1..]);
      half := rest.(groups := [tokens[0]] + rest.groups);
      HalfCons(tokens[0], rest);
    }
  }

  lemma HalfCons(token: string, rest: Half)
    requires IsGroup(token) && AreGroups(rest.groups)
    ensures var half := rest.(groups := [token] + rest.groups);
            && AreGroups(half.groups)
            && HalfTokens(half) == [token] + HalfTokens(rest)
            && HalfValue(half) == [GroupValue(token)] + HalfValue(rest)
  {
    var groups := [token] + rest.groups;
    assert groups[1..] == rest.groups;
  }

  lemma {:induction false} OnlyGroups(tokens: seq<string>)
    requires ParseGroups(tokens, false).Some?
    ensures AreGroups(tokens)
  {
    if tokens == [] {
    } else {
      OnlyGroups(tokens[1..]);
    }
  }

  lemma OctetSpelling(s: string)
    requires IsOctet(s)
    ensures s == Render(Value(s, 10), 10)
  {
    RenderOfValue(s, 10);
  }

  /** A dotted quad has one spelling. */
  lemma V4Spelling(s: string, o: Octets)
    ensures ParseV4(s) == Some(o) <==> s == PrintV4(o)
  {
    ParsePrintV4(o);
    if ParseV4(s) == Some(o) {
      V4Text(s);
    }
  }

  lemma V4Text(s: string)
    requires ParseV4(s).Some?
    ensures s == PrintV4(ParseV4(s).value)
  {
    var parts, o := Split(s, '.'), ParseV4(s).value;
    JoinSplit(s, '.');
    OctetSpelling(parts[0]);
    OctetSpelling(parts[1]);
    OctetSpelling(parts[2]);
    OctetSpelling(parts[3]);
    assert parts == [Render(o[0], 10), Render(o[1], 10), Render(o[2], 10), Render(o[3], 10)];
  }

  /** What one group may be written as, by the characters. */
  lemma GroupSpelling(s: string)
    ensures IsGroup(s) <==> 1 <= |s| <= 4
                            && forall c :: c in s ==> '0' <= c <= '9' || 'a' <= c <= 'f' || 'A' <= c <= 'F'
  {
  }

  /** A dotted quad, in full: four decimal numbers with no leading zero. */
  lemma QuadText(o: Octets)
    ensures PrintV4(o) == Render(o[0], 10) + "." + Render(o[1], 10) + "." + Render(o[2], 10) + "." + Render(o[3], 10)
  {
    var parts := [Render(o[0], 10), Render(o[1], 10), Render(o[2], 10), Render(o[3], 10)];
    var three, two, one := parts[1..], parts[2..], parts[3..];
    assert three[1..] == two && two[1..] == one && Join(one, '.') == parts[3];
    assert Join(two, '.') == parts[2] + "." + parts[3];
    assert Join(three, '.') == parts[1] + "." + (parts[2] + "." + parts[3]);
    assert PrintV4(o) == parts[0] + "." + (parts[1] + "." + (parts[2] + "." + parts[3]));
  }

  // ----- the canonical form, by the groups -----

  predicate IsZeroRun(g: seq<u16>, i: nat, n: nat) {
    i + n <= |g| && forall j :: i <= j < i + n ==> g[j] == 0
  }

  ghost predicate NoRun(g: seq<u16>, n: nat, end: nat) {
    forall i: nat :: i < end ==> !IsZeroRun(g, i, n)
  }

  /** The longest run of two or more zero groups, and the first of that length. */
  ghost predicate IsGap(g: seq<u16>, start: nat, len: nat) {
    len >= 2 && IsZeroRun(g, start, len) && NoRun(g, len + 1, |g|) && NoRun(g, len, start)
  }

  lemma RunsAreBounded(g: seq<u16>, i: nat, n: nat)
    requires i <= |g|
    ensures IsZeroRun(g, i, n) <==> n <= ZerosAt(g, i)
  {
    if n > ZerosAt(g, i) && i + n <= |g| {
      assert g[i + ZerosAt(g, i)] != 0;
    }
  }

  lemma LongestIsGap(g: Groups)
    requires IsCompressed(g)
    ensures var span := LongestZeros(g, 0); IsGap(g, span.start, span.len)
  {
    var span := LongestZeros(g, 0);
    RunsAreBounded(g, span.start, span.len);
    var longer := span.len + 1;
    forall i: nat | i < |g|
      ensures !IsZeroRun(g, i, longer)
    {
      RunsAreBounded(g, i, longer);
    }
    forall i: nat | i < span.start
      ensures !IsZeroRun(g, i, span.len)
    {
      RunsAreBounded(g, i, span.len);
    }
    assert NoRun(g, longer, |g|);
  }

  lemma GapIsLongest(g: Groups, start: nat, len: nat)
    requires IsGap(g, start, len)
    ensures LongestZeros(g, 0) == Span(start, len)
  {
    var span := LongestZeros(g, 0);
    RunsAreBounded(g, start, len);
    RunsAreBounded(g, span.start, len + 1);
    RunsAreBounded(g, span.start, len);
    assert span.start < |g|;
    assert span.len == len;
  }

  /** The groups written out: each in hexadecimal, with a colon between any two. */
  lemma GroupsText(g: seq<u16>, h: seq<u16>)
    ensures PrintTokens(HexTokens([])) == ""
    ensures |g| == 1 ==> PrintTokens(HexTokens(g)) == Render(g[0], 16)
    ensures g != [] && h != [] ==>
              PrintTokens(HexTokens(g + h)) == PrintTokens(HexTokens(g)) + ":" + PrintTokens(HexTokens(h))
    decreases g
  {
    if g == [] || h == [] {
    } else if |g| == 1 {
      assert g[1..] == [] && (g + h)[1..] == h && (g + h)[0] == g[0];
      assert HexTokens(g) == [Render(g[0], 16)] && HexTokens(g + h)[1..] == HexTokens(h);
    } else {
      GroupsText(g[1..], h);
      assert (g + h)[1..] == g[1..] + h;
      assert HexTokens(g)[1..] == HexTokens(g[1..]) && HexTokens(g + h)[1..] == HexTokens(g[1..] + h);
      var first, rest, tail := Render(g[0], 16), PrintTokens(HexTokens(g[1..])), PrintTokens(HexTokens(h));
      assert first + [':'] + (rest + ":" + tail) == first + [':'] + rest + ":" + tail;
    }
  }

  /** An IPv4-mapped address ends in its dotted quad. */
  lemma MappedForm(g: Groups)
    requires (forall j :: 0 <= j < 5 ==> g[j] == 0) && g[5] == 0xffff
    ensures PrintV6(g) == "::ffff:" + PrintV4([g[6] / 256, g[6] % 256, g[7] / 256, g[7] % 256])
  {
    assert g[..5] == [0, 0, 0, 0, 0];
    PrintPair("ffff", PrintV4(MappedOctets(g)));
  }

  /** In any other, the first of the longest runs of two or more zero groups becomes `::`. */
  lemma GappedForm(g: Groups, start: nat, len: nat)
    requires IsGap(g, start, len) && !((forall j :: 0 <= j < 5 ==> g[j] == 0) && g[5] == 0xffff)
    ensures PrintV6(g) == PrintTokens(HexTokens(g[..start])) + "::" + PrintTokens(HexTokens(g[start + len..]))
  {
    NotMapped(g);
    GapIsLongest(g, start, len);
  }

  lemma NotMapped(g: Groups)
    requires !((forall j :: 0 <= j < 5 ==> g[j] == 0) && g[5] == 0xffff)
    ensures !IsMapped(g)
  {
    assert forall j :: 0 <= j < 5 ==> g[..5][j] == g[j];
  }

  lemma MappedHasRun(g: Groups)
    ensures IsMapped(g) ==> IsZeroRun(g, 0, 2)
  {
    assert g[..5][0] == g[0] && g[..5][1] == g[1];
  }

  /** And without such a run all eight groups are written. A run of two has a longest. */
  lemma PlainForm(g: Groups)
    ensures if NoRun(g, 2, 8)
            then PrintV6(g) == PrintTokens(HexTokens(g))
            else exists start: nat, len: nat :: IsGap(g, start, len)
  {
    var span := LongestZeros(g, 0);
    if IsCompressed(g) {
      LongestIsGap(g);
      RunsAreBounded(g, span.start, 2);
    } else {
      forall i: nat | i < 8
        ensures !IsZeroRun(g, i, 2)
      {
        RunsAreBounded(g, i, 2);
      }
      MappedHasRun(g);
    }
  }

  /** The text spells the address with no gap: eight groups, or six and a dotted quad. */
  ghost predicate SpellsWhole(s: string, g: Groups) {
    exists half: Half :: AreGroups(half.groups) && s == PrintTokens(HalfTokens(half)) && g == HalfValue(half)
  }

  /** Or with one gap, which stands for at least one zero group. */
  ghost predicate SpellsGapped(s: string, g: Groups) {
    exists head: seq<string>, half: Half ::
      && AreGroups(head) && AreGroups(half.groups)
      && s == PrintTokens(head) + "::" + PrintTokens(HalfTokens(half))
      && |head| + |HalfValue(half)| <= 7
      && g == Values(head) + Zeros(8 - |head| - |HalfValue(half)|) + HalfValue(half)
  }

  lemma WholeIsRead(half: Half)
    requires AreGroups(half.groups) && |HalfValue(half)| == 8
    ensures ParseIp(PrintTokens(HalfTokens(half))) == Some(V6(HalfValue(half)))
  {
    var tokens := HalfTokens(half);
    HalfIsRead(half);
    ReadUncompressed(tokens);
    assert PrintTokens(tokens) == tokens[0] + [':'] + Join(tokens[1..], ':');
    NoV4WithColon(PrintTokens(tokens), |tokens[0]|);
  }

  lemma GappedIsRead(head: seq<string>, half: Half)
    requires AreGroups(head) && AreGroups(half.groups)
    ensures var g := Fill(Values(head), Some(HalfValue(half)));
            ParseIp(PrintTokens(head) + "::" + PrintTokens(HalfTokens(half)))
            == if g.Some? then Some(V6(g.value)) else None
  {
    GroupsAreRead(head, false);
    HalfIsRead(half);
    ReadGap(head, HalfTokens(half));
    NoV4WithColon(PrintTokens(head) + "::" + PrintTokens(HalfTokens(half)), |PrintTokens(head)|);
  }

  lemma TextOfTokens(s: string)
    ensures PrintTokens(Tokens(s)) == s
  {
    JoinSplit(s, ':');
  }

  lemma SpellingOf(s: string, g: Groups)
    requires ParseV6(s) == Some(g)
    ensures SpellsWhole(s, g) || SpellsGapped(s, g)
  {
    var (before, after) := SplitGap(s);
    GapChars(s);
    TextOfTokens(before);
    match after
    case None =>
      var half := HalfOf(Tokens(before));
      assert s == PrintTokens(HalfTokens(half)) && g == HalfValue(half);
    case Some(text) =>
      TextOfTokens(text);
      OnlyGroups(Tokens(before));
      GroupsAreRead(Tokens(before), false);
      var half := HalfOf(Tokens(text));
      assert AreGroups(Tokens(before)) && s == PrintTokens(Tokens(before)) + "::" + PrintTokens(HalfTokens(half));
  }

  lemma SpellingIsRead(s: string, g: Groups)
    requires SpellsWhole(s, g) || SpellsGapped(s, g)
    ensures ParseIp(s) == Some(V6(g))
  {
    if SpellsWhole(s, g) {
      var half: Half :| AreGroups(half.groups) && s == PrintTokens(HalfTokens(half)) && g == HalfValue(half);
      WholeIsRead(half);
    } else {
      var head: seq<string>, half: Half :|
        && AreGroups(head) && AreGroups(half.groups)
        && s == PrintTokens(head) + "::" + PrintTokens(HalfTokens(half))
        && |head| + |HalfValue(half)| <= 7
        && g == Values(head) + Zeros(8 - |head| - |HalfValue(half)|) + HalfValue(half);
      GappedIsRead(head, half);
    }
  }

  /**
    Exactly which texts are accepted, and for which address: the one text of an IPv4 address, or groups
    in any case with any leading zeros, one gap or none, the last two perhaps as a dotted quad.
   */
  lemma AcceptedSpellings(s: string, ip: IpAddr)
    ensures ParseIp(s) == Some(ip)
       <==> match ip
            case V4(o) => s == PrintV4(o)
            case V6(g) => SpellsWhole(s, g) || SpellsGapped(s, g)
  {
    match ip {
      case V4(o) => V4Spelling(s, o);
      case V6(g) =>
        if SpellsWhole(s, g) || SpellsGapped(s, g) {
          SpellingIsRead(s, g);
        } else if ParseIp(s) == Some(ip) {
          SpellingOf(s, g);
        }
    }
  }

  /** No bracket, zone, prefix length, letter past `f` or space is part of an accepted literal. */
  lemma AcceptedChars(s: string)
    requires ParseIp(s).Some?
    ensures s != "" && forall c :: c in s ==> IsAddressChar(c) && !IsWhitespace(c)
  {
    if ParseV4(s).Some? {
      V4Chars(s);
    } else {
      var (before, after) := SplitGap(s);
      GapChars(s);
      if after.Some? {
        TokenTextChars(before, false);
        TokenTextChars(after.value, true);
      } else {
        TokenTextChars(before, true);
        assert ParseGroups(Tokens(""), true) == Some([]);
      }
    }
  }

  lemma TrimOfLiteral(s: string)
    requires s != "" && forall c :: c in s ==> !IsWhitespace(c)
    ensures Trim(s) == s
  {
    assert s[0] in s && s[|s| - 1] in s;
  }

  // ----- the canonical form -----

  lemma CanonicalText(ip: IpAddr)
    ensures Trim(Print(ip)) == Print(ip) && ParseIp(Trim(Print(ip))) == Some(ip)
  {
    ParsePrint(ip);
    AcceptedChars(Print(ip));
    TrimOfLiteral(Print(ip));
  }

  /** Which texts are accepted, and as what key: an address with any whitespace around it. */
  lemma CanonicalAccepts(raw: string, ip: IpAddr)
    ensures CanonicalPeerIp(raw) == Ok(Print(ip)) <==> exists text :: Pads(raw, text) && ParseIp(text) == Some(ip)
    ensures CanonicalPeerIp(raw).Err? ==>
              && (forall text :: Pads(raw, text) ==> ParseIp(text) == None)
              && CanonicalPeerIp(raw).error.code == InvalidParams
  {
    TrimMeaning(raw, Trim(raw));
    forall text | Pads(raw, text) && ParseIp(text).Some?
      ensures text == Trim(raw)
    {
      AcceptedChars(text);
      assert text[0] in text && text[|text| - 1] in text;
      TrimMeaning(raw, text);
    }
    if CanonicalPeerIp(raw) == Ok(Print(ip)) {
      ParsePrint(ip);
      ParsePrint(ParseIp(Trim(raw)).value);
    }
  }

  lemma CanonicalIsIdempotent(raw: string)
    requires CanonicalPeerIp(raw).Ok?
    ensures CanonicalPeerIp(CanonicalPeerIp(raw).value) == CanonicalPeerIp(raw)
  {
    CanonicalText(ParseIp(Trim(raw)).value);
  }

  /** Two spellings give one key exactly when they denote one address. */
  lemma OneKeyPerAddress(a: string, b: string)
    requires CanonicalPeerIp(a).Ok? && CanonicalPeerIp(b).Ok?
    ensures CanonicalPeerIp(a) == CanonicalPeerIp(b) <==> ParseIp(Trim(a)) == ParseIp(Trim(b))
  {
    ParsePrint(ParseIp(Trim(a)).value);
    ParsePrint(ParseIp(Trim(b)).value);
  }

  // ----- the endpoint -----

  lemma PortText(port: u16)
    ensures var s := Render(port, 10);
            s != "" && (forall c :: c in s ==> '0' <= c <= '9') && IsToken(s) && ParseV4(s).None?
    ensures IsGroup(Render(port, 10)) <==> port < 10000
  {
    var s := Render(port, 10);
    ValueOfRender(port, 10);
    DecimalChars(s);
    assert Pow(10, 0) == 1 && Pow(10, 1) == 10 && Pow(10, 2) == 100 && Pow(10, 3) == 1000 && Pow(10, 4) == 10000;
    RenderLength(port, 10, 4);
    if ParseV4(s).Some? {
      V4Chars(s);
    }
  }

  lemma V4HasNoColon(o: Octets)
    ensures ':' !in PrintV4(o)
  {
    ParsePrintV4(o);
  }

  /**
    The endpoint, in full: the canonical key, in brackets when it is an IPv6 one, which is when it has a
    colon in it; any other text as it stands.
   */
  lemma EndpointText(ip: string, port: u16)
    ensures ChiaPeerEndpoint(ip, port)
         == match CanonicalPeerIp(ip)
            case Ok(key) => (if ':' in key then "[" + key + "]" else key) + ":" + Render(port, 10)
            case Err(_) => ip + ":" + Render(port, 10)
    ensures CanonicalPeerIp(ip).Ok? ==> (':' in CanonicalPeerIp(ip).value <==> ParseIp(Trim(ip)).value.V6?)
  {
    match ParseIp(Trim(ip))
    case Some(V4(o)) => V4HasNoColon(o);
    case Some(V6(g)) => V6HasColon(g);
    case None =>
  }

  /** An endpoint determines its host text and its port. */
  lemma EndpointParts(x: string, p: u16, y: string, q: u16)
    ensures ChiaPeerEndpoint(x, p) == ChiaPeerEndpoint(y, q) <==> Host(x) == Host(y) && p == q
  {
    PortText(p);
    PortText(q);
    RSplitOnceFinds(Host(x), Render(p, 10), ':');
    RSplitOnceFinds(Host(y), Render(q, 10), ':');
    if Render(p, 10) == Render(q, 10) {
      RenderInjective(p, q, 10);
    }
  }

  lemma HostsOfAddresses(a: string, b: string)
    requires ParseIp(Trim(a)).Some? && ParseIp(Trim(b)).Some?
    ensures Host(a) == Host(b) <==> ParseIp(Trim(a)) == ParseIp(Trim(b))
  {
    var x, y := ParseIp(Trim(a)).value, ParseIp(Trim(b)).value;
    ParsePrint(x);
    ParsePrint(y);
    if x.V4? {
      ParsePrintV4(x.octets);
    }
    if y.V4? {
      ParsePrintV4(y.octets);
    }
    if x.V6? && y.V6? && Host(a) == Host(b) {
      assert Host(a)[1..|Host(a)| - 1] == PrintV6(x.groups);
      assert Host(b)[1..|Host(b)| - 1] == PrintV6(y.groups);
    }
  }

  /** Two accepted spellings and two ports give one endpoint exactly when address and port agree. */
  lemma EndpointInjective(a: string, p: u16, b: string, q: u16)
    requires CanonicalPeerIp(a).Ok? && CanonicalPeerIp(b).Ok?
    ensures ChiaPeerEndpoint(a, p) == ChiaPeerEndpoint(b, q)
       <==> CanonicalPeerIp(a) == CanonicalPeerIp(b) && p == q
  {
    EndpointParts(a, p, b, q);
    HostsOfAddresses(a, b);
    OneKeyPerAddress(a, b);
  }

  // ----- joining by hand -----

  /** `{ip}:{port}`, which `chia_peer_endpoint` exists to replace. */
  function NaiveJoin(ip: IpAddr, port: u16): string {
    Print(ip) + ":" + Render(port, 10)
  }

  lemma {:induction false} PrintSnoc(tokens: seq<string>, last: string)
    requires tokens != []
    ensures PrintTokens(tokens) + ":" + last == PrintTokens(tokens + [last])
  {
    assert (tokens + [last])[1..] == tokens[1..] + [last];
    if |tokens| == 1 {
      assert (tokens + [last])[1..] == [last] && Join([last], ':') == last;
    } else {
      PrintSnoc(tokens[1..], last);
      assert tokens[0] + ":" + (PrintTokens(tokens[1..]) + ":" + last)
          == tokens[0] + ":" + PrintTokens(tokens[1..]) + ":" + last;
    }
  }

  lemma Regroup(before: string, after: string, port: string)
    ensures before + "::" + after + ":" + port == before + "::" + (after + ":" + port)
    ensures before + "::" + ":" + port == before + GapText(Some(":" + port))
  {
  }

  /** Reading one decimal port as a last group. */
  function PortGroup(port: u16): (group: Option<seq<u16>>)
    ensures group.Some? ==> |group.value| == 1
    ensures group.Some? <==> port < 10000
  {
    PortText(port);
    if port < 10000 then Some([GroupValue(Render(port, 10))]) else None
  }

  lemma ReadPort(port: u16)
    ensures ParseGroups([Render(port, 10)], true) == PortGroup(port)
  {
    PortText(port);
    var tokens := [Render(port, 10)];
    assert tokens[1..] == [] && ParseGroups([], true) == Some([]);
    if port < 10000 {
      assert [GroupValue(Render(port, 10))] + [] == [GroupValue(Render(port, 10))];
    }
  }

  lemma QuadIsNoGroup(o: Octets, last: string)
    ensures ParseGroups([PrintV4(o), last], true) == None
  {
    ParsePrintV4(o);
    assert DigitValue('.') == 16;
  }

  lemma NoV4WithColon(s: string, i: nat)
    requires i < |s| && s[i] == ':'
    ensures ParseV4(s) == None
  {
    assert s[i] in s;
    if ParseV4(s).Some? {
      V4Chars(s);
    }
  }

  lemma JoinedV4(o: Octets, port: u16)
    ensures ParseIp(NaiveJoin(V4(o), port)) == None
  {
    var p := Render(port, 10);
    PortText(port);
    QuadIsLast(o);
    PrintSnoc([PrintV4(o)], p);
    ReadUncompressed([PrintV4(o), p]);
    assert [PrintV4(o)] + [p] == [PrintV4(o), p];
    QuadIsNoGroup(o, p);
    NoV4WithColon(NaiveJoin(V4(o), port), |PrintV4(o)|);
  }

  lemma JoinedMapped(o: Octets, port: u16)
    ensures ParseV6("::" + PrintTokens(["ffff", PrintV4(o)]) + ":" + Render(port, 10)) == None
  {
    var p, quad := Render(port, 10), PrintV4(o);
    var tokens := ["ffff", quad, p];
    PortText(port);
    QuadIsLast(o);
    FfffIsGroup();
    GroupIsToken("ffff");
    PrintSnoc(["ffff", quad], p);
    assert ["ffff", quad] + [p] == tokens && tokens[1..] == [quad, p];
    QuadIsNoGroup(o, p);
    ReadCompressed([], tokens);
    Regroup("", PrintTokens(["ffff", quad]), p);
    assert "" + "::" == "::";
  }

  lemma JoinedPlain(g: Groups, port: u16)
    ensures ParseV6(PrintTokens(HexTokens(g)) + ":" + Render(port, 10)) == None
  {
    var p := Render(port, 10);
    PortText(port);
    HexTokensAreTokens(g);
    PrintSnoc(HexTokens(g), p);
    ReadUncompressed(HexTokens(g) + [p]);
    ReadPort(port);
    GroupsThenMore(g, [p], true);
  }

  lemma JoinedAtGap(head: seq<u16>, port: u16)
    ensures ParseV6(PrintTokens(HexTokens(head)) + "::" + ":" + Render(port, 10)) == None
  {
    var before, rest := PrintTokens(HexTokens(head)), ":" + Render(port, 10);
    HexTokensAreTokens(head);
    GapAfterTokens(HexTokens(head), Some(rest));
    Regroup(before, "", Render(port, 10));
    assert Tokens(rest)[0] == "" && |Tokens(rest)| > 1;
  }

  lemma JoinedTail(head: seq<u16>, tail: seq<u16>, port: u16)
    requires tail != []
    ensures ParseV6(PrintTokens(HexTokens(head)) + "::" + PrintTokens(HexTokens(tail)) + ":" + Render(port, 10))
         == match PortGroup(port)
            case Some(v) => Fill(head, Some(tail + v))
            case None => None
  {
    var p := Render(port, 10);
    PortText(port);
    HexTokensAreTokens(tail);
    PrintSnoc(HexTokens(tail), p);
    Regroup(PrintTokens(HexTokens(head)), PrintTokens(HexTokens(tail)), p);
    ReadPort(port);
    GroupsThenMore(tail, [p], true);
    ReadCompressed(head, HexTokens(tail) + [p]);
  }

  /** One more group after the gap moves the first group behind it, which is not zero, into the gap. */
  lemma ShiftedTailDiffers(g: Groups, v: u16)
    requires IsCompressed(g) && Tail(g) != []
    ensures var other := Fill(Head(g), Some(Tail(g) + [v])); other.Some? && other.value != g
  {
    GapStandsForZeros(g);
    var h, t := |Head(g)|, |Tail(g)|;
    var other := Fill(Head(g), Some(Tail(g) + [v])).value;
    assert other == Head(g) + Zeros(7 - h - t) + (Tail(g) + [v]);
    assert other[7 - t] == Tail(g)[0] != 0;
    assert g[7 - t] == 0;
  }

  predicate IsRetargetable(ip: IpAddr, port: u16) {
    ip.V6? && !IsMapped(ip.groups) && IsCompressed(ip.groups) && Tail(ip.groups) != [] && port < 10000
  }

  lemma JoinedV6(g: Groups, port: u16)
    ensures ParseV6(NaiveJoin(V6(g), port)).Some? <==> IsRetargetable(V6(g), port)
    ensures ParseV6(NaiveJoin(V6(g), port)) != Some(g)
  {
    if IsMapped(g) {
      JoinedMapped(MappedOctets(g), port);
    } else if !IsCompressed(g) {
      JoinedPlain(g, port);
    } else if Tail(g) == [] {
      JoinedAtGap(Head(g), port);
      assert PrintTokens(HexTokens(Head(g))) + "::" + "" == PrintTokens(HexTokens(Head(g))) + "::";
    } else {
      JoinedTail(Head(g), Tail(g), port);
      if port < 10000 {
        ShiftedTailDiffers(g, PortGroup(port).value[0]);
      }
    }
  }

  /**
    Exactly when an address and port joined by hand are themselves an address. Whenever they are, they
    are some other address: the mistake is never harmless.
   */
  lemma NaiveJoinRetargets(ip: IpAddr, port: u16)
    ensures ParseIp(NaiveJoin(ip, port)).Some? <==> IsRetargetable(ip, port)
    ensures ParseIp(NaiveJoin(ip, port)) != Some(ip)
  {
    NoV4WithColon(NaiveJoin(ip, port), |Print(ip)|);
    match ip {
      case V4(o) => JoinedV4(o, port);
      case V6(g) => JoinedV6(g, port);
    }
  }

  /** An address that starts with most of its groups zero: how it prints, and what the hand-made join reads as. */
  lemma LeadingZeros(g: Groups, n: nat)
    requires 5 <= n <= 8 && (forall j :: 0 <= j < n ==> g[j] == 0) && (n < 8 ==> g[n] != 0)
    requires !IsMapped(g)
    ensures IsCompressed(g) && Head(g) == [] && Tail(g) == g[n..]
    ensures PrintV6(g) == "::" + PrintTokens(HexTokens(g[n..]))
  {
    LeadingSpan(g, n);
    TextFromGap(g, n);
  }

  lemma TextFromGap(g: Groups, n: nat)
    requires LongestZeros(g, 0) == Span(0, n) && n > 1 && !IsMapped(g)
    ensures IsCompressed(g) && Head(g) == [] && Tail(g) == g[n..]
    ensures PrintV6(g) == "::" + PrintTokens(HexTokens(g[n..]))
  {
    assert Head(g) == [];
    NothingBeforeGap(PrintTokens(HexTokens(Tail(g))));
  }

  lemma NothingBeforeGap(text: string)
    ensures PrintTokens(HexTokens([])) + "::" + text == "::" + text
  {
    assert "" + "::" == "::";
  }

  lemma LeadingSpan(g: Groups, n: nat)
    requires 5 <= n <= 8 && (forall j :: 0 <= j < n ==> g[j] == 0) && (n < 8 ==> g[n] != 0)
    ensures LongestZeros(g, 0) == Span(0, n)
  {
    var span := LongestZeros(g, 0);
    assert ZerosAt(g, 0) == n;
    assert span.start == 0 && span.len == n;
  }

  lemma LeadingZerosJoined(g: Groups, n: nat, port: u16)
    requires 5 <= n < 8 && (forall j :: 0 <= j < n ==> g[j] == 0) && g[n] != 0
    requires !IsMapped(g) && port < 10000
    ensures ParseIp(NaiveJoin(V6(g), port)) == Some(V6(g[1..] + PortGroup(port).value))
  {
    LeadingZeros(g, n);
    JoinedTail([], g[n..], port);
    var v := PortGroup(port).value[0];
    ShiftedFill(g, n, v);
    assert [v] == PortGroup(port).value;
    assert "" + "::" == "::";
    NoV4WithColon(NaiveJoin(V6(g), port), 0);
  }

  lemma ShiftedFill(g: Groups, n: nat, v: u16)
    requires 2 <= n < 8 && (forall j :: 0 <= j < n ==> g[j] == 0)
    ensures Fill([], Some(g[n..] + [v])) == Some(g[1..] + [v])
  {
    assert [] + Zeros(n - 1) + (g[n..] + [v]) == g[1..] + [v];
  }

  lemma LastGroupText(g: Groups)
    requires (forall j :: 0 <= j < 7 ==> g[j] == 0) && g[7] != 0
    ensures PrintV6(g) == "::" + Render(g[7], 16)
  {
    LeadingZeros(g, 7);
    var tail := g[7..];
    assert |tail| == 1 && tail[0] == g[7] && tail[1..] == [];
    assert HexTokens(tail) == [Render(g[7], 16)];
  }

  lemma ChiaPortText()
    ensures Render(8444, 10) == "8444" && PortGroup(8444) == Some([0x8444])
  {
    assert "8444"[..3] == "844" && "844"[..2] == "84" && "84"[..1] == "8" && "8"[..0] == "";
    assert Value("8", 10) == 8 && Value("84", 10) == 84 && Value("844", 10) == 844 && Value("8444", 10) == 8444;
    assert Value("8", 16) == 8 && Value("84", 16) == 0x84 && Value("844", 16) == 0x844;
    RenderOfValue("8444", 10);
  }

  /** The contract's own example: `::1` and 8444 joined by hand are the address `::1:8444`. */
  lemma LoopbackJoinRetargets(loopback: Groups, port: u16)
    requires loopback == [0, 0, 0, 0, 0, 0, 0, 1] && port == 8444
    ensures NaiveJoin(V6(loopback), port) == "::1:8444"
    ensures ParseIp(NaiveJoin(V6(loopback), port)) == Some(V6([0, 0, 0, 0, 0, 0, 1, 0x8444]))
  {
    ChiaPortText();
    LastGroupText(loopback);
    LeadingZerosJoined(loopback, 7, port);
    assert loopback[1..] + [0x8444] == [0, 0, 0, 0, 0, 0, 1, 0x8444];
  }

  /** And one that ends in its gap: `::` and 8444 joined by hand are no address. */
  lemma UnspecifiedJoinIsNoAddress(unspecified: Groups, port: u16)
    requires unspecified == Zeros(8) && port == 8444
    ensures NaiveJoin(V6(unspecified), port) == ":::8444"
    ensures ParseIp(NaiveJoin(V6(unspecified), port)) == None
  {
    ChiaPortText();
    LeadingZeros(unspecified, 8);
    NaiveJoinRetargets(V6(unspecified), port);
  }

  /** An endpoint made the sanctioned way is never itself an address. */
  lemma EndpointIsNoAddress(ip: string, port: u16)
    requires CanonicalPeerIp(ip).Ok?
    ensures ParseIp(ChiaPeerEndpoint(ip, port)) == None
  {
    var endpoint := ChiaPeerEndpoint(ip, port);
    match ParseIp(Trim(ip)).value {
      case V4(o) => JoinedV4(o, port);
      case V6(g) => BracketedIsNoAddress(endpoint);
    }
  }

  lemma BracketedIsNoAddress(s: string)
    requires s != "" && s[0] == '['
    ensures ParseIp(s) == None
  {
    assert s[0] in s;
    if ParseIp(s).Some? {
      AcceptedChars(s);
    }
  }

  // ----- how long a key can be -----

  lemma {:induction false} HexTokensLength(g: seq<u16>)
    ensures |PrintTokens(HexTokens(g))| <= if g == [] then 0 else 5 * |g| - 1
  {
    if g == [] {
    } else {
      HexTokensLength(g[1..]);
      HexToken(g[0]);
      if |g| > 1 {
        assert PrintTokens(HexTokens(g)) == Render(g[0], 16) + ":" + PrintTokens(HexTokens(g[1..]));
      }
    }
  }

  lemma OctetLength(n: byte)
    ensures |Render(n, 10)| <= 3
  {
    assert Pow(10, 0) == 1 && Pow(10, 1) == 10 && Pow(10, 2) == 100 && Pow(10, 3) == 1000;
    RenderLength(n, 10, 3);
  }

  lemma V4Length(o: Octets)
    ensures |PrintV4(o)| <= 15
  {
    OctetLength(o[0]);
    OctetLength(o[1]);
    OctetLength(o[2]);
    OctetLength(o[3]);
    var parts := [Render(o[0], 10), Render(o[1], 10), Render(o[2], 10), Render(o[3], 10)];
    assert |Join(parts[3..], '.')| == |parts[3]|;
    assert parts[2..][1..] == parts[3..] && parts[1..][1..] == parts[2..];
    assert |Join(parts[2..], '.')| <= 7;
    assert |Join(parts[1..], '.')| <= 11;
  }

  lemma PrintPair(first: string, second: string)
    ensures PrintTokens([first, second]) == first + ":" + second
  {
    var tokens := [first, second];
    assert tokens[1..] == [second] && Join([second], ':') == second;
    assert Join(tokens, ':') == first + [':'] + Join(tokens[1..], ':');
  }

  /** What an accepted key costs to store, however long its spelling was. */
  lemma KeyIsBounded(raw: string)
    requires CanonicalPeerIp(raw).Ok?
    ensures |CanonicalPeerIp(raw).value| <= 39
  {
    match ParseIp(Trim(raw)).value {
      case V4(o) => V4Length(o);
      case V6(g) =>
        if IsMapped(g) {
          V4Length(MappedOctets(g));
          PrintPair("ffff", PrintV4(MappedOctets(g)));
          assert PrintV6(g) == "::" + ("ffff" + ":" + PrintV4(MappedOctets(g)));
        } else if IsCompressed(g) {
          GapStandsForZeros(g);
          HexTokensLength(Head(g));
          HexTokensLength(Tail(g));
        } else {
          HexTokensLength(g);
        }
    }
  }

  lemma BracketedIsNoLiteral(text: string)
    ensures Host("[" + text + "]") == "[" + text + "]"
    ensures CanonicalPeerIp("[" + text + "]").Err?
  {
    var ip := "[" + text + "]";
    assert ip[0] == '[' && ip[|ip| - 1] == ']';
    assert Trim(ip) == ip;
    assert ip[0] in ip;
    if ParseIp(ip).Some? {
      AcceptedChars(ip);
    }
  }

  /** Text that is no literal is joined as it stands, so it can spell another peer's endpoint. */
  lemma UnparsedTextCanCollide(ip: string, port: u16)
    requires CanonicalPeerIp(ip).Ok? && ParseIp(Trim(ip)).value.V6?
    ensures var bracketed := "[" + CanonicalPeerIp(ip).value + "]";
            CanonicalPeerIp(bracketed).Err? && ChiaPeerEndpoint(bracketed, port) == ChiaPeerEndpoint(ip, port)
  {
    BracketedIsNoLiteral(CanonicalPeerIp(ip).value);
  }
}
