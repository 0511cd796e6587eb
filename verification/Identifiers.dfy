/**
  Hex identifiers: the normalisation every id field goes through, the asset-id codec, and the order
  a paged read names its cursors by. Strings are UTF-8 bytes here: a length is a byte count.
 */
module Identifiers {
  import opened Wrappers
  import opened Text
  import opened Numerals

  const COIN_ID_HEX_LEN: nat := 64
  const ASSET_ID_HEX_LEN: nat := 64
  const PUBLIC_KEY_HEX_LEN: nat := 96

  /** `strip_prefix("0x")`, or the text itself: at most one prefix goes. */
  function Strip0x(s: string): string {
    if "0x" <= s then s[2..] else s
  }

  predicate IsLowerHex(c: char) {
    '0' <= c <= '9' || 'a' <= c <= 'f'
  }

  /** An id in its one canonical spelling. */
  predicate IsHexId(s: string, len: nat) {
    |s| == len && forall c :: c in s ==> IsLowerHex(c)
  }

  /** `normalize_coin_id` at length 64 and `normalize_public_key` at length 96. */
  function Normalize(s: string, len: nat): Option<string> {
    var body := Strip0x(s);
    if IsHexId(body, len) then Some(body) else None
  }

  /** Exactly two spellings of each id are accepted, and both give the canonical one. */
  lemma NormalizeAccepts(s: string, len: nat, id: string)
    ensures Normalize(s, len) == Some(id) <==> IsHexId(id, len) && (s == id || s == "0x" + id)
  {
    if IsHexId(id, len) && s == id {
      assert |s| >= 2 ==> s[1] in id;
      assert !("0x" <= s);
    }
    if s == "0x" + id {
      assert s[2..] == id;
    }
    if "0x" <= s {
      assert s == "0x" + s[2..];
    }
  }

  lemma NormalizeIdempotent(s: string, len: nat)
    requires Normalize(s, len).Some?
    ensures var id := Normalize(s, len).value;
            IsHexId(id, len) && Normalize(id, len) == Some(id) && Normalize("0x" + id, len) == Some(id)
  {
    var id := Normalize(s, len).value;
    NormalizeAccepts(id, len, id);
    NormalizeAccepts("0x" + id, len, id);
  }

  // ----- bytes as hex -----

  type AssetId = bytes: seq<byte> | |bytes| == 32 witness seq(32, _ => 0)

  function EncodeByte(b: byte): string {
    [DigitChar(b / 16), DigitChar(b % 16)]
  }

  function EncodeHex(bytes: seq<byte>): (s: string)
    ensures |s| == 2 * |bytes|
  {
    if bytes == [] then "" else EncodeHex(bytes[..|bytes| - 1]) + EncodeByte(bytes[|bytes| - 1])
  }

  function DecodePair(hi: char, lo: char): byte
    requires DigitValue(hi) < 16 && DigitValue(lo) < 16
  {
    DigitValue(hi) * 16 + DigitValue(lo)
  }

  function DecodeHex(s: string): (bytes: seq<byte>)
    requires |s| % 2 == 0 && IsDigits(s, 16)
    ensures 2 * |bytes| == |s|
  {
    if s == "" then [] else
      var n := |s|;
      assert s[n - 2] in s && s[n - 1] in s;
      DecodeHex(s[..n - 2]) + [DecodePair(s[n - 2], s[n - 1])]
  }

  function LowerChar(c: char): char {
    if 'A' <= c <= 'Z' then c + ' ' else c
  }

  function Lower(s: string): string {
    seq(|s|, i requires 0 <= i < |s| => LowerChar(s[i]))
  }

  lemma DigitRoundTrip(d: nat)
    requires d < 16
    ensures DigitValue(DigitChar(d)) == d && IsLowerHex(DigitChar(d))
  {
  }

  lemma DigitLower(c: char)
    requires DigitValue(c) < 16
    ensures DigitChar(DigitValue(c)) == LowerChar(c)
  {
  }

  lemma PairRoundTrip(b: byte)
    ensures DigitValue(EncodeByte(b)[0]) < 16 && DigitValue(EncodeByte(b)[1]) < 16
    ensures IsLowerHex(EncodeByte(b)[0]) && IsLowerHex(EncodeByte(b)[1])
    ensures DecodePair(EncodeByte(b)[0], EncodeByte(b)[1]) == b
  {
    DigitRoundTrip(b / 16);
    DigitRoundTrip(b % 16);
  }

  lemma PairLower(hi: char, lo: char)
    requires DigitValue(hi) < 16 && DigitValue(lo) < 16
    ensures EncodeByte(DecodePair(hi, lo)) == [LowerChar(hi), LowerChar(lo)]
  {
    var b := DecodePair(hi, lo);
    assert b / 16 == DigitValue(hi) && b % 16 == DigitValue(lo);
    DigitLower(hi);
    DigitLower(lo);
  }

  lemma {:induction false} EncodeIsHex(bytes: seq<byte>)
    ensures IsHexId(EncodeHex(bytes), 2 * |bytes|) && IsDigits(EncodeHex(bytes), 16)
  {
    if bytes == [] {
    } else {
      EncodeIsHex(bytes[..|bytes| - 1]);
      PairRoundTrip(bytes[|bytes| - 1]);
    }
  }

  lemma {:induction false} DecodeEncode(bytes: seq<byte>)
    ensures IsHexId(EncodeHex(bytes), 2 * |bytes|) && IsDigits(EncodeHex(bytes), 16)
    ensures DecodeHex(EncodeHex(bytes)) == bytes
  {
    EncodeIsHex(bytes);
    if bytes == [] {
    } else {
      var front, last := bytes[..|bytes| - 1], bytes[|bytes| - 1];
      DecodeEncode(front);
      PairRoundTrip(last);
      var hi, lo := EncodeByte(last)[0], EncodeByte(last)[1];
      DecodeSnoc(EncodeHex(front), hi, lo);
      assert EncodeHex(bytes) == EncodeHex(front) + [hi, lo];
      assert bytes == front + [last];
    }
  }

  lemma DecodeSnoc(s: string, hi: char, lo: char)
    requires |s| % 2 == 0 && IsDigits(s, 16) && DigitValue(hi) < 16 && DigitValue(lo) < 16
    ensures IsDigits(s + [hi, lo], 16)
    ensures DecodeHex(s + [hi, lo]) == DecodeHex(s) + [DecodePair(hi, lo)]
  {
    assert (s + [hi, lo])[..|s + [hi, lo]| - 2] == s;
  }

  lemma EncodeSnoc(bytes: seq<byte>, b: byte)
    ensures EncodeHex(bytes + [b]) == EncodeHex(bytes) + EncodeByte(b)
  {
    assert (bytes + [b])[..|bytes|] == bytes;
  }

  lemma LowerSnoc(s: string, hi: char, lo: char)
    ensures Lower(s + [hi, lo]) == Lower(s) + [LowerChar(hi), LowerChar(lo)]
  {
  }

  lemma {:induction false} EncodeDecode(s: string)
    requires |s| % 2 == 0 && IsDigits(s, 16)
    ensures EncodeHex(DecodeHex(s)) == Lower(s)
  {
    if s == "" {
    } else {
      var n := |s|;
      var front, hi, lo := s[..n - 2], s[n - 2], s[n - 1];
      assert s == front + [hi, lo] && hi in s && lo in s;
      EncodeDecode(front);
      DecodeSnoc(front, hi, lo);
      PairLower(hi, lo);
      EncodeSnoc(DecodeHex(front), DecodePair(hi, lo));
      LowerSnoc(front, hi, lo);
    }
  }

  lemma LowerOfCanonical(s: string)
    requires forall c :: c in s ==> IsLowerHex(c)
    ensures Lower(s) == s && IsDigits(s, 16)
  {
    forall i | 0 <= i < |s|
      ensures Lower(s)[i] == s[i]
    {
      assert s[i] in s;
    }
  }

  // ----- the asset-id codec -----

  datatype AssetIdParseError = WrongLength(got: nat) | NotHex

  /** What `AssetId::from_hex` answers. */
  function AssetIdOf(hex: string): Result<AssetId, AssetIdParseError> {
    var body := Strip0x(hex);
    if |body| != ASSET_ID_HEX_LEN then Err(WrongLength(|body|))
    else if !IsDigits(body, 16) then Err(NotHex)
    else Ok(DecodeHex(body))
  }

  /** `AssetId::from_hex`, filling a zeroed 32-byte buffer one pair of digits at a time. */
  method FromHex(hex: string) returns (r: Result<AssetId, AssetIdParseError>)
    ensures r == AssetIdOf(hex)
  {
    var body := Strip0x(hex);
    if |body| != ASSET_ID_HEX_LEN {
      return Err(WrongLength(|body|));
    }
    var bytes := new byte[32](_ => 0);
    for i := 0 to 32
      invariant IsDigits(body[..2 * i], 16)
      invariant bytes[..i] == DecodeHex(body[..2 * i])
    {
      var hi, lo := body[2 * i], body[2 * i + 1];
      if DigitValue(hi) >= 16 || DigitValue(lo) >= 16 {
        NotAllDigits(body, 2 * i);
        return Err(NotHex);
      }
      DecodeStep(body, i);
      bytes[i] := DecodePair(hi, lo);
      assert bytes[..i + 1] == bytes[..i] + [DecodePair(hi, lo)];
    }
    assert body[..64] == body && bytes[..32] == bytes[..];
    r := Ok(bytes[..]);
  }

  lemma DecodeStep(s: string, i: nat)
    requires 2 * i + 1 < |s| && IsDigits(s[..2 * i], 16)
    requires DigitValue(s[2 * i]) < 16 && DigitValue(s[2 * i + 1]) < 16
    ensures IsDigits(s[..2 * (i + 1)], 16)
    ensures DecodeHex(s[..2 * (i + 1)]) == DecodeHex(s[..2 * i]) + [DecodePair(s[2 * i], s[2 * i + 1])]
  {
    DecodeSnoc(s[..2 * i], s[2 * i], s[2 * i + 1]);
    assert s[..2 * (i + 1)] == s[..2 * i] + [s[2 * i], s[2 * i + 1]];
  }

  lemma NotAllDigits(s: string, i: nat)
    requires i + 1 < |s| && (DigitValue(s[i]) >= 16 || DigitValue(s[i + 1]) >= 16)
    ensures !IsDigits(s, 16)
  {
    assert s[i] in s && s[i + 1] in s;
  }

  /** `AssetId::to_hex`: two lower-case digits per byte, folded onto the text so far. */
  method ToHex(id: AssetId) returns (hex: string)
    ensures hex == EncodeHex(id)
    ensures AssetIdOf(hex) == Ok(id)
  {
    hex := "";
    for i := 0 to |id|
      invariant hex == EncodeHex(id[..i])
    {
      assert id[..i + 1][..i] == id[..i];
      hex := hex + EncodeByte(id[i]);
    }
    assert id[..|id|] == id;
    AssetIdRoundTrip(id);
  }

  lemma AssetIdRoundTrip(id: AssetId)
    ensures AssetIdOf(EncodeHex(id)) == Ok(id)
    ensures AssetIdOf("0x" + EncodeHex(id)) == Ok(id)
  {
    DecodeEncode(id);
    NormalizeAccepts(EncodeHex(id), 64, EncodeHex(id));
    NormalizeAccepts("0x" + EncodeHex(id), 64, EncodeHex(id));
  }

  /** A hex digit of either case, by the characters themselves. */
  predicate IsHexChar(c: char) {
    '0' <= c <= '9' || 'a' <= c <= 'f' || 'A' <= c <= 'F'
  }

  /** What is accepted, what it means, and which error a refusal names. At most one prefix goes. */
  lemma AssetIdAccepts(hex: string)
    ensures var r := AssetIdOf(hex);
            exists body: string ::
              && (hex == "0x" + body || (hex == body && !("0x" <= hex)))
              && (r.Ok? <==> |body| == 64 && forall c :: c in body ==> IsHexChar(c))
              && (r.Ok? ==> EncodeHex(r.value) == Lower(body))
              && (r.Err? ==> r.error == if |body| == 64 then NotHex else WrongLength(|body|))
  {
    var body := Strip0x(hex);
    if "0x" <= hex {
      assert hex == "0x" + body;
    }
    assert IsDigits(body, 16) <==> forall c :: c in body ==> IsHexChar(c);
    AssetIdMeaning(hex);
  }

  lemma AssetIdMeaning(hex: string)
    ensures var body := Strip0x(hex);
            var r := AssetIdOf(hex);
            && (r.Ok? <==> |body| == 64 && IsDigits(body, 16))
            && (r.Ok? ==> EncodeHex(r.value) == Lower(body))
  {
    if AssetIdOf(hex).Ok? {
      EncodeDecode(Strip0x(hex));
    }
  }

  lemma AssetIdSpellings(a: string, b: string)
    requires AssetIdOf(a).Ok? && AssetIdOf(b).Ok?
    ensures AssetIdOf(a) == AssetIdOf(b) <==> Lower(Strip0x(a)) == Lower(Strip0x(b))
  {
    AssetIdMeaning(a);
    AssetIdMeaning(b);
    DecodeEncode(AssetIdOf(a).value);
    DecodeEncode(AssetIdOf(b).value);
  }

  // ----- the order of hex ids -----

  /** A 32-byte hash as the unsigned number its bytes spell, most significant first. */
  function ByteValue(bytes: seq<byte>): nat {
    if bytes == [] then 0 else ByteValue(bytes[..|bytes| - 1]) * 256 + bytes[|bytes| - 1]
  }

  lemma {:induction false} HexValue(bytes: seq<byte>)
    ensures Value(EncodeHex(bytes), 16) == ByteValue(bytes)
  {
    if bytes == [] {
    } else {
      var front, last := bytes[..|bytes| - 1], bytes[|bytes| - 1];
      HexValue(front);
      var s := EncodeHex(bytes);
      var n := |s|;
      assert s[..n - 1] == EncodeHex(front) + [DigitChar(last / 16)];
      assert s[..n - 1][..n - 2] == EncodeHex(front);
    }
  }

  lemma {:induction false} LessByLastChar(f: string, g: string, x: char, y: char)
    requires |f| == |g|
    ensures Less(f + [x], g + [y]) <==> Less(f, g) || (f == g && x < y)
  {
    if f == "" {
    } else {
      assert (f + [x])[1..] == f[1..] + [x] && (g + [y])[1..] == g[1..] + [y];
      LessByLastChar(f[1..], g[1..], x, y);
      assert f == [f[0]] + f[1..] && g == [g[0]] + g[1..];
    }
  }

  lemma {:induction false} HexOrderIsNumeric(s: string, t: string)
    requires |s| == |t| && IsHexId(s, |s|) && IsHexId(t, |t|)
    ensures Less(s, t) <==> Value(s, 16) < Value(t, 16)
    ensures s == t <==> Value(s, 16) == Value(t, 16)
  {
    if s == "" {
    } else {
      var n := |s| - 1;
      var f, g, x, y := s[..n], t[..n], s[n], t[n];
      assert s == f + [x] && t == g + [y] && x in s && y in t;
      HexOrderIsNumeric(f, g);
      LessByLastChar(f, g, x, y);
      assert x < y <==> DigitValue(x) < DigitValue(y);
    }
  }

  lemma {:induction false} LessOfConcatenation(a: string, b: string, c: string, d: string)
    requires |a| == |c|
    ensures Less(a + b, c + d) <==> Less(a, c) || (a == c && Less(b, d))
  {
    if a == "" {
      assert a + b == b && c + d == d;
    } else {
      assert (a + b)[1..] == a[1..] + b && (c + d)[1..] == c[1..] + d;
      LessOfConcatenation(a[1..], b, c[1..], d);
      assert a == [a[0]] + a[1..] && c == [c[0]] + c[1..];
    }
  }

  lemma {:induction false} EncodeConcatenation(a: seq<byte>, b: seq<byte>)
    ensures EncodeHex(a + b) == EncodeHex(a) + EncodeHex(b)
  {
    if b == [] {
      assert a + b == a;
    } else {
      EncodeConcatenation(a, b[..|b| - 1]);
      assert (a + b)[..|a + b| - 1] == a + b[..|b| - 1];
    }
  }

  /** Ids ordered as text are ordered as the numbers their bytes spell. */
  lemma IdOrderIsByteOrder(a: seq<byte>, b: seq<byte>)
    requires |a| == |b|
    ensures Less(EncodeHex(a), EncodeHex(b)) <==> ByteValue(a) < ByteValue(b)
  {
    DecodeEncode(a);
    DecodeEncode(b);
    HexValue(a);
    HexValue(b);
    HexOrderIsNumeric(EncodeHex(a), EncodeHex(b));
  }

  /** Every id that survives normalisation is the rendering of exactly one byte string. */
  lemma CanonicalIdsAreBytes(s: string)
    requires IsHexId(s, |s|) && |s| % 2 == 0
    ensures IsDigits(s, 16) && EncodeHex(DecodeHex(s)) == s
  {
    LowerOfCanonical(s);
    EncodeDecode(s);
  }

  // ----- the two-part key of a mirror bond -----

  datatype MirrorBondKey = MirrorBondKey(store_id: string, root: string)

  predicate IsCanonicalKey(key: MirrorBondKey) {
    IsHexId(key.store_id, COIN_ID_HEX_LEN) && IsHexId(key.root, COIN_ID_HEX_LEN)
  }

  /** The derived `Ord`: by store id, then by root. */
  predicate KeyLess(a: MirrorBondKey, b: MirrorBondKey) {
    Less(a.store_id, b.store_id) || (a.store_id == b.store_id && Less(a.root, b.root))
  }

  function KeyBytes(key: MirrorBondKey): seq<byte>
    requires IsCanonicalKey(key)
  {
    LowerOfCanonical(key.store_id);
    LowerOfCanonical(key.root);
    DecodeHex(key.store_id) + DecodeHex(key.root)
  }

  lemma KeyOrderIsByteOrder(a: MirrorBondKey, b: MirrorBondKey)
    requires IsCanonicalKey(a) && IsCanonicalKey(b)
    ensures KeyLess(a, b) <==> ByteValue(KeyBytes(a)) < ByteValue(KeyBytes(b))
    ensures a == b <==> KeyBytes(a) == KeyBytes(b)
  {
    CanonicalIdsAreBytes(a.store_id);
    CanonicalIdsAreBytes(a.root);
    CanonicalIdsAreBytes(b.store_id);
    CanonicalIdsAreBytes(b.root);
    EncodeConcatenation(DecodeHex(a.store_id), DecodeHex(a.root));
    EncodeConcatenation(DecodeHex(b.store_id), DecodeHex(b.root));
    LessOfConcatenation(a.store_id, a.root, b.store_id, b.root);
    IdOrderIsByteOrder(KeyBytes(a), KeyBytes(b));
    if KeyBytes(a) == KeyBytes(b) {
      assert DecodeHex(a.store_id) == KeyBytes(a)[..32] && DecodeHex(b.store_id) == KeyBytes(b)[..32];
      assert DecodeHex(a.root) == KeyBytes(a)[32..] && DecodeHex(b.root) == KeyBytes(b)[32..];
    }
  }

  /**
    Where an un-normalised `0x` cursor would land. It precedes a canonical id exactly when that id
    does not start with `0`, so the claim that it precedes every canonical id is false.
   */
  lemma PrefixedIdOrder(prefixed: string, id: string)
    requires IsHexId(prefixed, COIN_ID_HEX_LEN) && IsHexId(id, COIN_ID_HEX_LEN)
    ensures Less("0x" + prefixed, id) <==> id[0] != '0'
  {
    assert id[0] in id && id[1] in id;
    assert ("0x" + prefixed)[1..] == "x" + prefixed;
    assert id[1..][0] == id[1];
  }

  lemma PrefixedIdCanSortLater()
    ensures exists prefixed, id :: IsHexId(prefixed, COIN_ID_HEX_LEN) && IsHexId(id, COIN_ID_HEX_LEN)
                                   && Less(id, "0x" + prefixed)
  {
    var id := seq(64, _ => '0');
    PrefixedIdOrder(id, id);
    LessTotal(id, "0x" + id);
    assert IsHexId(id, COIN_ID_HEX_LEN) && Less(id, "0x" + id);
  }
}
