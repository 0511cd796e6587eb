/**
  The asset a wallet read is denominated in, and its two-shaped wire form. The JSON value is taken
  as already decoded into one of the two shapes the untagged enum admits.
 */
module Assets {
  import opened Wrappers
  import opened Numerals
  import opened Identifiers

  datatype Asset = Xch | Cat(id: AssetId)

  const XCH_TOKEN: string := "xch"
  const DIG_TOKEN: string := "dig"

  // The id is spelled twice, as bytes and as hex, in groups of four bytes.
  const DIG_ASSET_ID_HEX: string :=
    "a406d3a9" + ("de984d03" + ("c9591c10" + ("d917593b" + DIG_HEX_TAIL)))

  const DIG_HEX_TAIL: string :=
    "434d5263" + ("cabe2b42" + ("f6b367df" + "16832f81"))

  const DIG_ASSET_ID: AssetId :=
    [0xa4, 0x06, 0xd3, 0xa9] + ([0xde, 0x98, 0x4d, 0x03] + (
    [0xc9, 0x59, 0x1c, 0x10] + ([0xd9, 0x17, 0x59, 0x3b] + DIG_BYTES_TAIL)))

  const DIG_BYTES_TAIL: seq<byte> :=
    [0x43, 0x4d, 0x52, 0x63] + ([0xca, 0xbe, 0x2b, 0x42] + (
    [0xf6, 0xb3, 0x67, 0xdf] + [0x16, 0x83, 0x2f, 0x81]))

  const DIG: Asset := Cat(DIG_ASSET_ID)

  datatype Wire = Token(token: string) | Tagged(cat: string)

  datatype AssetDecodeError = UnknownToken(token: string) | BadAssetId(error: AssetIdParseError)

  /** `Serialize for Asset`: $DIG keeps its legacy token. */
  function Encode(asset: Asset): Wire {
    if asset == Xch then Token(XCH_TOKEN)
    else if asset == DIG then Token(DIG_TOKEN)
    else Tagged(EncodeHex(asset.id))
  }

  /** `Deserialize for Asset`, after the JSON shape has been recognised. */
  function Decode(wire: Wire): Result<Asset, AssetDecodeError> {
    match wire
    case Token(token) =>
      if token == XCH_TOKEN then Ok(Xch)
      else if token == DIG_TOKEN then Ok(DIG)
      else Err(UnknownToken(token))
    case Tagged(cat) =>
      match AssetIdOf(cat)
      case Ok(id) => Ok(Cat(id))
      case Err(e) => Err(BadAssetId(e))
  }

  /** The spelling this crate would emit for what it accepted. */
  function Normalized(wire: Wire): Wire
    requires Decode(wire).Ok?
  {
    Encode(Decode(wire).value)
  }

  lemma WireRoundTrip(asset: Asset)
    ensures Decode(Encode(asset)) == Ok(asset)
  {
    if asset.Cat? {
      AssetIdRoundTrip(asset.id);
    }
  }

  lemma EncodeInjective(a: Asset, b: Asset)
    requires Encode(a) == Encode(b)
    ensures a == b
  {
    WireRoundTrip(a);
    WireRoundTrip(b);
  }

  /** Normalising is idempotent and merges two spellings exactly when they name one asset. */
  lemma NormalizedIsCanonical(v: Wire, w: Wire)
    requires Decode(v).Ok? && Decode(w).Ok?
    ensures Decode(Normalized(w)) == Decode(w) && Normalized(Normalized(w)) == Normalized(w)
    ensures Normalized(v) == Normalized(w) <==> Decode(v) == Decode(w)
  {
    WireRoundTrip(Decode(v).value);
    WireRoundTrip(Decode(w).value);
  }

  lemma EncodeFront(a: byte, rest: seq<byte>)
    ensures EncodeHex([a] + rest) == EncodeByte(a) + EncodeHex(rest)
  {
    EncodeConcatenation([a], rest);
    assert EncodeHex([a]) == EncodeHex([]) + EncodeByte(a) == EncodeByte(a);
  }

  lemma EncodeGroup(a: byte, b: byte, c: byte, d: byte, rest: seq<byte>, hex: string)
    requires hex == EncodeByte(a) + EncodeByte(b) + EncodeByte(c) + EncodeByte(d)
    ensures EncodeHex([a, b, c, d] + rest) == hex + EncodeHex(rest)
  {
    EncodeFront(d, rest);
    EncodeFront(c, [d] + rest);
    EncodeFront(b, [c] + ([d] + rest));
    EncodeFront(a, [b] + ([c] + ([d] + rest)));
    assert [a, b, c, d] + rest == [a] + ([b] + ([c] + ([d] + rest)));
  }

  lemma DigTailSpellingsAgree()
    ensures EncodeHex(DIG_BYTES_TAIL) == DIG_HEX_TAIL
  {
    var t7 := [0x16, 0x83, 0x2f, 0x81];
    var t6 := [0xf6, 0xb3, 0x67, 0xdf] + t7;
    var t5 := [0xca, 0xbe, 0x2b, 0x42] + t6;
    assert t7 + [] == t7;
    EncodeGroup(0x16, 0x83, 0x2f, 0x81, [], "16832f81");
    EncodeGroup(0xf6, 0xb3, 0x67, 0xdf, t7, "f6b367df");
    EncodeGroup(0xca, 0xbe, 0x2b, 0x42, t6, "cabe2b42");
    EncodeGroup(0x43, 0x4d, 0x52, 0x63, t5, "434d5263");
  }

  /** The two declared spellings of the $DIG id, bytes and hex, are one id. */
  lemma DigSpellingsAgree()
    ensures EncodeHex(DIG_ASSET_ID) == DIG_ASSET_ID_HEX
  {
    DigTailSpellingsAgree();
    var t4 := DIG_BYTES_TAIL;
    var t3 := [0xd9, 0x17, 0x59, 0x3b] + t4;
    var t2 := [0xc9, 0x59, 0x1c, 0x10] + t3;
    var t1 := [0xde, 0x98, 0x4d, 0x03] + t2;
    EncodeGroup(0xd9, 0x17, 0x59, 0x3b, t4, "d917593b");
    EncodeGroup(0xc9, 0x59, 0x1c, 0x10, t3, "c9591c10");
    EncodeGroup(0xde, 0x98, 0x4d, 0x03, t2, "de984d03");
    EncodeGroup(0xa4, 0x06, 0xd3, 0xa9, t1, "a406d3a9");
  }

  lemma AssetIdIsLowerCased(cat: string, id: AssetId)
    ensures AssetIdOf(cat) == Ok(id) <==> Lower(Strip0x(cat)) == EncodeHex(id) && AssetIdOf(cat).Ok?
  {
    AssetIdMeaning(cat);
    AssetIdRoundTrip(id);
    if AssetIdOf(cat).Ok? {
      AssetIdRoundTrip(AssetIdOf(cat).value);
    }
  }

  /** Every wire value: the two tokens, the tagged ids, and what anything else is refused as. */
  lemma DecodeMeaning(wire: Wire)
    ensures match wire
            case Token("xch") => Decode(wire) == Ok(Xch)
            case Token("dig") => Decode(wire).Ok? && Decode(wire).value.Cat?
                                 && EncodeHex(Decode(wire).value.id)
                                 == "a406d3a9" + "de984d03" + "c9591c10" + "d917593b"
                                  + "434d5263" + "cabe2b42" + "f6b367df" + "16832f81"
            case Token(token) => Decode(wire) == Err(UnknownToken(token))
            case Tagged(cat) =>
              match AssetIdOf(cat)
              case Ok(id) => Decode(wire) == Ok(Cat(id))
              case Err(e) => Decode(wire) == Err(BadAssetId(e))
  {
    DigSpellingsAgree();
    HexGroups();
  }

  lemma HexGroups()
    ensures DIG_ASSET_ID_HEX == "a406d3a9" + "de984d03" + "c9591c10" + "d917593b"
                              + "434d5263" + "cabe2b42" + "f6b367df" + "16832f81"
  {
  }

  /** What each asset is written as: two tokens, and otherwise the id in 64 lower-case digits. */
  lemma EncodeMeaning(asset: Asset)
    ensures Encode(asset) == Token("xch") <==> asset == Xch
    ensures Encode(asset) == Token("dig") <==> Decode(Token("dig")) == Ok(asset)
    ensures asset != Xch && Decode(Token("dig")) != Ok(asset) ==>
              Encode(asset).Tagged? && IsHexId(Encode(asset).cat, 64) && AssetIdOf(Encode(asset).cat) == Ok(asset.id)
  {
    if asset.Cat? {
      AssetIdRoundTrip(asset.id);
      EncodeIsHex(asset.id);
    }
  }

  /** Which wire values are $DIG: the token, or the tagged id in either case with or without a prefix. */
  lemma DigSpellings(wire: Wire)
    requires Decode(wire).Ok?
    ensures Normalized(wire) == Token("dig")
       <==> wire == Token("dig") || (wire.Tagged? && Lower(Strip0x(wire.cat)) == DIG_ASSET_ID_HEX)
  {
    DigSpellingsAgree();
    if wire.Tagged? {
      AssetIdIsLowerCased(wire.cat, DIG_ASSET_ID);
    }
  }
}
