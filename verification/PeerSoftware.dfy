/**
  A peer's advertised software build: `product/version`, split at the last separator, with version
  zero standing for no version. Strings are Unicode scalar values here.
 */
module PeerSoftware {
  import opened Wrappers
  import opened Text
  import N = Numerals
  import SemVer

  datatype SoftwareVersionDetail = Full | Minor | Off

  datatype PeerSoftware = Unknown | Reported(product: string, version: SemVer.Version, raw: string)

  predicate IsVersionZero(v: SemVer.Version) {
    v.major == 0 && v.minor == 0 && v.patch == 0
  }

  function Parse(advertised: string): PeerSoftware {
    var raw := Trim(advertised);
    match RSplitOnce(raw, '/')
    case None => Unknown
    case Some((product, text)) =>
      if product == "" then Unknown else
        match SemVer.Parse(text)
        case None => Unknown
        case Some(version) =>
          if IsVersionZero(version) then Unknown else Reported(product, version, raw)
  }

  function Coarsened(v: SemVer.Version): SemVer.Version {
    SemVer.Plain(v.major, v.minor, 0)
  }

  function Render(detail: SoftwareVersionDetail, product: string, v: SemVer.Version): string {
    match detail
    case Full => product + "/" + SemVer.Print(v)
    case Minor => if IsVersionZero(Coarsened(v)) then "" else product + "/" + SemVer.Print(Coarsened(v))
    case Off => ""
  }

  lemma ReportsAreSound(advertised: string)
    requires Parse(advertised).Reported?
    ensures var r := Parse(advertised);
            && r.raw == Trim(advertised) == r.product + "/" + SemVer.Print(r.version)
            && r.product != "" && SemVer.IsValid(r.version) && !IsVersionZero(r.version)
  {
    var trimmed := Trim(advertised);
    RSplitOnceSound(trimmed, '/');
    SemVer.PrintParse(RSplitOnce(trimmed, '/').value.1);
  }

  lemma WellFormedTextIsReported(advertised: string, product: string, v: SemVer.Version)
    requires Trim(advertised) == product + "/" + SemVer.Print(v)
    requires product != "" && SemVer.IsValid(v) && !IsVersionZero(v)
    ensures Parse(advertised) == Reported(product, v, Trim(advertised))
  {
    SemVer.PrintChars(v);
    SemVer.ParsePrint(v);
    RSplitOnceFinds(product, SemVer.Print(v), '/');
  }

  lemma BareAdvertisement(product: string, v: SemVer.Version)
    requires product != "" && SemVer.IsValid(v)
    ensures IsBare(product + "/" + SemVer.Print(v)) <==> !IsWhitespace(product[0])
  {
    var version := SemVer.Print(v);
    SemVer.PrintChars(v);
    assert version[|version| - 1] in version;
    assert (product + "/" + version)[|product + "/" + version| - 1] == version[|version| - 1];
  }

  /** Exactly what is reported, over every text a peer can send. Anything else is unknown. */
  lemma ParseReports(advertised: string, product: string, v: SemVer.Version, raw: string)
    ensures Parse(advertised) == Reported(product, v, raw)
       <==> && Pads(advertised, raw)
            && raw == product + "/" + SemVer.Print(v)
            && product != "" && !IsWhitespace(product[0])
            && SemVer.IsValid(v) && !(v.major == 0 && v.minor == 0 && v.patch == 0)
  {
    TrimMeaning(advertised, raw);
    if product != "" && SemVer.IsValid(v) && raw == product + "/" + SemVer.Print(v) {
      BareAdvertisement(product, v);
      if Trim(advertised) == raw && !IsVersionZero(v) {
        WellFormedTextIsReported(advertised, product, v);
      }
    }
    if Parse(advertised).Reported? {
      ReportsAreSound(advertised);
    }
  }

  /** Trimming an advertisement can only take leading whitespace off its product. */
  lemma TrimAdvertisement(product: string, v: SemVer.Version)
    requires SemVer.IsValid(v)
    ensures Trim(product + "/" + SemVer.Print(v)) == TrimStart(product) + "/" + SemVer.Print(v)
  {
    var text := SemVer.Print(v);
    SemVer.PrintChars(v);
    assert text[|text| - 1] in text;
    SeparatorAndTail(product, text);
  }

  lemma SeparatorAndTail(product: string, text: string)
    requires text != "" && !IsWhitespace(text[|text| - 1])
    ensures Trim(product + "/" + text) == TrimStart(product) + "/" + text
  {
    var tail := "/" + text;
    assert tail[0] == '/' && tail[|tail| - 1] == text[|text| - 1];
    TrimKeepsTail(product, tail);
    assert product + tail == product + "/" + text;
    assert TrimStart(product) + tail == TrimStart(product) + "/" + text;
  }

  /** What a full advertisement reads back as, whatever the product name. */
  lemma ReadBack(product: string, v: SemVer.Version)
    requires SemVer.IsValid(v)
    ensures Parse(product + "/" + SemVer.Print(v))
         == if TrimStart(product) == "" || IsVersionZero(v) then Unknown
            else Reported(TrimStart(product), v, TrimStart(product) + "/" + SemVer.Print(v))
  {
    var bare := TrimStart(product);
    TrimAdvertisement(product, v);
    SemVer.PrintChars(v);
    SemVer.ParsePrint(v);
    RSplitOnceFinds(bare, SemVer.Print(v), '/');
  }

  /** The round trip, for products that may contain the separator themselves. */
  lemma AdvertisementRoundTrip(product: string, v: SemVer.Version)
    requires product != "" && !IsWhitespace(product[0])
    requires SemVer.IsValid(v) && !IsVersionZero(v)
    ensures var text := Render(Full, product, v);
            Parse(text) == Reported(product, v, text)
  {
    ReadBack(product, v);
  }

  /**
    The promise that every rendering is empty or readable, with the exact condition for it: nothing is
    rendered, or the product has a visible first part and the version is not version zero.
   */
  lemma RenderingIsEmptyOrReadable(detail: SoftwareVersionDetail, product: string, v: SemVer.Version)
    requires SemVer.IsValid(v)
    ensures var text := Render(detail, product, v);
            (text == "" || Parse(text).Reported?)
            <==>
            (|| detail.Off?
             || (detail.Minor? && v.major == 0 && v.minor == 0)
             || (!AllWhitespace(product) && !(v.major == 0 && v.minor == 0 && v.patch == 0)))
  {
    ReadBack(product, v);
    ReadBack(product, Coarsened(v));
    var a := TrimStartSplits(product);
    assert TrimStart(product) == "" ==> product == a;
    assert TrimStart(product) != "" ==> TrimStart(product)[0] in product;
  }

  /** What is rendered, in full. The coarse form writes a patch number of zero and nothing behind it. */
  lemma RenderMeaning(product: string, v: SemVer.Version)
    ensures Render(Full, product, v) == product + "/" + SemVer.Print(v)
    ensures Render(Minor, product, v)
         == if v.major == 0 && v.minor == 0 then ""
            else product + "/" + (N.Render(v.major, 10) + "." + N.Render(v.minor, 10) + ".0")
    ensures Render(Off, product, v) == ""
  {
    SemVer.PrintText(Coarsened(v));
    assert N.Render(0, 10) == "0";
  }

  /** The promise fails for `Full` at version zero, and for a nameless product. */
  lemma SomeRenderingsReadAsUnknown()
    ensures var zero, one := SemVer.Plain(0, 0, 0), SemVer.Plain(1, 0, 0);
            && Render(Full, "dig-node", zero) != "" && Parse(Render(Full, "dig-node", zero)).Unknown?
            && Render(Minor, "", one) != "" && Parse(Render(Minor, "", one)).Unknown?
  {
    ReadBack("dig-node", SemVer.Plain(0, 0, 0));
    ReadBack("", SemVer.Plain(1, 0, 0));
  }

  /** `Minor` reveals the major and minor numbers, all of them and nothing else. */
  lemma MinorRevealsMajorAndMinor(product: string, v: SemVer.Version, w: SemVer.Version)
    ensures Render(Minor, product, v) == Render(Minor, product, w)
       <==> v.major == w.major && v.minor == w.minor
    ensures Render(Minor, product, v) == "" <==> v.major == 0 && v.minor == 0
  {
    var p, q := SemVer.Print(Coarsened(v)), SemVer.Print(Coarsened(w));
    if product + "/" + p == product + "/" + q {
      assert (product + "/" + p)[|product| + 1..] == p;
      assert (product + "/" + q)[|product| + 1..] == q;
      SemVer.PrintInjective(Coarsened(v), Coarsened(w));
    }
  }

  lemma BlankIsUnknown()
    ensures Parse("") == Unknown
  {
    assert Trim("") == "" && RSplitOnce("", '/') == None;
  }

  /** Coarsening what was read back from a coarse advertisement renders the same advertisement. */
  lemma CoarseningIsIdempotent(product: string, v: SemVer.Version)
    requires Parse(Render(Minor, product, v)).Reported?
    ensures var read := Parse(Render(Minor, product, v));
            && read.version == Coarsened(v)
            && Render(Minor, read.product, read.version) == read.raw == Render(Full, read.product, read.version)
            && (product != "" && !IsWhitespace(product[0]) ==> read.raw == Render(Minor, product, v))
  {
    BlankIsUnknown();
    ReadBack(product, Coarsened(v));
  }
}
