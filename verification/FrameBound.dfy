/**
  Does the largest page a coin read may serve fit the transport's frame? The JSON text of a record is
  written out, so its length is that of the text and not an estimate.
 */
module FrameBound {
  import opened Wrappers
  import opened Numerals
  import opened Identifiers
  import opened Assets
  import opened Requests

  const MAX_FRAME_BYTES: nat := 1024 * 1024

  datatype WalletCoinRecord = WalletCoinRecord(
    coin_id: string, asset: Option<Asset>, amount: u64, parent_coin_info: string, puzzle_hash: string,
    created_height: Option<u32>, spent_height: Option<u32>)

  /** The three hashes in canonical form, so that no character of the text needs escaping. */
  predicate IsWellFormed(r: WalletCoinRecord) {
    IsHexId(r.coin_id, 64) && IsHexId(r.parent_coin_info, 64) && IsHexId(r.puzzle_hash, 64)
  }

  function AssetJson(asset: Option<Asset>): string {
    if asset.None? then "null" else
      match Encode(asset.value)
      case Token(token) => "\"" + token + "\""
      case Tagged(cat) => "{\"cat\":\"" + cat + "\"}"
  }

  function HeightJson(height: Option<u32>): string {
    if height.None? then "null" else Render(height.value, 10)
  }

  function RecordJson(r: WalletCoinRecord): string {
    "{\"coin_id\":\"" + r.coin_id + "\",\"asset\":" + AssetJson(r.asset)
    + ",\"amount\":" + Render(r.amount, 10)
    + ",\"parent_coin_info\":\"" + r.parent_coin_info + "\",\"puzzle_hash\":\"" + r.puzzle_hash
    + "\",\"created_height\":" + HeightJson(r.created_height)
    + ",\"spent_height\":" + HeightJson(r.spent_height) + "}"
  }

  /** The length of a record on the wire, with the comma that joins it to the next. */
  function WireBytes(r: WalletCoinRecord): nat {
    |RecordJson(r)| + 1
  }

  function Total(page: seq<WalletCoinRecord>, bytes: WalletCoinRecord -> nat): nat {
    if page == [] then 0 else bytes(page[0]) + Total(page[1..], bytes)
  }

  function PageBytes(page: seq<WalletCoinRecord>): nat {
    Total(page, WireBytes)
  }

  /** What a record costs beyond its asset and its numbers: keys, quotes, hashes and the comma. */
  const FIXED_BYTES: nat := 299

  lemma RecordLength(r: WalletCoinRecord)
    requires IsWellFormed(r)
    ensures WireBytes(r) == FIXED_BYTES + |AssetJson(r.asset)| + |Render(r.amount, 10)|
                            + |HeightJson(r.created_height)| + |HeightJson(r.spent_height)|
  {
    assert |"{\"coin_id\":\""| == 12 && |"\",\"asset\":"| == 10 && |",\"amount\":"| == 10;
    assert |",\"parent_coin_info\":\""| == 21 && |"\",\"puzzle_hash\":\""| == 17;
    assert |"\",\"created_height\":"| == 19 && |",\"spent_height\":"| == 16;
  }

  /** What a record costs, part by part: an asset by how it is written, a number by its digits. */
  lemma RecordCost(r: WalletCoinRecord)
    requires IsWellFormed(r)
    ensures WireBytes(r)
         == 299 + (if r.asset.None? then 4 else if Encode(r.asset.value).Token? then 5 else 74)
            + |Render(r.amount, 10)|
            + (if r.created_height.None? then 4 else |Render(r.created_height.value, 10)|)
            + (if r.spent_height.None? then 4 else |Render(r.spent_height.value, 10)|)
  {
    RecordLength(r);
  }

  lemma AmountLength(n: u64)
    ensures |Render(n, 10)| <= 20
  {
    PowersOfTen();
    RenderLength(n, 10, 20);
  }

  lemma HeightLength(h: Option<u32>)
    ensures |HeightJson(h)| <= 10
  {
    if h.Some? {
      PowersOfTen();
      RenderLength(h.value, 10, 10);
    }
  }

  lemma AssetLength(asset: Option<Asset>)
    ensures |AssetJson(asset)| <= 74
    ensures asset.None? ==> |AssetJson(asset)| == 4
  {
  }

  lemma RecordBound(r: WalletCoinRecord)
    requires IsWellFormed(r)
    ensures WireBytes(r) <= if r.asset.None? then 343 else 413
  {
    RecordLength(r);
    AmountLength(r.amount);
    HeightLength(r.created_height);
    HeightLength(r.spent_height);
    AssetLength(r.asset);
  }

  lemma OneMore(n: nat, most: nat)
    ensures (n + 1) * most == most + n * most
  {
  }

  lemma {:induction false} TotalIsBounded(page: seq<WalletCoinRecord>, bytes: WalletCoinRecord -> nat, most: nat)
    requires forall r :: r in page ==> bytes(r) <= most
    ensures Total(page, bytes) <= |page| * most
  {
    if page == [] {
    } else {
      assert page[0] in page && forall r :: r in page[1..] ==> r in page;
      TotalIsBounded(page[1..], bytes, most);
      OneMore(|page[1..]|, most);
    }
  }

  /** The most one record of this asset can cost. */
  function WorstBytes(asset: Option<Asset>): nat {
    FIXED_BYTES + |AssetJson(asset)| + 40
  }

  lemma PageOfOneAsset(page: seq<WalletCoinRecord>, asset: Option<Asset>)
    requires forall r :: r in page ==> IsWellFormed(r) && r.asset == asset
    ensures PageBytes(page) <= |page| * WorstBytes(asset)
  {
    forall r | r in page
      ensures WireBytes(r) <= WorstBytes(asset)
    {
      RecordLength(r);
      AmountLength(r.amount);
      HeightLength(r.created_height);
      HeightLength(r.spent_height);
    }
    TotalIsBounded(page, WireBytes, WorstBytes(asset));
  }

  /** A by-parent page, which classifies no coin, fits three times over. */
  lemma ByParentPageFits(page: seq<WalletCoinRecord>)
    requires |page| <= COINS_BY_PARENT_MAX_LIMIT
    requires forall r :: r in page ==> IsWellFormed(r) && r.asset.None?
    ensures 3 * PageBytes(page) < MAX_FRAME_BYTES
  {
    PageOfOneAsset(page, None);
  }

  /** A page fits twice over whatever assets its records carry. */
  lemma CoinsPageFits(page: seq<WalletCoinRecord>)
    requires |page| <= COINS_BY_PARENT_MAX_LIMIT
    requires forall r :: r in page ==> IsWellFormed(r)
    ensures 2 * PageBytes(page) < MAX_FRAME_BYTES
  {
    forall r | r in page
      ensures WireBytes(r) <= 413
    {
      RecordBound(r);
    }
    TotalIsBounded(page, WireBytes, 413);
  }

  // ----- the bounds are reached -----

  /** The costliest record for an asset: every number at its longest. */
  function Longest(asset: Option<Asset>): WalletCoinRecord {
    var hash := seq(64, _ => 'f');
    WalletCoinRecord(hash, asset, 0xffff_ffff_ffff_ffff, hash, hash, Some(0xffff_ffff), Some(0xffff_ffff))
  }

  lemma LongestLength(asset: Option<Asset>)
    ensures IsWellFormed(Longest(asset))
    ensures WireBytes(Longest(asset)) == WorstBytes(asset)
  {
    var r := Longest(asset);
    RecordLength(r);
    AmountLength(r.amount);
    HeightLength(r.created_height);
    PowersOfTen();
    RenderLength(r.amount, 10, 19);
    RenderLength(r.created_height.value, 10, 9);
  }

  function Copies(r: WalletCoinRecord, n: nat): seq<WalletCoinRecord> {
    if n == 0 then [] else [r] + Copies(r, n - 1)
  }

  lemma {:induction false} CopiesTotal(r: WalletCoinRecord, n: nat, bytes: WalletCoinRecord -> nat)
    ensures |Copies(r, n)| == n && Total(Copies(r, n), bytes) == n * bytes(r)
    ensures forall q :: q in Copies(r, n) ==> q == r
  {
    if n == 0 {
    } else {
      CopiesTotal(r, n - 1, bytes);
      assert Copies(r, n)[1..] == Copies(r, n - 1);
      OneMore(n - 1, bytes(r));
    }
  }

  lemma FullestPage(asset: Option<Asset>, n: nat) returns (page: seq<WalletCoinRecord>)
    ensures |page| == n && PageBytes(page) == n * WorstBytes(asset)
    ensures forall r :: r in page ==> IsWellFormed(r) && r.asset == asset
  {
    page := Copies(Longest(asset), n);
    LongestLength(asset);
    CopiesTotal(Longest(asset), n, WireBytes);
  }

  /** Every page of at most `n` records of this asset fits the frame three times over. */
  ghost predicate FitsThreefold(asset: Option<Asset>, n: nat) {
    forall page ::
      (|page| <= n && forall r :: r in page ==> IsWellFormed(r) && r.asset == asset)
      ==> 3 * PageBytes(page) < MAX_FRAME_BYTES
  }

  lemma ProductMonotone(m: nat, n: nat, k: nat)
    requires m <= n
    ensures m * k <= n * k
  {
  }

  /** Asset by asset, the page sizes that keep a threefold headroom. */
  lemma ThreefoldPageSize(asset: Option<Asset>, n: nat)
    ensures FitsThreefold(asset, n) <==> 3 * (n * WorstBytes(asset)) < MAX_FRAME_BYTES
  {
    var fullest := FullestPage(asset, n);
    if 3 * (n * WorstBytes(asset)) < MAX_FRAME_BYTES {
      forall page: seq<WalletCoinRecord> |
        |page| <= n && forall r :: r in page ==> IsWellFormed(r) && r.asset == asset
        ensures 3 * PageBytes(page) < MAX_FRAME_BYTES
      {
        PageOfOneAsset(page, asset);
        ProductMonotone(|page|, n, WorstBytes(asset));
      }
    }
  }

  lemma WorstBytesByShape(asset: Option<Asset>)
    ensures WorstBytes(asset) == if asset.None? then 343 else if Encode(asset.value).Token? then 344 else 413
  {
  }

  /**
    The documented headroom of the largest legal page, for every asset a record can carry: threefold
    exactly when the asset is not written in tagged form. XCH and $DIG keep it, any other CAT does not.
   */
  lemma ThreefoldExactlyUntagged(asset: Option<Asset>)
    ensures FitsThreefold(asset, COINS_BY_PARENT_MAX_LIMIT) <==> !(asset.Some? && Encode(asset.value).Tagged?)
  {
    ThreefoldPageSize(asset, COINS_BY_PARENT_MAX_LIMIT);
    WorstBytesByShape(asset);
  }

  /** The failing page itself: a full one of any single tagged CAT. */
  lemma TaggedPageExceedsThreefold(cat: Asset)
    requires Encode(cat).Tagged?
    ensures var page := Copies(Longest(Some(cat)), COINS_BY_PARENT_MAX_LIMIT);
            && |page| == COINS_BY_PARENT_MAX_LIMIT && (forall r :: r in page ==> IsWellFormed(r))
            && 3 * PageBytes(page) > MAX_FRAME_BYTES
  {
    LongestLength(Some(cat));
    WorstBytesByShape(Some(cat));
    CopiesTotal(Longest(Some(cat)), COINS_BY_PARENT_MAX_LIMIT, WireBytes);
  }

  /** How far the maximum could be raised and keep its threefold headroom, by how the asset is written. */
  lemma LargestThreefoldPage(asset: Option<Asset>, n: nat)
    ensures FitsThreefold(asset, n)
       <==> n <= if asset.None? then 1019 else if Encode(asset.value).Token? then 1016 else 846
  {
    ThreefoldPageSize(asset, n);
    WorstBytesByShape(asset);
  }
}
