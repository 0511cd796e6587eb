/**
  The request types that check themselves. Each is checked twice in the contract, once when a wire
  record is decoded and once by `validated`, and both are modelled, over a record whose JSON fields
  have already been read. A record before and after checking has the same fields.
 */
module Requests {
  import opened Wrappers
  import opened Numerals
  import opened Identifiers
  import opened Assets

  datatype ErrorCode = InvalidParams | WalletCoinsReserved

  datatype ControlError = ControlError(code: ErrorCode, message: string)

  const PARENT_COIN_ID_ERROR: string := "parent_coin_id must be lowercase 64-hex, optionally 0x-prefixed"
  const AFTER_COIN_ID_ERROR: string := "after_coin_id must be lowercase 64-hex, optionally 0x-prefixed"
  const PAGE_LIMIT_ERROR: string := "limit must be between 1 and 1000"
  const PUBLIC_KEYS_ERROR: string :=
    "public_keys must each be lowercase 96-hex (a 48-byte G1 key), optionally 0x-prefixed"
  const COIN_IDS_ERROR: string :=
    "coin_ids must each be lowercase 64-hex (a 32-byte coin id), optionally 0x-prefixed"
  const MIRROR_BOND_STATES_LIMIT_ERROR: string := "limit must be between 1 and 1000 bonds per page"
  const MIRROR_BOND_AFTER_ERROR: string :=
    "after.store_id and after.root must each be lowercase 64-hex, optionally 0x-prefixed"

  const COINS_BY_PARENT_DEFAULT_LIMIT: u32 := 100
  const COINS_BY_PARENT_MAX_LIMIT: u32 := 1000

  predicate IsLegalPage(limit: u32) {
    1 <= limit <= COINS_BY_PARENT_MAX_LIMIT
  }

  predicate IsLegalLimit(limit: Option<u32>) {
    limit.Some? ==> IsLegalPage(limit.value)
  }

  function EffectiveLimit(limit: Option<u32>): u32 {
    match limit
    case Some(n) => n
    case None => COINS_BY_PARENT_DEFAULT_LIMIT
  }

  function Invalid(message: string): ControlError {
    ControlError(InvalidParams, message)
  }

  // ----- one id, an optional id, a list of ids -----

  /** `raw` is one of the two accepted spellings of the canonical `id`. */
  predicate Spells(raw: string, len: nat, id: string) {
    IsHexId(id, len) && (raw == id || raw == "0x" + id)
  }

  predicate SpellsOptional(raw: Option<string>, len: nat, id: Option<string>) {
    raw.Some? == id.Some? && (raw.Some? ==> Spells(raw.value, len, id.value))
  }

  predicate SpellsEach(raws: seq<string>, len: nat, ids: seq<string>) {
    |raws| == |ids| && forall i :: 0 <= i < |raws| ==> Spells(raws[i], len, ids[i])
  }

  /** Mapping the normaliser over a list and collecting: one refusal refuses the list. */
  function NormalizeAll(raws: seq<string>, len: nat): Option<seq<string>> {
    if raws == [] then Some([]) else
      match Normalize(raws[0], len)
      case None => None
      case Some(id) =>
        match NormalizeAll(raws[1..], len)
        case None => None
        case Some(ids) => Some([id] + ids)
  }

  /** A list is accepted exactly when every element is, so one malformed element refuses it all. */
  lemma {:induction false} NormalizeAllAccepts(raws: seq<string>, len: nat, ids: seq<string>)
    ensures NormalizeAll(raws, len) == Some(ids) <==> SpellsEach(raws, len, ids)
    ensures NormalizeAll(raws, len).None? <==> exists i :: 0 <= i < |raws| && Normalize(raws[i], len).None?
  {
    if raws == [] {
    } else {
      assert forall i :: 0 <= i < |raws| - 1 ==> raws[1..][i] == raws[i + 1];
      var tail := if ids == [] then [] else ids[1..];
      NormalizeAllAccepts(raws[1..], len, tail);
      if ids != [] {
        NormalizeAccepts(raws[0], len, ids[0]);
        assert ids == [ids[0]] + tail;
        assert SpellsEach(raws, len, ids) <==> Spells(raws[0], len, ids[0]) && SpellsEach(raws[1..], len, tail);
      }
    }
  }

  /** Some id has this text as one of its accepted spellings. */
  ghost predicate IsSpelling(raw: string, len: nat) {
    exists id :: Spells(raw, len, id)
  }

  lemma RefusedIsNoSpelling(raw: string, len: nat)
    ensures Normalize(raw, len).None? <==> !IsSpelling(raw, len)
  {
    if Normalize(raw, len).Some? {
      NormalizeAccepts(raw, len, Normalize(raw, len).value);
      assert Spells(raw, len, Normalize(raw, len).value);
    }
    if id :| Spells(raw, len, id) {
      NormalizeAccepts(raw, len, id);
    }
  }

  // ----- control.wallet.coins -----

  datatype WalletCoinsParams = WalletCoinsParams(
    address: string, asset: Asset, after_coin_id: Option<string>, limit: Option<u32>)

  function DecodeCoins(raw: WalletCoinsParams): Result<WalletCoinsParams, string> {
    var after := match raw.after_coin_id
      case None => Ok(None)
      case Some(id) =>
        match Normalize(id, COIN_ID_HEX_LEN)
        case Some(n) => Ok(Some(n))
        case None => Err(AFTER_COIN_ID_ERROR);
    match after
    case Err(e) => Err(e)
    case Ok(after_coin_id) =>
      if !IsLegalLimit(raw.limit) then Err(PAGE_LIMIT_ERROR)
      else Ok(WalletCoinsParams(raw.address, raw.asset, after_coin_id, raw.limit))
  }

  function ValidatedCoins(params: WalletCoinsParams): Result<WalletCoinsParams, ControlError> {
    if params.after_coin_id.Some? && Normalize(params.after_coin_id.value, COIN_ID_HEX_LEN).None? then
      Err(Invalid(AFTER_COIN_ID_ERROR))
    else if params.limit.Some? && !IsLegalPage(params.limit.value) then
      Err(Invalid(PAGE_LIMIT_ERROR))
    else if params.after_coin_id.Some? then
      Ok(params.(after_coin_id := Normalize(params.after_coin_id.value, COIN_ID_HEX_LEN)))
    else
      Ok(params)
  }

  /** What is accepted, what comes back, and that both checks agree on all of it. */
  lemma CoinsRequest(raw: WalletCoinsParams, ok: WalletCoinsParams)
    ensures ValidatedCoins(raw) == Ok(ok)
       <==> && SpellsOptional(raw.after_coin_id, 64, ok.after_coin_id)
            && (raw.limit.Some? ==> 1 <= raw.limit.value <= 1000)
            && ok == raw.(after_coin_id := ok.after_coin_id)
    ensures ValidatedCoins(raw).Err? ==>
              ValidatedCoins(raw).error == ControlError(InvalidParams,
                if raw.after_coin_id.Some? && !IsSpelling(raw.after_coin_id.value, 64)
                then "after_coin_id must be lowercase 64-hex, optionally 0x-prefixed"
                else "limit must be between 1 and 1000")
    ensures DecodeCoins(raw) == Ok(ok) <==> ValidatedCoins(raw) == Ok(ok)
    ensures forall m :: DecodeCoins(raw) == Err(m) <==> ValidatedCoins(raw) == Err(Invalid(m))
    ensures ValidatedCoins(raw) == Ok(ok) ==> ValidatedCoins(ok) == Ok(ok)
  {
    if raw.after_coin_id.Some? {
      RefusedIsNoSpelling(raw.after_coin_id.value, 64);
    }
    if raw.after_coin_id.Some? && ok.after_coin_id.Some? {
      NormalizeAccepts(raw.after_coin_id.value, COIN_ID_HEX_LEN, ok.after_coin_id.value);
      NormalizeAccepts(ok.after_coin_id.value, COIN_ID_HEX_LEN, ok.after_coin_id.value);
    }
  }

  // ----- control.wallet.coinsByParent -----

  datatype WalletCoinsByParentParams = WalletCoinsByParentParams(
    parent_coin_id: string, after_coin_id: Option<string>, limit: Option<u32>)

  function DecodeByParent(raw: WalletCoinsByParentParams): Result<WalletCoinsByParentParams, string> {
    match Normalize(raw.parent_coin_id, COIN_ID_HEX_LEN)
    case None => Err(PARENT_COIN_ID_ERROR)
    case Some(parent) =>
      var after := match raw.after_coin_id
        case None => Ok(None)
        case Some(id) =>
          match Normalize(id, COIN_ID_HEX_LEN)
          case Some(n) => Ok(Some(n))
          case None => Err(AFTER_COIN_ID_ERROR);
      match after
      case Err(e) => Err(e)
      case Ok(after_coin_id) =>
        if !IsLegalLimit(raw.limit) then Err(PAGE_LIMIT_ERROR)
        else Ok(WalletCoinsByParentParams(parent, after_coin_id, raw.limit))
  }

  function ValidatedByParent(params: WalletCoinsByParentParams)
    : Result<WalletCoinsByParentParams, ControlError>
  {
    var parent := Normalize(params.parent_coin_id, COIN_ID_HEX_LEN);
    if parent.None? then
      Err(Invalid(PARENT_COIN_ID_ERROR))
    else if params.after_coin_id.Some? && Normalize(params.after_coin_id.value, COIN_ID_HEX_LEN).None? then
      Err(Invalid(AFTER_COIN_ID_ERROR))
    else if params.limit.Some? && !IsLegalPage(params.limit.value) then
      Err(Invalid(PAGE_LIMIT_ERROR))
    else
      var after_coin_id := if params.after_coin_id.None? then None
                           else Normalize(params.after_coin_id.value, COIN_ID_HEX_LEN);
      Ok(WalletCoinsByParentParams(parent.value, after_coin_id, params.limit))
  }

  lemma ByParentRequest(raw: WalletCoinsByParentParams, ok: WalletCoinsByParentParams)
    ensures ValidatedByParent(raw) == Ok(ok)
       <==> && Spells(raw.parent_coin_id, 64, ok.parent_coin_id)
            && SpellsOptional(raw.after_coin_id, 64, ok.after_coin_id)
            && (raw.limit.Some? ==> 1 <= raw.limit.value <= 1000) && ok.limit == raw.limit
    ensures ValidatedByParent(raw).Err? ==>
              ValidatedByParent(raw).error == ControlError(InvalidParams,
                if !IsSpelling(raw.parent_coin_id, 64)
                then "parent_coin_id must be lowercase 64-hex, optionally 0x-prefixed"
                else if raw.after_coin_id.Some? && !IsSpelling(raw.after_coin_id.value, 64)
                then "after_coin_id must be lowercase 64-hex, optionally 0x-prefixed"
                else "limit must be between 1 and 1000")
    ensures DecodeByParent(raw) == Ok(ok) <==> ValidatedByParent(raw) == Ok(ok)
    ensures forall m :: DecodeByParent(raw) == Err(m) <==> ValidatedByParent(raw) == Err(Invalid(m))
    ensures ValidatedByParent(raw) == Ok(ok) ==> ValidatedByParent(ok) == Ok(ok)
  {
    RefusedIsNoSpelling(raw.parent_coin_id, 64);
    if raw.after_coin_id.Some? {
      RefusedIsNoSpelling(raw.after_coin_id.value, 64);
    }
    NormalizeAccepts(raw.parent_coin_id, COIN_ID_HEX_LEN, ok.parent_coin_id);
    NormalizeAccepts(ok.parent_coin_id, COIN_ID_HEX_LEN, ok.parent_coin_id);
    if raw.after_coin_id.Some? && ok.after_coin_id.Some? {
      NormalizeAccepts(raw.after_coin_id.value, COIN_ID_HEX_LEN, ok.after_coin_id.value);
      NormalizeAccepts(ok.after_coin_id.value, COIN_ID_HEX_LEN, ok.after_coin_id.value);
    }
  }

  // ----- control.wallet.watch and control.wallet.unwatch -----

  datatype PublicKeysParams = PublicKeysParams(public_keys: seq<string>)

  function DecodePublicKeys(raw: PublicKeysParams): Result<PublicKeysParams, string> {
    match NormalizeAll(raw.public_keys, PUBLIC_KEY_HEX_LEN)
    case Some(public_keys) => Ok(PublicKeysParams(public_keys))
    case None => Err(PUBLIC_KEYS_ERROR)
  }

  function ValidatedPublicKeys(params: PublicKeysParams): Result<PublicKeysParams, ControlError> {
    var public_keys := NormalizeAll(params.public_keys, PUBLIC_KEY_HEX_LEN);
    if public_keys.None? then Err(Invalid(PUBLIC_KEYS_ERROR)) else Ok(PublicKeysParams(public_keys.value))
  }

  lemma PublicKeysRequest(raw: PublicKeysParams, ok: PublicKeysParams)
    ensures ValidatedPublicKeys(raw) == Ok(ok)
       <==> SpellsEach(raw.public_keys, 96, ok.public_keys)
    ensures ValidatedPublicKeys(raw).Err? ==>
              ValidatedPublicKeys(raw).error == ControlError(InvalidParams,
                "public_keys must each be lowercase 96-hex (a 48-byte G1 key), optionally 0x-prefixed")
    ensures DecodePublicKeys(raw) == Ok(ok) <==> ValidatedPublicKeys(raw) == Ok(ok)
    ensures forall m :: DecodePublicKeys(raw) == Err(m) <==> ValidatedPublicKeys(raw) == Err(Invalid(m))
    ensures ValidatedPublicKeys(raw) == Ok(ok) ==> ValidatedPublicKeys(ok) == Ok(ok)
  {
    NormalizeAllAccepts(raw.public_keys, PUBLIC_KEY_HEX_LEN, ok.public_keys);
    NormalizeAllAccepts(ok.public_keys, PUBLIC_KEY_HEX_LEN, ok.public_keys);
  }

  // ----- control.wallet.reservations.reserve -----

  datatype ReserveParams = ReserveParams(coin_ids: seq<string>, ttl_secs: Option<u64>)

  function DecodeReserve(raw: ReserveParams): Result<ReserveParams, string> {
    match NormalizeAll(raw.coin_ids, COIN_ID_HEX_LEN)
    case Some(coin_ids) => Ok(ReserveParams(coin_ids, raw.ttl_secs))
    case None => Err(COIN_IDS_ERROR)
  }

  function ValidatedReserve(params: ReserveParams): Result<ReserveParams, ControlError> {
    var coin_ids := NormalizeAll(params.coin_ids, COIN_ID_HEX_LEN);
    if coin_ids.None? then Err(Invalid(COIN_IDS_ERROR)) else Ok(params.(coin_ids := coin_ids.value))
  }

  lemma ReserveRequest(raw: ReserveParams, ok: ReserveParams)
    ensures ValidatedReserve(raw) == Ok(ok)
       <==> SpellsEach(raw.coin_ids, 64, ok.coin_ids) && ok.ttl_secs == raw.ttl_secs
    ensures ValidatedReserve(raw).Err? ==>
              ValidatedReserve(raw).error == ControlError(InvalidParams,
                "coin_ids must each be lowercase 64-hex (a 32-byte coin id), optionally 0x-prefixed")
    ensures DecodeReserve(raw) == Ok(ok) <==> ValidatedReserve(raw) == Ok(ok)
    ensures forall m :: DecodeReserve(raw) == Err(m) <==> ValidatedReserve(raw) == Err(Invalid(m))
    ensures ValidatedReserve(raw) == Ok(ok) ==> ValidatedReserve(ok) == Ok(ok)
  {
    NormalizeAllAccepts(raw.coin_ids, COIN_ID_HEX_LEN, ok.coin_ids);
    NormalizeAllAccepts(ok.coin_ids, COIN_ID_HEX_LEN, ok.coin_ids);
  }

  // ----- control.mirror.bondStates, whose decoder calls `validated` -----

  datatype MirrorBondStatesParams = MirrorBondStatesParams(after: Option<MirrorBondKey>, limit: Option<u32>)

  function NormalizeBondKey(key: MirrorBondKey): Result<MirrorBondKey, ControlError> {
    match Normalize(key.store_id, COIN_ID_HEX_LEN)
    case None => Err(Invalid(MIRROR_BOND_AFTER_ERROR))
    case Some(store_id) =>
      match Normalize(key.root, COIN_ID_HEX_LEN)
      case None => Err(Invalid(MIRROR_BOND_AFTER_ERROR))
      case Some(root) => Ok(MirrorBondKey(store_id, root))
  }

  function ValidatedBonds(params: MirrorBondStatesParams): Result<MirrorBondStatesParams, ControlError> {
    if params.limit.Some? && (params.limit.value == 0 || params.limit.value > COINS_BY_PARENT_MAX_LIMIT) then
      Err(Invalid(MIRROR_BOND_STATES_LIMIT_ERROR))
    else
      match params.after
      case None => Ok(params)
      case Some(key) =>
        match NormalizeBondKey(key)
        case Err(e) => Err(e)
        case Ok(after) => Ok(params.(after := Some(after)))
  }

  /** A malformed half of the cursor refuses the request; it never reads as the start of the set. */
  lemma BondsRequest(raw: MirrorBondStatesParams, ok: MirrorBondStatesParams)
    ensures ValidatedBonds(raw) == Ok(ok)
       <==> && (raw.limit.Some? ==> 1 <= raw.limit.value <= 1000) && ok.limit == raw.limit
            && raw.after.Some? == ok.after.Some?
            && (raw.after.Some? ==>
                  && Spells(raw.after.value.store_id, 64, ok.after.value.store_id)
                  && Spells(raw.after.value.root, 64, ok.after.value.root))
    ensures ValidatedBonds(raw) == Ok(ok) ==> ValidatedBonds(ok) == Ok(ok)
    ensures ValidatedBonds(raw).Err? ==>
              ValidatedBonds(raw).error == ControlError(InvalidParams,
                if raw.limit.Some? && !(1 <= raw.limit.value <= 1000)
                then "limit must be between 1 and 1000 bonds per page"
                else "after.store_id and after.root must each be lowercase 64-hex, optionally 0x-prefixed")
  {
    if raw.after.Some? && ok.after.Some? {
      NormalizeAccepts(raw.after.value.store_id, COIN_ID_HEX_LEN, ok.after.value.store_id);
      NormalizeAccepts(raw.after.value.root, COIN_ID_HEX_LEN, ok.after.value.root);
      NormalizeAccepts(ok.after.value.store_id, COIN_ID_HEX_LEN, ok.after.value.store_id);
      NormalizeAccepts(ok.after.value.root, COIN_ID_HEX_LEN, ok.after.value.root);
    }
  }
}
