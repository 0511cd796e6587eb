/**
  The coin-reservation table of the reference node: what each call does to it, and what every run of
  calls keeps. The node's pinned instant is generalised to a clock each call reads.
 */
module Reservations {
  import opened Wrappers
  import opened Text
  import opened Numerals
  import opened Identifiers
  import opened Requests

  const MOCK_MAX_TTL_SECS: u64 := 600
  const MOCK_DEFAULT_TTL_SECS: u64 := 300

  datatype Hold = Hold(coins: seq<string>, expires: nat)

  type Table = map<string, Hold>

  datatype ReservedCoin = ReservedCoin(coin_id: string, reservation_id: string, expires_at_unix: nat)

  datatype ReserveResult = ReserveResult(
    reservation_id: string, coin_ids: seq<string>, expires_at_unix: nat, ttl_secs: nat)

  datatype ReleaseResult = ReleaseResult(released: bool, coin_ids: seq<string>)

  /** The handle the node mints from a table of `n - 1` rows. */
  function Handle(n: nat): string {
    "mock-res-" + Render(n, 10)
  }

  function AppliedTtl(requested: Option<u64>): nat {
    var ttl := if requested.Some? then requested.value else MOCK_DEFAULT_TTL_SECS;
    if ttl < MOCK_MAX_TTL_SECS then ttl else MOCK_MAX_TTL_SECS
  }

  predicate IsLive(hold: Hold, now: nat) {
    hold.expires > now
  }

  function HeldCoins(table: Table, now: nat): set<string> {
    set h, c | h in table.Keys && IsLive(table[h], now) && c in table[h].coins :: c
  }

  function FirstIn(ids: seq<string>, held: set<string>): Option<string> {
    if ids == [] then None else if ids[0] in held then Some(ids[0]) else FirstIn(ids[1..], held)
  }

  function Conflict(clash: string): ControlError {
    ControlError(WalletCoinsReserved, "coin " + clash + " is already reserved by an in-flight spend")
  }

  // ----- the three calls, as functions of the table -----

  function Reserve(table: Table, now: nat, params: ReserveParams): (Table, Result<ReserveResult, ControlError>) {
    match ValidatedReserve(params)
    case Err(e) => (table, Err(e))
    case Ok(valid) =>
      match FirstIn(valid.coin_ids, HeldCoins(table, now))
      case Some(clash) => (table, Err(Conflict(clash)))
      case None =>
        var ttl := AppliedTtl(valid.ttl_secs);
        var id := Handle(|table| + 1);
        (table[id := Hold(valid.coin_ids, now + ttl)],
         Ok(ReserveResult(id, valid.coin_ids, now + ttl, ttl)))
  }

  function Release(table: Table, id: string): (Table, ReleaseResult) {
    if id in table then (table - {id}, ReleaseResult(true, table[id].coins))
    else (table, ReleaseResult(false, []))
  }

  /** The listing walks the table in handle order and each row in the order it was asked for. */
  function HeldRows(table: Table, handles: seq<string>, now: nat): seq<ReservedCoin>
    requires forall h :: h in handles ==> h in table
  {
    if handles == [] then [] else
      var last := handles[|handles| - 1];
      HeldRows(table, handles[..|handles| - 1], now)
        + if IsLive(table[last], now) then RowsOf(last, table[last].coins, table[last].expires) else []
  }

  lemma HeldRowsNext(table: Table, handles: seq<string>, i: nat, now: nat)
    requires i < |handles| && forall h :: h in handles ==> h in table
    ensures HeldRows(table, handles[..i + 1], now)
         == HeldRows(table, handles[..i], now)
              + if IsLive(table[handles[i]], now)
                then RowsOf(handles[i], table[handles[i]].coins, table[handles[i]].expires) else []
  {
    assert handles[..i + 1][..i] == handles[..i];
  }

  function RowsOf(handle: string, coins: seq<string>, expires: nat): (rows: seq<ReservedCoin>)
    ensures |rows| == |coins|
    ensures forall i :: 0 <= i < |rows| ==> rows[i] == ReservedCoin(coins[i], handle, expires)
  {
    seq(|coins|, i requires 0 <= i < |coins| => ReservedCoin(coins[i], handle, expires))
  }

  // ----- handles -----

  lemma HandleInjective(m: nat, n: nat)
    requires Handle(m) == Handle(n)
    ensures m == n
  {
    assert Handle(m)[9..] == Render(m, 10) && Handle(n)[9..] == Render(n, 10);
    RenderInjective(m, n, 10);
  }

  /** The text of a handle: a fixed prefix and the number in decimal, with no leading zero. */
  ghost predicate IsHandleText(text: string, n: nat) {
    exists s: string :: text == "mock-res-" + s && IsCanonical(s, 10) && Value(s, 10) == n
  }

  lemma HandleText(n: nat, text: string)
    ensures IsHandleText(text, n) <==> text == Handle(n)
  {
    ValueOfRender(n, 10);
    assert Handle(n) == "mock-res-" + Render(n, 10);
    if IsHandleText(text, n) {
      var s: string :| text == "mock-res-" + s && IsCanonical(s, 10) && Value(s, 10) == n;
      RenderOfValue(s, 10);
    }
  }

  function FirstHandles(n: nat): set<string> {
    if n == 0 then {} else FirstHandles(n - 1) + {Handle(n)}
  }

  lemma {:induction false} FirstHandlesCounted(n: nat)
    ensures |FirstHandles(n)| == n
    ensures forall k: nat :: Handle(k) in FirstHandles(n) <==> 1 <= k <= n
  {
    if n == 0 {
    } else {
      FirstHandlesCounted(n - 1);
      forall k: nat
        ensures Handle(k) in FirstHandles(n) <==> 1 <= k <= n
      {
        if Handle(k) == Handle(n) {
          HandleInjective(k, n);
        }
      }
    }
  }

  // ----- one call -----

  lemma {:induction false} FirstInFinds(ids: seq<string>, held: set<string>)
    ensures FirstIn(ids, held).None? <==> forall id :: id in ids ==> id !in held
    ensures FirstIn(ids, held).Some? ==> FirstIn(ids, held).value in ids && FirstIn(ids, held).value in held
  {
    if ids == [] {
    } else {
      FirstInFinds(ids[1..], held);
      assert forall id :: id in ids <==> id == ids[0] || id in ids[1..];
    }
  }

  /** Exactly when a request is refused, and that a refusal changes nothing. */
  lemma ReserveRefuses(table: Table, now: nat, params: ReserveParams)
    ensures var (after, r) := Reserve(table, now, params);
            var valid := ValidatedReserve(params);
            && (r.Err? ==> after == table)
            && (r.Err? && r.error.code == InvalidParams <==>
                  exists i :: 0 <= i < |params.coin_ids| && Normalize(params.coin_ids[i], COIN_ID_HEX_LEN).None?)
            && (r.Err? && r.error.code == WalletCoinsReserved <==>
                  valid.Ok? && exists c :: c in valid.value.coin_ids && c in HeldCoins(table, now))
  {
    NormalizeAllAccepts(params.coin_ids, COIN_ID_HEX_LEN, []);
    if ValidatedReserve(params).Ok? {
      FirstInFinds(ValidatedReserve(params).value.coin_ids, HeldCoins(table, now));
    }
  }

  /**
    On success the minted row holds exactly the coins asked for, in canonical spelling, for the TTL
    applied, and no other row has changed.
   */
  lemma ReserveTakesAll(table: Table, now: nat, params: ReserveParams)
    requires Reserve(table, now, params).1.Ok?
    ensures var (after, result) := Reserve(table, now, params);
            var r := result.value;
            && SpellsEach(params.coin_ids, COIN_ID_HEX_LEN, r.coin_ids)
            && r.reservation_id == Handle(|table| + 1) && IsHandleText(r.reservation_id, |table| + 1)
            && r.ttl_secs <= 600
            && (params.ttl_secs.None? ==> r.ttl_secs == 300)
            && (params.ttl_secs.Some? ==>
                  r.ttl_secs == params.ttl_secs.value || r.ttl_secs == 600 < params.ttl_secs.value)
            && r.expires_at_unix == now + r.ttl_secs
            && after.Keys == table.Keys + {r.reservation_id}
            && after[r.reservation_id] == Hold(r.coin_ids, r.expires_at_unix)
            && (forall h :: h in table && h != r.reservation_id ==> after[h] == table[h])
            && (forall c :: c in r.coin_ids ==> c !in HeldCoins(table, now))
  {
    ReserveRequest(params, ValidatedReserve(params).value);
    FirstInFinds(ValidatedReserve(params).value.coin_ids, HeldCoins(table, now));
    HandleText(|table| + 1, Handle(|table| + 1));
  }

  /** A refusal for a conflict names the first coin asked for that is held. */
  lemma ConflictNamesAHeldCoin(table: Table, now: nat, params: ReserveParams)
    requires Reserve(table, now, params).1.Err? && ValidatedReserve(params).Ok?
    ensures var ids := ValidatedReserve(params).value.coin_ids;
            && SpellsEach(params.coin_ids, 64, ids)
            && exists i ::
              && 0 <= i < |ids|
              && ids[i] in HeldCoins(table, now) && (forall j :: 0 <= j < i ==> ids[j] !in HeldCoins(table, now))
              && Reserve(table, now, params).1
                 == Err(ControlError(WalletCoinsReserved,
                                     "coin " + ids[i] + " is already reserved by an in-flight spend"))
  {
    var ids := ValidatedReserve(params).value.coin_ids;
    ReserveRequest(params, ValidatedReserve(params).value);
    FirstInFinds(ids, HeldCoins(table, now));
    var i := FirstInIsFirst(ids, HeldCoins(table, now));
  }

  lemma {:induction false} FirstInIsFirst(ids: seq<string>, held: set<string>) returns (i: nat)
    requires FirstIn(ids, held).Some?
    ensures i < |ids| && FirstIn(ids, held) == Some(ids[i]) && ids[i] in held
    ensures forall j :: 0 <= j < i ==> ids[j] !in held
  {
    if ids[0] in held {
      i := 0;
    } else {
      var rest := FirstInIsFirst(ids[1..], held);
      i := rest + 1;
      assert forall j :: 1 <= j < i ==> ids[j] == ids[1..][j - 1];
    }
  }

  /** Whatever handle it took, a successful reserve holds what it asked for exactly when its TTL is positive. */
  lemma ReservedCoinsAreHeld(table: Table, now: nat, params: ReserveParams)
    requires Reserve(table, now, params).1.Ok?
    ensures var (after, r) := Reserve(table, now, params);
            (forall c :: c in r.value.coin_ids ==> c in HeldCoins(after, now))
            <==> r.value.ttl_secs > 0 || params.coin_ids == []
  {
    var (after, r) := Reserve(table, now, params);
    ReserveTakesAll(table, now, params);
    var id, coins := r.value.reservation_id, r.value.coin_ids;
    if r.value.ttl_secs == 0 && params.coin_ids != [] {
      assert coins[0] in coins;
      forall h | h in after && IsLive(after[h], now)
        ensures coins[0] !in after[h].coins
      {
        assert h != id && h in table && after[h] == table[h];
      }
    } else {
      assert id in after && after[id].coins == coins;
    }
  }

  /** A reservation that took a fresh handle adds its coins to the held set, unless its TTL is zero. */
  lemma FreshReserveAdds(table: Table, now: nat, params: ReserveParams)
    requires Reserve(table, now, params).1.Ok? && Handle(|table| + 1) !in table
    ensures var (after, r) := Reserve(table, now, params);
            && |after| == |table| + 1
            && HeldCoins(after, now) == HeldCoins(table, now)
                 + (if r.value.ttl_secs > 0 then set c | c in r.value.coin_ids else {})
  {
    var (after, r) := Reserve(table, now, params);
    var id := r.value.reservation_id;
    assert after.Keys == table.Keys + {id};
    assert forall h :: h in table ==> h != id && after[h] == table[h];
    forall c | c in HeldCoins(table, now)
      ensures c in HeldCoins(after, now)
    {
      var h :| h in table && IsLive(table[h], now) && c in table[h].coins;
      assert h in after && after[h] == table[h];
    }
  }

  /** A release returns what its row stored, touches no other row, and a repeat does nothing. */
  lemma ReleaseFreesOneRow(table: Table, id: string)
    ensures var (after, r) := Release(table, id);
            && after.Keys == table.Keys - {id}
            && (forall h :: h in after ==> after[h] == table[h])
            && (r.released <==> id in table)
            && r.coin_ids == (if id in table then table[id].coins else [])
            && Release(after, id) == (after, ReleaseResult(false, []))
  {
  }

  /** No coin is in two live reservations. */
  ghost predicate Exclusive(table: Table, now: nat) {
    forall g, h, c ::
      (g in table && h in table && g != h && IsLive(table[g], now) && IsLive(table[h], now) && c in table[g].coins)
      ==> c !in table[h].coins
  }

  /** The row under a handle, if there is one, holds nothing at this instant. */
  predicate HoldsNothing(table: Table, handle: string, now: nat) {
    handle !in table || !IsLive(table[handle], now) || table[handle].coins == []
  }

  /** The coins a row holds at this instant. */
  function CoinsUnder(table: Table, handle: string, now: nat): set<string> {
    if handle in table && IsLive(table[handle], now) then set c | c in table[handle].coins else {}
  }

  lemma NothingUnder(table: Table, handle: string, now: nat)
    ensures CoinsUnder(table, handle, now) == {} <==> HoldsNothing(table, handle, now)
  {
    if handle in table && IsLive(table[handle], now) && table[handle].coins != [] {
      assert table[handle].coins[0] in CoinsUnder(table, handle, now);
    }
  }

  lemma HeldUnder(table: Table, now: nat, coin: string)
    ensures coin in HeldCoins(table, now) <==> exists h :: coin in CoinsUnder(table, h, now)
  {
    if coin in HeldCoins(table, now) {
      var h :| h in table && IsLive(table[h], now) && coin in table[h].coins;
      assert coin in CoinsUnder(table, h, now);
    }
  }

  lemma UnderOne(table: Table, now: nat, coin: string, g: string, h: string)
    requires Exclusive(table, now) && coin in CoinsUnder(table, g, now) && coin in CoinsUnder(table, h, now)
    ensures g == h
  {
  }

  /** Writing a row changes what is held under its handle and nowhere else. */
  lemma WriteExchanges(table: Table, now: nat, id: string, hold: Hold, coin: string)
    requires Exclusive(table, now)
    ensures var after := table[id := hold];
            coin in HeldCoins(after, now)
            <==> (coin in HeldCoins(table, now) && coin !in CoinsUnder(table, id, now))
                 || (IsLive(hold, now) && coin in hold.coins)
  {
    var after := table[id := hold];
    HeldUnder(table, now, coin);
    HeldUnder(after, now, coin);
    assert forall h :: h != id ==> CoinsUnder(after, h, now) == CoinsUnder(table, h, now);
    assert coin in CoinsUnder(after, id, now) <==> IsLive(hold, now) && coin in hold.coins;
    if h :| coin in CoinsUnder(table, h, now) && h != id {
      if coin in CoinsUnder(table, id, now) {
        UnderOne(table, now, coin, h, id);
      }
    }
  }

  lemma ReserveWrites(table: Table, now: nat, params: ReserveParams)
    requires Reserve(table, now, params).1.Ok?
    ensures var (after, r) := Reserve(table, now, params);
            && r.value.reservation_id == Handle(|table| + 1)
            && after == table[Handle(|table| + 1) := Hold(r.value.coin_ids, r.value.expires_at_unix)]
            && (r.value.expires_at_unix > now <==> r.value.ttl_secs > 0)
  {
  }

  /**
    What a success does to the held set, whatever row its handle had: that row's live coins stop being
    held, and the coins asked for start to be, unless the TTL is zero.
   */
  lemma ReserveExchanges(table: Table, now: nat, params: ReserveParams)
    requires Exclusive(table, now) && Reserve(table, now, params).1.Ok?
    ensures var (after, r) := Reserve(table, now, params);
            HeldCoins(after, now) == HeldCoins(table, now) - CoinsUnder(table, Handle(|table| + 1), now)
                                       + (if r.value.ttl_secs > 0 then set c | c in r.value.coin_ids else {})
  {
    var (after, r) := Reserve(table, now, params);
    ReserveWrites(table, now, params);
    forall coin
      ensures coin in HeldCoins(after, now)
         <==> (coin in HeldCoins(table, now) && coin !in CoinsUnder(table, Handle(|table| + 1), now))
              || (r.value.ttl_secs > 0 && coin in r.value.coin_ids)
    {
      WriteExchanges(table, now, Handle(|table| + 1), Hold(r.value.coin_ids, r.value.expires_at_unix), coin);
    }
  }

  /** So a success drops no held coin exactly when the row under its handle held nothing. */
  lemma ReserveDropsNothing(table: Table, now: nat, params: ReserveParams)
    requires Exclusive(table, now) && Reserve(table, now, params).1.Ok?
    ensures HeldCoins(table, now) <= HeldCoins(Reserve(table, now, params).0, now)
       <==> HoldsNothing(table, Handle(|table| + 1), now)
  {
    var id := Handle(|table| + 1);
    ReserveExchanges(table, now, params);
    ReserveTakesAll(table, now, params);
    NothingUnder(table, id, now);
    if c :| c in CoinsUnder(table, id, now) {
      assert c in HeldCoins(table, now) && c !in HeldCoins(Reserve(table, now, params).0, now);
    }
  }

  /** What a release frees: a live row's coins and nothing else; a lapsed row's coins not at all. */
  lemma ReleaseFreesExactly(table: Table, id: string, now: nat)
    requires Exclusive(table, now)
    ensures var (after, r) := Release(table, id);
            HeldCoins(after, now)
            == if id in table && IsLive(table[id], now) then HeldCoins(table, now) - (set c | c in r.coin_ids)
               else HeldCoins(table, now)
  {
    var (after, r) := Release(table, id);
    forall c | c in HeldCoins(table, now)
      ensures c in HeldCoins(after, now) <==> !(id in table && IsLive(table[id], now) && c in table[id].coins)
    {
      var h :| h in table && IsLive(table[h], now) && c in table[h].coins;
      if h != id {
        assert h in after;
      } else {
        forall g | g in after && IsLive(after[g], now)
          ensures c !in after[g].coins
        {
          assert g in table && g != id;
        }
      }
    }
  }

  /** What the listing says: one entry per coin of each live row, and no other. */
  lemma {:induction false} HeldRowsMeaning(table: Table, handles: seq<string>, now: nat, row: ReservedCoin)
    requires forall h :: h in handles ==> h in table
    ensures row in HeldRows(table, handles, now)
       <==> && row.reservation_id in handles
            && IsLive(table[row.reservation_id], now)
            && row.coin_id in table[row.reservation_id].coins
            && row.expires_at_unix == table[row.reservation_id].expires
  {
    if handles == [] {
    } else {
      var n := |handles| - 1;
      var last := handles[n];
      HeldRowsMeaning(table, handles[..n], now, row);
      assert row.reservation_id in handles <==> row.reservation_id == last || row.reservation_id in handles[..n];
      var rows := RowsOf(last, table[last].coins, table[last].expires);
      if row.reservation_id == last && row.coin_id in table[last].coins
         && row.expires_at_unix == table[last].expires {
        var i :| 0 <= i < |table[last].coins| && table[last].coins[i] == row.coin_id;
        assert rows[i] == row;
      }
    }
  }

  lemma {:induction false} RowsOfCount(handle: string, coins: seq<string>, expires: nat, row: ReservedCoin)
    ensures multiset(RowsOf(handle, coins, expires))[row]
         == if row.reservation_id == handle && row.expires_at_unix == expires then multiset(coins)[row.coin_id] else 0
  {
    if coins == [] {
    } else {
      var n := |coins| - 1;
      RowsOfCount(handle, coins[..n], expires, row);
      assert coins == coins[..n] + [coins[n]];
      assert RowsOf(handle, coins, expires)
          == RowsOf(handle, coins[..n], expires) + [ReservedCoin(coins[n], handle, expires)];
    }
  }

  /** Each row is listed as often as its hold names the coin, once for a request without duplicates. */
  lemma {:induction false} HeldRowsCount(table: Table, handles: seq<string>, now: nat, row: ReservedCoin)
    requires Ascending(handles) && forall h :: h in handles ==> h in table
    ensures multiset(HeldRows(table, handles, now))[row]
         == if row.reservation_id in handles && IsLive(table[row.reservation_id], now)
               && row.expires_at_unix == table[row.reservation_id].expires
            then multiset(table[row.reservation_id].coins)[row.coin_id] else 0
  {
    if handles == [] {
    } else {
      var n := |handles| - 1;
      var last := handles[n];
      HeldRowsCount(table, handles[..n], now, row);
      RowsOfCount(last, table[last].coins, table[last].expires, row);
      assert row.reservation_id in handles <==> row.reservation_id == last || row.reservation_id in handles[..n];
      forall i | 0 <= i < n
        ensures handles[i] != last
      {
        LessAsymmetric(handles[i], last);
      }
    }
  }

  predicate InHandleOrder(rows: seq<ReservedCoin>) {
    forall i, j :: 0 <= i < j < |rows| ==>
      || rows[i].reservation_id == rows[j].reservation_id
      || Less(rows[i].reservation_id, rows[j].reservation_id)
  }

  /** The listing runs in ascending order of handle. */
  lemma {:induction false} HeldRowsInHandleOrder(table: Table, handles: seq<string>, now: nat)
    requires Ascending(handles) && forall h :: h in handles ==> h in table
    ensures InHandleOrder(HeldRows(table, handles, now))
  {
    if handles == [] {
    } else {
      var n := |handles| - 1;
      var last := handles[n];
      var before, rows := HeldRows(table, handles[..n], now), HeldRows(table, handles, now);
      HeldRowsInHandleOrder(table, handles[..n], now);
      forall i | 0 <= i < |before|
        ensures Less(before[i].reservation_id, last)
      {
        assert before[i] in before;
        HeldRowsMeaning(table, handles[..n], now, before[i]);
        var k :| 0 <= k < n && handles[k] == before[i].reservation_id;
        assert Less(handles[k], handles[n]);
      }
      assert forall i :: 0 <= i < |before| ==> rows[i] == before[i];
      assert forall i :: |before| <= i < |rows| ==> rows[i].reservation_id == last;
    }
  }

  // ----- runs -----

  datatype Op = DoReserve(params: ReserveParams) | DoRelease(id: string) | DoHeld

  /** One call and the instant it read the clock. */
  datatype Event = Event(at: nat, op: Op)

  function Step(table: Table, e: Event): Table {
    match e.op
    case DoReserve(params) => Reserve(table, e.at, params).0
    case DoRelease(id) => Release(table, id).0
    case DoHeld => table
  }

  /** The table a run leaves, starting from the empty one. */
  function Run(events: seq<Event>): Table {
    if events == [] then map[] else Step(Run(events[..|events| - 1]), events[|events| - 1])
  }

  ghost predicate ClockNeverGoesBack(events: seq<Event>, now: nat) {
    && (forall i, j :: 0 <= i < j < |events| ==> events[i].at <= events[j].at)
    && forall e :: e in events ==> e.at <= now
  }

  lemma ClockBefore(events: seq<Event>, now: nat)
    requires events != [] && ClockNeverGoesBack(events, now)
    ensures var n := |events| - 1; ClockNeverGoesBack(events[..n], events[n].at) && events[n].at <= now
  {
    var n := |events| - 1;
    assert events[n] in events;
    assert forall e :: e in events[..n] ==> e.at <= events[n].at;
  }

  lemma ClockLater(events: seq<Event>, now: nat, later: nat)
    requires ClockNeverGoesBack(events, now) && now <= later
    ensures ClockNeverGoesBack(events, later)
  {
  }

  /** The two ways a call changes the table. */
  ghost predicate Minted(before: Table, after: Table, at: nat) {
    var id := Handle(|before| + 1);
    && after.Keys == before.Keys + {id}
    && (forall h :: h in before && h != id ==> after[h] == before[h])
    && after[id].expires <= at + MOCK_MAX_TTL_SECS
    && forall c :: c in after[id].coins ==> c !in HeldCoins(before, at)
  }

  lemma ReserveMints(table: Table, now: nat, params: ReserveParams)
    requires Reserve(table, now, params).1.Ok?
    ensures Minted(table, Reserve(table, now, params).0, now)
  {
    ReserveTakesAll(table, now, params);
  }

  lemma StepShape(table: Table, e: Event)
    ensures || Step(table, e) == table
            || (e.op.DoReserve? && Minted(table, Step(table, e), e.at))
            || (e.op.DoRelease? && e.op.id in table && Step(table, e) == table - {e.op.id})
  {
    if e.op.DoReserve? && Reserve(table, e.at, e.op.params).1.Ok? {
      ReserveMints(table, e.at, e.op.params);
    }
  }

  lemma ExclusiveLater(table: Table, now: nat, later: nat)
    requires Exclusive(table, now) && now <= later
    ensures Exclusive(table, later)
  {
  }

  lemma ExclusiveMinted(before: Table, after: Table, at: nat)
    requires Exclusive(before, at) && Minted(before, after, at)
    ensures Exclusive(after, at)
  {
    var id := Handle(|before| + 1);
    forall h, c | h in after && h != id && IsLive(after[h], at) && c in after[h].coins
      ensures c !in after[id].coins
    {
      assert h in before && after[h] == before[h];
      assert c in HeldCoins(before, at);
    }
  }

  lemma ExclusiveStep(table: Table, e: Event)
    requires Exclusive(table, e.at)
    ensures Exclusive(Step(table, e), e.at)
  {
    StepShape(table, e);
    if Minted(table, Step(table, e), e.at) {
      ExclusiveMinted(table, Step(table, e), e.at);
    }
  }

  /** Safety: lapsed rows stay in the table and their coins are taken again, yet no two live rows share one. */
  lemma {:induction false} NoCoinIsHeldTwice(events: seq<Event>, now: nat)
    requires ClockNeverGoesBack(events, now)
    ensures Exclusive(Run(events), now)
  {
    if events == [] {
    } else {
      var n := |events| - 1;
      var last := events[n];
      ClockBefore(events, now);
      NoCoinIsHeldTwice(events[..n], last.at);
      ExclusiveStep(Run(events[..n]), last);
      ExclusiveLater(Run(events), last.at, now);
    }
  }

  /** So the listing, at any later instant, names one reservation for each coin. */
  lemma ListedUnderOneReservation(events: seq<Event>, handles: seq<string>, now: nat,
                                  a: ReservedCoin, b: ReservedCoin)
    requires ClockNeverGoesBack(events, now)
    requires forall h :: h in handles ==> h in Run(events)
    requires a in HeldRows(Run(events), handles, now) && b in HeldRows(Run(events), handles, now)
    requires a.coin_id == b.coin_id
    ensures a == b
  {
    HeldRowsMeaning(Run(events), handles, now, a);
    HeldRowsMeaning(Run(events), handles, now, b);
    NoCoinIsHeldTwice(events, now);
  }

  /** No hold outlives the longest TTL: this long after the last reserve, the node holds nothing. */
  lemma {:induction false} EveryHoldLapses(events: seq<Event>, now: nat)
    requires forall e :: e in events && e.op.DoReserve? ==> e.at + 600 <= now
    ensures HeldCoins(Run(events), now) == {}
  {
    EveryRowLapses(events, now);
  }

  lemma {:induction false} EveryRowLapses(events: seq<Event>, now: nat)
    requires forall e :: e in events && e.op.DoReserve? ==> e.at + MOCK_MAX_TTL_SECS <= now
    ensures forall h :: h in Run(events) ==> Run(events)[h].expires <= now
  {
    if events == [] {
    } else {
      var n := |events| - 1;
      var last := events[n];
      assert last in events && forall e :: e in events[..n] ==> e in events;
      EveryRowLapses(events[..n], now);
      StepLapses(Run(events[..n]), last, now);
    }
  }

  lemma StepLapses(table: Table, e: Event, now: nat)
    requires forall h :: h in table ==> table[h].expires <= now
    requires e.op.DoReserve? ==> e.at + MOCK_MAX_TTL_SECS <= now
    ensures forall h :: h in Step(table, e) ==> Step(table, e)[h].expires <= now
  {
    StepShape(table, e);
  }

  // ----- fresh handles -----

  /** Every release that found a row freed the one minted last. */
  predicate ReleasesNewestFirst(events: seq<Event>) {
    events == [] ||
    var n := |events| - 1;
    && ReleasesNewestFirst(events[..n])
    && ((events[n].op.DoRelease? && events[n].op.id in Run(events[..n]))
        ==> events[n].op.id == Handle(|Run(events[..n])|))
  }

  /** Under that discipline the handles are exactly 1..n, so the next handle minted is a fresh one. */
  lemma {:induction false} HandlesStayDense(events: seq<Event>)
    requires ReleasesNewestFirst(events)
    ensures Run(events).Keys == FirstHandles(|Run(events)|)
    ensures Handle(|Run(events)| + 1) !in Run(events)
  {
    if events == [] {
      assert Run(events).Keys == {};
    } else {
      var before, last := Run(events[..|events| - 1]), events[|events| - 1];
      HandlesStayDense(events[..|events| - 1]);
      StepShape(before, last);
      DenseStep(before, Run(events), last);
    }
    FirstHandlesCounted(|Run(events)|);
  }

  lemma DenseStep(before: Table, after: Table, e: Event)
    requires before.Keys == FirstHandles(|before|)
    requires || after == before
             || Minted(before, after, e.at)
             || (Handle(|before|) in before && after == before - {Handle(|before|)})
    ensures after.Keys == FirstHandles(|after|)
  {
    var n := |before|;
    FirstHandlesCounted(n);
    FirstHandlesCounted(n + 1);
    assert |after| == |after.Keys|;
    if after != before && !Minted(before, after, e.at) {
      assert n > 0 && FirstHandles(n) == FirstHandles(n - 1) + {Handle(n)};
      FirstHandlesCounted(n - 1);
      assert after.Keys == FirstHandles(n - 1);
    }
  }

  /** So a text is a handle in use exactly when it is the prefix and a number from 1 to the size of the table. */
  lemma HandlesInUse(events: seq<Event>, text: string)
    requires ReleasesNewestFirst(events)
    ensures text in Run(events) <==> exists k: nat :: 1 <= k <= |Run(events)| && IsHandleText(text, k)
  {
    var n := |Run(events)|;
    HandlesStayDense(events);
    FirstHandlesCounted(n);
    if text in Run(events) {
      var k := NumberOf(text, n);
      HandleText(k, text);
    }
    forall k: nat | 1 <= k <= n && IsHandleText(text, k)
      ensures text in Run(events)
    {
      HandleText(k, text);
    }
  }

  lemma {:induction false} NumberOf(text: string, n: nat) returns (k: nat)
    requires text in FirstHandles(n)
    ensures 1 <= k <= n && text == Handle(k)
  {
    assert n > 0;
    if text == Handle(n) {
      k := n;
    } else {
      k := NumberOf(text, n - 1);
    }
  }

  lemma DisciplinedReserveIsFresh(events: seq<Event>, now: nat, params: ReserveParams)
    requires ReleasesNewestFirst(events) && Reserve(Run(events), now, params).1.Ok?
    ensures var (after, r) := Reserve(Run(events), now, params);
            && r.value.reservation_id !in Run(events)
            && HeldCoins(after, now) == HeldCoins(Run(events), now)
                 + (if r.value.ttl_secs > 0 then set c | c in r.value.coin_ids else {})
  {
    HandlesStayDense(events);
    FreshReserveAdds(Run(events), now, params);
  }

  // ----- the table as a ledger of the run -----

  /** Every reserve that succeeded took a handle no row had. */
  predicate TakesFreshHandles(events: seq<Event>) {
    events == [] ||
    var n := |events| - 1;
    && TakesFreshHandles(events[..n])
    && (Reserves(events, n) ==> Handle(|Run(events[..n])| + 1) !in Run(events[..n]))
  }

  /** This call is a reserve that succeeds. */
  predicate Succeeds(table: Table, e: Event) {
    e.op.DoReserve? && Reserve(table, e.at, e.op.params).1.Ok?
  }

  function HoldOf(r: ReserveResult): Hold {
    Hold(r.coin_ids, r.expires_at_unix)
  }

  /** And hands out this handle for this hold. */
  predicate Takes(table: Table, e: Event, handle: string, hold: Hold) {
    Succeeds(table, e)
    && var r := Reserve(table, e.at, e.op.params).1.value;
       handle == r.reservation_id && hold == HoldOf(r)
  }

  /** Call `i` of the run was a reserve that succeeded. */
  predicate Reserves(events: seq<Event>, i: nat)
    requires i < |events|
  {
    Succeeds(Run(events[..i]), events[i])
  }

  /** Call `i` of the run succeeded in taking this hold under this handle. */
  predicate Took(events: seq<Event>, i: nat, handle: string, hold: Hold) {
    i < |events| && Takes(Run(events[..i]), events[i], handle, hold)
  }

  /** No call after `i` released the handle. */
  predicate Unreleased(events: seq<Event>, i: nat, handle: string) {
    forall j :: i < j < |events| ==> events[j].op != DoRelease(handle)
  }

  ghost predicate OnLedger(events: seq<Event>, handle: string, hold: Hold) {
    exists i: nat :: Took(events, i, handle, hold) && Unreleased(events, i, handle)
  }

  lemma TookBefore(events: seq<Event>, i: nat, handle: string, hold: Hold)
    requires i + 1 < |events|
    ensures var n := |events| - 1;
            && (Took(events, i, handle, hold) <==> Took(events[..n], i, handle, hold))
            && (Unreleased(events, i, handle)
                <==> Unreleased(events[..n], i, handle) && events[n].op != DoRelease(handle))
  {
    assert events[..|events| - 1][..i] == events[..i];
  }

  lemma LedgerStep(events: seq<Event>, handle: string, hold: Hold)
    requires events != []
    ensures var n := |events| - 1;
            OnLedger(events, handle, hold)
            <==> Took(events, n, handle, hold)
                 || (OnLedger(events[..n], handle, hold) && events[n].op != DoRelease(handle))
  {
    var n := |events| - 1;
    if OnLedger(events, handle, hold) {
      var i: nat :| Took(events, i, handle, hold) && Unreleased(events, i, handle);
      if i < n {
        TookBefore(events, i, handle, hold);
      }
    }
    if Took(events, n, handle, hold) {
      assert Unreleased(events, n, handle);
    }
    if OnLedger(events[..n], handle, hold) && events[n].op != DoRelease(handle) {
      var i: nat :| Took(events[..n], i, handle, hold) && Unreleased(events[..n], i, handle);
      TookBefore(events, i, handle, hold);
    }
  }

  /** While handles are fresh, the table holds exactly what the run took and has not released. */
  lemma {:induction false} TableIsLedger(events: seq<Event>, handle: string, hold: Hold)
    requires TakesFreshHandles(events)
    ensures handle in Run(events) && Run(events)[handle] == hold <==> OnLedger(events, handle, hold)
  {
    if events == [] {
    } else {
      var n := |events| - 1;
      var before, last := Run(events[..n]), events[n];
      TableIsLedger(events[..n], handle, hold);
      LedgerByRow(events, handle, hold);
      if !Mints(events, handle) {
        StepElsewhere(before, last, handle, 0);
      }
    }
  }

  /** So a coin is held exactly while some reserve of the run that took it is neither released nor lapsed. */
  lemma HeldIsOutstanding(events: seq<Event>, now: nat, coin: string)
    requires TakesFreshHandles(events)
    ensures coin in HeldCoins(Run(events), now)
       <==> exists handle, hold :: OnLedger(events, handle, hold) && IsLive(hold, now) && coin in hold.coins
  {
    var table := Run(events);
    if coin in HeldCoins(table, now) {
      var h :| h in table && IsLive(table[h], now) && coin in table[h].coins;
      TableIsLedger(events, h, table[h]);
    }
    forall handle, hold | OnLedger(events, handle, hold) && IsLive(hold, now) && coin in hold.coins
      ensures coin in HeldCoins(table, now)
    {
      TableIsLedger(events, handle, hold);
    }
  }

  /**
    Releasing a hold the run took and has not released: it answers with the coins handed out, frees them
    if the expiry handed out is still ahead and otherwise nothing, and a repeat finds no row.
   */
  lemma ReleaseOverRuns(events: seq<Event>, now: nat, handle: string, hold: Hold)
    requires TakesFreshHandles(events) && ClockNeverGoesBack(events, now) && OnLedger(events, handle, hold)
    ensures var (after, r) := Release(Run(events), handle);
            && r == ReleaseResult(true, hold.coins)
            && HeldCoins(after, now)
               == HeldCoins(Run(events), now) - (if hold.expires > now then set c | c in hold.coins else {})
            && Release(after, handle) == (after, ReleaseResult(false, []))
  {
    TableIsLedger(events, handle, hold);
    NoCoinIsHeldTwice(events, now);
    ReleaseFreesOneRow(Run(events), handle);
    ReleaseFreesExactly(Run(events), handle, now);
  }

  /** The handle names a hold of the run that has not been released and has not lapsed. */
  ghost predicate NamesLive(events: seq<Event>, handle: string, now: nat) {
    exists hold :: OnLedger(events, handle, hold) && IsLive(hold, now)
  }

  ghost predicate NamesLapsed(events: seq<Event>, handle: string, now: nat) {
    exists hold :: OnLedger(events, handle, hold) && !IsLive(hold, now)
  }

  /** When `released` says what it is documented to say: exactly when the handle's hold has not lapsed. */
  lemma ReleaseTellsLiveness(events: seq<Event>, now: nat, handle: string)
    requires TakesFreshHandles(events)
    ensures var r := Release(Run(events), handle).1;
            && ((r.released <==> NamesLive(events, handle, now)) <==> !NamesLapsed(events, handle, now))
            && (!r.released ==> !NamesLive(events, handle, now))
  {
    var table := Run(events);
    if handle in table {
      TableIsLedger(events, handle, table[handle]);
    }
    forall hold | OnLedger(events, handle, hold)
      ensures handle in table && table[handle] == hold
    {
      TableIsLedger(events, handle, hold);
    }
  }

  // ----- exactly when the table keeps what the run took -----

  /** Every reserve that succeeded wrote over a row that held nothing, or over none. */
  predicate OverwritesNothingHeld(events: seq<Event>) {
    events == [] || (OverwritesNothingHeld(events[..|events| - 1]) && WritesOverNothingHeld(events))
  }

  predicate WritesOverNothingHeld(events: seq<Event>)
    requires events != []
  {
    var n := |events| - 1;
    Reserves(events, n) ==> HoldsNothing(Run(events[..n]), Handle(|Run(events[..n])| + 1), events[n].at)
  }

  /** The run took this coin under this handle, and that hold is neither released nor lapsed. */
  ghost predicate IsOutstanding(events: seq<Event>, handle: string, coin: string, now: nat) {
    exists hold :: OnLedger(events, handle, hold) && IsLive(hold, now) && coin in hold.coins
  }

  /** The table holds exactly the outstanding coins, each under its own handle. */
  ghost predicate RowsAreOutstanding(events: seq<Event>, now: nat) {
    forall handle, coin :: coin in CoinsUnder(Run(events), handle, now) <==> IsOutstanding(events, handle, coin, now)
  }

  /** The table holds exactly the outstanding coins, under whatever handle. */
  ghost predicate HeldAreOutstanding(events: seq<Event>, now: nat) {
    forall coin :: coin in HeldCoins(Run(events), now) <==> exists handle :: IsOutstanding(events, handle, coin, now)
  }

  ghost predicate AlwaysRowsAreOutstanding(events: seq<Event>) {
    forall k: nat, now: nat ::
      k <= |events| && ClockNeverGoesBack(events[..k], now) ==> RowsAreOutstanding(events[..k], now)
  }

  ghost predicate AlwaysHeldAreOutstanding(events: seq<Event>) {
    forall k: nat, now: nat ::
      k <= |events| && ClockNeverGoesBack(events[..k], now) ==> HeldAreOutstanding(events[..k], now)
  }

  predicate HasRow(table: Table, handle: string, hold: Hold) {
    handle in table && table[handle] == hold
  }

  /** This call is a success that takes this handle. */
  predicate MintsAt(table: Table, e: Event, handle: string) {
    Succeeds(table, e) && handle == Handle(|table| + 1)
  }

  /** The last call of the run was. */
  predicate Mints(events: seq<Event>, handle: string) {
    events != [] && MintsAt(Run(events[..|events| - 1]), events[|events| - 1], handle)
  }

  /** A call leaves every row it neither mints nor releases, and what that row holds. */
  lemma StepElsewhere(table: Table, e: Event, handle: string, now: nat)
    requires !MintsAt(table, e, handle)
    ensures forall hold :: HasRow(Step(table, e), handle, hold)
                      <==> HasRow(table, handle, hold) && e.op != DoRelease(handle)
    ensures forall coin :: coin in CoinsUnder(Step(table, e), handle, now)
                      <==> coin in CoinsUnder(table, handle, now) && e.op != DoRelease(handle)
  {
    if e.op.DoReserve? && Reserve(table, e.at, e.op.params).1.Ok? {
      ReserveWrites(table, e.at, e.op.params);
    }
  }

  /** What a call hands out is the row it writes. */
  lemma TakesItsRow(table: Table, e: Event, handle: string, hold: Hold)
    ensures Takes(table, e, handle, hold) <==> MintsAt(table, e, handle) && HasRow(Step(table, e), handle, hold)
  {
    if Succeeds(table, e) {
      ReserveWrites(table, e.at, e.op.params);
    }
  }

  lemma LedgerByRow(events: seq<Event>, handle: string, hold: Hold)
    ensures events != [] ==>
              var n := |events| - 1;
              (OnLedger(events, handle, hold)
               <==> (Mints(events, handle) && HasRow(Run(events), handle, hold))
                    || (OnLedger(events[..n], handle, hold) && events[n].op != DoRelease(handle)))
  {
    if events == [] {
    } else {
      LedgerStep(events, handle, hold);
      TakesItsRow(Run(events[..|events| - 1]), events[|events| - 1], handle, hold);
    }
  }

  lemma OutstandingStep(events: seq<Event>, handle: string, coin: string, now: nat)
    ensures events != [] ==>
              var n := |events| - 1;
              (IsOutstanding(events, handle, coin, now)
               <==> (Mints(events, handle) && coin in CoinsUnder(Run(events), handle, now))
                    || (IsOutstanding(events[..n], handle, coin, now) && events[n].op != DoRelease(handle)))
  {
    if events == [] {
    } else if IsOutstanding(events, handle, coin, now) {
      var hold :| OnLedger(events, handle, hold) && IsLive(hold, now) && coin in hold.coins;
      LedgerByRow(events, handle, hold);
    } else if Mints(events, handle) && coin in CoinsUnder(Run(events), handle, now) {
      LedgerByRow(events, handle, Run(events)[handle]);
    } else if IsOutstanding(events[..|events| - 1], handle, coin, now) {
      var hold :| OnLedger(events[..|events| - 1], handle, hold) && IsLive(hold, now) && coin in hold.coins;
      LedgerByRow(events, handle, hold);
    }
  }

  /** A handle that held nothing when it was minted had nothing outstanding, then or later. */
  lemma NothingWasOutstanding(events: seq<Event>, handle: string, coin: string, at: nat, now: nat)
    requires RowsAreOutstanding(events, at) && HoldsNothing(Run(events), handle, at) && at <= now
    ensures !IsOutstanding(events, handle, coin, now)
  {
    NothingUnder(Run(events), handle, at);
    if IsOutstanding(events, handle, coin, now) {
      var hold :| OnLedger(events, handle, hold) && IsLive(hold, now) && coin in hold.coins;
      assert IsOutstanding(events, handle, coin, at);
      assert false;
    }
  }

  lemma {:induction false} RowsStayOutstanding(events: seq<Event>, now: nat)
    requires ClockNeverGoesBack(events, now) && OverwritesNothingHeld(events)
    ensures RowsAreOutstanding(events, now)
  {
    if events == [] {
    } else {
      var n := |events| - 1;
      var at := events[n].at;
      ClockBefore(events, now);
      ClockLater(events[..n], at, now);
      RowsStayOutstanding(events[..n], now);
      RowsStayOutstanding(events[..n], at);
      forall handle, coin
        ensures coin in CoinsUnder(Run(events), handle, now) <==> IsOutstanding(events, handle, coin, now)
      {
        OutstandingStep(events, handle, coin, now);
        if Mints(events, handle) {
          NothingWasOutstanding(events[..n], handle, coin, at, now);
        } else {
          StepElsewhere(Run(events[..n]), events[n], handle, now);
        }
      }
    }
  }

  lemma RowsThenHeld(events: seq<Event>, now: nat)
    requires RowsAreOutstanding(events, now)
    ensures HeldAreOutstanding(events, now)
  {
    var table := Run(events);
    forall coin
      ensures coin in HeldCoins(table, now) <==> exists handle :: IsOutstanding(events, handle, coin, now)
    {
      if coin in HeldCoins(table, now) {
        var h :| h in table && IsLive(table[h], now) && coin in table[h].coins;
        assert coin in CoinsUnder(table, h, now);
      }
      forall handle | IsOutstanding(events, handle, coin, now)
        ensures coin in HeldCoins(table, now)
      {
        assert coin in CoinsUnder(table, handle, now);
      }
    }
  }

  /** A success that drops a held coin leaves a coin outstanding and not held. */
  lemma DroppedIsOutstanding(events: seq<Event>)
    requires events != [] && ClockNeverGoesBack(events, events[|events| - 1].at)
    requires HeldAreOutstanding(events[..|events| - 1], events[|events| - 1].at)
    requires HeldAreOutstanding(events, events[|events| - 1].at)
    ensures WritesOverNothingHeld(events)
  {
    var n := |events| - 1;
    var before, at := Run(events[..n]), events[n].at;
    ClockBefore(events, at);
    NoCoinIsHeldTwice(events[..n], at);
    if Reserves(events, n) {
      ReserveDropsNothing(before, at, events[n].op.params);
      forall coin | coin in HeldCoins(before, at)
        ensures coin in HeldCoins(Run(events), at)
      {
        var handle :| IsOutstanding(events[..n], handle, coin, at);
        OutstandingStep(events, handle, coin, at);
      }
    }
  }

  lemma AlwaysHeldBefore(events: seq<Event>, now: nat)
    requires events != [] && ClockNeverGoesBack(events, now) && AlwaysHeldAreOutstanding(events)
    ensures var n := |events| - 1;
            && AlwaysHeldAreOutstanding(events[..n])
            && HeldAreOutstanding(events[..n], events[n].at) && HeldAreOutstanding(events, events[n].at)
            && ClockNeverGoesBack(events, events[n].at) && ClockNeverGoesBack(events[..n], events[n].at)
  {
    var n := |events| - 1;
    ClockBefore(events, now);
    forall k: nat, t: nat | k <= n && ClockNeverGoesBack(events[..n][..k], t)
      ensures HeldAreOutstanding(events[..n][..k], t)
    {
      assert events[..n][..k] == events[..k];
    }
    assert events[..|events|] == events && ClockNeverGoesBack(events, events[n].at);
  }

  lemma {:induction false} HeldThenOverwritesNothing(events: seq<Event>, now: nat)
    requires ClockNeverGoesBack(events, now) && AlwaysHeldAreOutstanding(events)
    ensures OverwritesNothingHeld(events)
  {
    if events == [] {
    } else {
      var n := |events| - 1;
      AlwaysHeldBefore(events, now);
      HeldThenOverwritesNothing(events[..n], events[n].at);
      DroppedIsOutstanding(events);
    }
  }

  lemma {:induction false} OverwritesNothingBefore(events: seq<Event>, k: nat)
    requires OverwritesNothingHeld(events) && k <= |events|
    ensures OverwritesNothingHeld(events[..k])
  {
    if k == |events| {
      assert events[..k] == events;
    } else {
      OverwritesNothingBefore(events[..|events| - 1], k);
      assert events[..|events| - 1][..k] == events[..k];
    }
  }

  /**
    When live holds are kept, over every run whose clock does not go back: at every point of it and every
    later instant the table holds exactly what is outstanding, coin by coin and handle by handle, if and
    only if no success ever wrote over a row that still held something.
   */
  lemma OutstandingIsKept(events: seq<Event>, now: nat)
    requires ClockNeverGoesBack(events, now)
    ensures AlwaysRowsAreOutstanding(events) <==> OverwritesNothingHeld(events)
    ensures AlwaysHeldAreOutstanding(events) <==> OverwritesNothingHeld(events)
  {
    if OverwritesNothingHeld(events) {
      forall k: nat, t: nat | k <= |events| && ClockNeverGoesBack(events[..k], t)
        ensures RowsAreOutstanding(events[..k], t)
      {
        OverwritesNothingBefore(events, k);
        RowsStayOutstanding(events[..k], t);
      }
    }
    if AlwaysRowsAreOutstanding(events) {
      forall k: nat, t: nat | k <= |events| && ClockNeverGoesBack(events[..k], t)
        ensures HeldAreOutstanding(events[..k], t)
      {
        RowsThenHeld(events[..k], t);
      }
    }
    if AlwaysHeldAreOutstanding(events) {
      HeldThenOverwritesNothing(events, now);
    }
  }

  /** A success under a fresh handle writes over nothing. */
  lemma {:induction false} FreshOverwritesNothing(events: seq<Event>)
    requires TakesFreshHandles(events)
    ensures OverwritesNothingHeld(events)
  {
    if events == [] {
    } else {
      FreshOverwritesNothing(events[..|events| - 1]);
    }
  }

  // ----- exactly when the table is the ledger, lapsed and empty holds included -----

  /** Every success that found a row under its handle found the very row it wrote. */
  predicate OverwritesOnlyItself(events: seq<Event>) {
    events == [] || (OverwritesOnlyItself(events[..|events| - 1]) && WritesOverItself(events))
  }

  predicate WritesOverItself(events: seq<Event>)
    requires events != []
  {
    var before := Run(events[..|events| - 1]);
    forall handle :: handle in before && Mints(events, handle) ==> HasRow(Run(events), handle, before[handle])
  }

  ghost predicate IsLedger(events: seq<Event>) {
    forall handle, hold :: HasRow(Run(events), handle, hold) <==> OnLedger(events, handle, hold)
  }

  ghost predicate AlwaysLedger(events: seq<Event>) {
    forall k: nat :: k <= |events| ==> IsLedger(events[..k])
  }

  lemma LedgerRow(events: seq<Event>, handle: string, hold: Hold)
    ensures events != [] && IsLedger(events[..|events| - 1]) ==>
              var before := Run(events[..|events| - 1]);
              ((HasRow(Run(events), handle, hold) <==> OnLedger(events, handle, hold))
               <==> (Mints(events, handle) && HasRow(before, handle, hold) ==> HasRow(Run(events), handle, hold)))
  {
    if events == [] {
    } else {
      LedgerByRow(events, handle, hold);
      if !Mints(events, handle) {
        StepElsewhere(Run(events[..|events| - 1]), events[|events| - 1], handle, 0);
      }
    }
  }

  lemma LedgerKept(events: seq<Event>)
    requires events != [] && IsLedger(events[..|events| - 1])
    ensures IsLedger(events) <==> WritesOverItself(events)
  {
    var before := Run(events[..|events| - 1]);
    forall handle, hold
      ensures (HasRow(Run(events), handle, hold) <==> OnLedger(events, handle, hold))
         <==> (Mints(events, handle) && HasRow(before, handle, hold) ==> HasRow(Run(events), handle, hold))
    {
      LedgerRow(events, handle, hold);
    }
    if IsLedger(events) {
      forall handle | handle in before && Mints(events, handle)
        ensures HasRow(Run(events), handle, before[handle])
      {
        assert HasRow(before, handle, before[handle]);
      }
    }
  }

  lemma AlwaysLedgerStep(events: seq<Event>)
    requires events != []
    ensures var before := events[..|events| - 1];
            && (AlwaysLedger(events) <==> AlwaysLedger(before) && IsLedger(events))
            && (AlwaysLedger(before) ==> IsLedger(before))
  {
    var before := events[..|events| - 1];
    assert forall k: nat :: k <= |before| ==> before[..k] == events[..k];
    assert events[..|events|] == events && before[..|before|] == before;
  }

  /** The table is the whole ledger, at every point of a run, exactly under that condition. */
  lemma {:induction false} LedgerThroughout(events: seq<Event>)
    ensures AlwaysLedger(events) <==> OverwritesOnlyItself(events)
  {
    if events == [] {
      assert forall k: nat :: k <= |events| ==> events[..k] == [];
    } else {
      LedgerThroughout(events[..|events| - 1]);
      AlwaysLedgerStep(events);
      if AlwaysLedger(events[..|events| - 1]) {
        LedgerKept(events);
      }
    }
  }

  // ----- a release repeated later -----

  /** Some hold was taken under the handle and has not been released. */
  ghost predicate IsUnreleased(events: seq<Event>, handle: string) {
    exists hold :: OnLedger(events, handle, hold)
  }

  lemma UnreleasedStep(events: seq<Event>, handle: string)
    ensures events != [] && !Mints(events, handle) ==>
              var n := |events| - 1;
              (IsUnreleased(events, handle)
               <==> IsUnreleased(events[..n], handle) && events[n].op != DoRelease(handle))
  {
    if events == [] || Mints(events, handle) {
    } else if IsUnreleased(events, handle) {
      var hold :| OnLedger(events, handle, hold);
      LedgerByRow(events, handle, hold);
    } else if IsUnreleased(events[..|events| - 1], handle) {
      var hold :| OnLedger(events[..|events| - 1], handle, hold);
      LedgerByRow(events, handle, hold);
    }
  }

  lemma MintedIsUnreleased(events: seq<Event>, handle: string)
    ensures Mints(events, handle) ==> handle in Run(events) && IsUnreleased(events, handle)
  {
    if Mints(events, handle) {
      ReserveWrites(Run(events[..|events| - 1]), events[|events| - 1].at, events[|events| - 1].op.params);
      LedgerByRow(events, handle, Run(events)[handle]);
    }
  }

  lemma StepKeepsHandle(table: Table, e: Event, handle: string)
    requires !MintsAt(table, e, handle)
    ensures handle in Step(table, e) <==> handle in table && e.op != DoRelease(handle)
  {
    if Succeeds(table, e) {
      ReserveWrites(table, e.at, e.op.params);
    }
  }

  /** In any run, a handle has a row exactly while some hold taken under it has not been released. */
  lemma {:induction false} RowIsUnreleased(events: seq<Event>, handle: string)
    ensures handle in Run(events) <==> IsUnreleased(events, handle)
  {
    if events == [] {
    } else {
      RowIsUnreleased(events[..|events| - 1], handle);
      if Mints(events, handle) {
        MintedIsUnreleased(events, handle);
      } else {
        UnreleasedStep(events, handle);
        StepKeepsHandle(Run(events[..|events| - 1]), events[|events| - 1], handle);
      }
    }
  }

  /** Call `i` of the run was a success that took this handle. */
  predicate TakesHandle(events: seq<Event>, i: nat, handle: string) {
    i < |events| && MintsAt(Run(events[..i]), events[i], handle)
  }

  lemma TookItsHandle(run: seq<Event>, i: nat, handle: string)
    ensures TakesHandle(run, i, handle) <==> exists hold :: Took(run, i, handle, hold)
  {
    if TakesHandle(run, i, handle) {
      var table := Run(run[..i]);
      ReserveWrites(table, run[i].at, run[i].op.params);
      assert Took(run, i, handle, HoldOf(Reserve(table, run[i].at, run[i].op.params).1.value));
    } else if hold :| Took(run, i, handle, hold) {
      TakesItsRow(Run(run[..i]), run[i], handle, hold);
    }
  }

  ghost predicate TakenSince(run: seq<Event>, since: nat, handle: string) {
    exists i: nat :: i > since && TakesHandle(run, i, handle) && Unreleased(run, i, handle)
  }

  lemma UnreleasedSince(run: seq<Event>, since: nat, handle: string)
    requires since < |run| && run[since].op == DoRelease(handle)
    ensures IsUnreleased(run, handle) <==> TakenSince(run, since, handle)
  {
    if IsUnreleased(run, handle) {
      var hold :| OnLedger(run, handle, hold);
      var i: nat :| Took(run, i, handle, hold) && Unreleased(run, i, handle);
      TookItsHandle(run, i, handle);
      assert i > since;
    } else if TakenSince(run, since, handle) {
      var i: nat :| i > since && TakesHandle(run, i, handle) && Unreleased(run, i, handle);
      TookItsHandle(run, i, handle);
      var hold :| Took(run, i, handle, hold);
      assert OnLedger(run, handle, hold);
    }
  }

  /**
    What a release finds after an earlier one of the same handle and any calls since: a row exactly when
    one of those calls took the handle again and none after it released it. Otherwise it does nothing.
   */
  lemma RepeatedRelease(events: seq<Event>, at: nat, handle: string, later: seq<Event>)
    ensures var run := events + [Event(at, DoRelease(handle))] + later;
            var (after, r) := Release(Run(run), handle);
            && (r.released <==> TakenSince(run, |events|, handle))
            && (!r.released ==> after == Run(run) && r.coin_ids == [])
  {
    var run := events + [Event(at, DoRelease(handle))] + later;
    assert run[|events|] == Event(at, DoRelease(handle));
    RowIsUnreleased(run, handle);
    UnreleasedSince(run, |events|, handle);
  }

  /** So, with no release of it in between, a repeat finds nothing exactly while no success took the handle again. */
  lemma RepeatFindsNothing(events: seq<Event>, at: nat, handle: string, later: seq<Event>)
    requires forall e :: e in later ==> e.op != DoRelease(handle)
    ensures var run := events + [Event(at, DoRelease(handle))] + later;
            !Release(Run(run), handle).1.released
            <==> forall i: nat :: i > |events| ==> !TakesHandle(run, i, handle)
  {
    var run := events + [Event(at, DoRelease(handle))] + later;
    RepeatedRelease(events, at, handle, later);
    forall i: nat | i > |events|
      ensures Unreleased(run, i, handle)
    {
      NotReleasedSince(events + [Event(at, DoRelease(handle))], later, handle, i);
    }
  }

  lemma NotReleasedSince(earlier: seq<Event>, later: seq<Event>, handle: string, i: nat)
    requires i >= |earlier| && forall e :: e in later ==> e.op != DoRelease(handle)
    ensures Unreleased(earlier + later, i, handle)
  {
    forall j | i < j < |earlier + later|
      ensures (earlier + later)[j].op != DoRelease(handle)
    {
      assert (earlier + later)[j] == later[j - |earlier|] && later[j - |earlier|] in later;
    }
  }


  // ----- newest-first runs -----

  lemma {:induction false} NewestFirstIsFresh(events: seq<Event>)
    requires ReleasesNewestFirst(events)
    ensures TakesFreshHandles(events)
  {
    if events == [] {
    } else {
      NewestFirstIsFresh(events[..|events| - 1]);
      HandlesStayDense(events[..|events| - 1]);
    }
  }

  /**
    One step outside the discipline. After a disciplined run, release any one row: the handle minted next
    is fresh exactly when that row was the newest. Otherwise it is the newest row's own handle.
   */
  lemma OutOfOrderReleaseOverwrites(events: seq<Event>, k: nat)
    requires ReleasesNewestFirst(events) && 1 <= k <= |Run(events)|
    ensures var table := Run(events);
            var after := Release(table, Handle(k)).0;
            && Handle(k) in table
            && Handle(|after| + 1) == Handle(|table|)
            && (Handle(|after| + 1) in after <==> k != |table|)
  {
    HandlesStayDense(events);
    DenseRelease(Run(events), k);
  }

  lemma DenseRelease(table: Table, k: nat)
    requires table.Keys == FirstHandles(|table|) && 1 <= k <= |table|
    ensures var after := Release(table, Handle(k)).0;
            && Handle(k) in table
            && |after| + 1 == |table|
            && (Handle(|table|) in after <==> k != |table|)
  {
    var after := Release(table, Handle(k)).0;
    FirstHandlesCounted(|table|);
    assert after.Keys == table.Keys - {Handle(k)};
    assert |after.Keys| == |after|;
    if Handle(k) == Handle(|table|) {
      HandleInjective(k, |table|);
    }
  }

  /** What overwriting costs: a live hold that was neither released nor lapsed stops holding its coins. */
  lemma OverwriteDropsALiveHold(events: seq<Event>, k: nat, now: nat, params: ReserveParams, coin: string)
    requires ClockNeverGoesBack(events, now) && ReleasesNewestFirst(events)
    requires 1 <= k < |Run(events)|
    requires var newest := Handle(|Run(events)|);
             newest in Run(events) && IsLive(Run(events)[newest], now) && coin in Run(events)[newest].coins
    requires var after := Release(Run(events), Handle(k)).0;
             Reserve(after, now, params).1.Ok? && coin !in Reserve(after, now, params).1.value.coin_ids
    ensures var after := Release(Run(events), Handle(k)).0;
            coin in HeldCoins(after, now) && coin !in HeldCoins(Reserve(after, now, params).0, now)
  {
    var table := Run(events);
    var newest := Handle(|table|);
    var after := Release(table, Handle(k)).0;
    OutOfOrderReleaseOverwrites(events, k);
    NoCoinIsHeldTwice(events, now);
    assert newest in after by {
      if Handle(k) == newest {
        HandleInjective(k, |table|);
      }
    }
    ReserveTakesAll(after, now, params);
    var end := Reserve(after, now, params).0;
    forall h | h in end && IsLive(end[h], now)
      ensures coin !in end[h].coins
    {
      assert h != newest ==> h in table && end[h] == table[h];
    }
  }

  /** And the table no longer is the ledger: that hold was taken, never released, and has no row. */
  lemma OverwriteBreaksTheLedger(events: seq<Event>, k: nat, at: nat, params: ReserveParams, hold: Hold)
    requires ReleasesNewestFirst(events) && 1 <= k < |Run(events)|
    requires var newest := Handle(|Run(events)|); newest in Run(events) && Run(events)[newest] == hold
    requires var after := Release(Run(events), Handle(k)).0;
             Reserve(after, at, params).1.Ok? && Reserve(after, at, params).1.value.coin_ids != hold.coins
    ensures var newest := Handle(|Run(events)|);
            var run := events + [Event(at, DoRelease(Handle(k)))] + [Event(at, DoReserve(params))];
            OnLedger(run, newest, hold) && !(newest in Run(run) && Run(run)[newest] == hold)
  {
    var newest := Handle(|Run(events)|);
    var released := events + [Event(at, DoRelease(Handle(k)))];
    var run := released + [Event(at, DoReserve(params))];
    NewestFirstIsFresh(events);
    TableIsLedger(events, newest, hold);
    if Handle(k) == newest {
      HandleInjective(k, |Run(events)|);
    }
    assert released[..|events|] == events && run[..|released|] == released;
    LedgerStep(released, newest, hold);
    LedgerStep(run, newest, hold);
    var after := Run(released);
    assert after == Release(Run(events), Handle(k)).0;
    OutOfOrderReleaseOverwrites(events, k);
    ReserveTakesAll(after, at, params);
  }

  // ----- a lapsed row, released -----

  function Coin(digit: char): string {
    seq(64, _ => digit)
  }

  function CoinA(): string {
    Coin('a')
  }

  /** Hold a coin for ten seconds, let that lapse, and hold it again. */
  function HeldAgain(): seq<Event> {
    var again := ReserveParams([CoinA()], None);
    [Event(1000, DoReserve(again.(ttl_secs := Some(10)))), Event(2000, DoReserve(again))]
  }

  /** Reserving one well-formed coin nobody holds. */
  lemma ReserveOne(table: Table, now: nat, digit: char, ttl: Option<u64>)
    requires 'a' <= digit <= 'f' && Coin(digit) !in HeldCoins(table, now)
    ensures Reserve(table, now, ReserveParams([Coin(digit)], ttl)).0
         == table[Handle(|table| + 1) := Hold([Coin(digit)], now + AppliedTtl(ttl))]
    ensures Reserve(table, now, ReserveParams([Coin(digit)], ttl)).1.Ok?
    ensures Reserve(table, now, ReserveParams([Coin(digit)], ttl)).1.value.coin_ids == [Coin(digit)]
  {
    var coin := Coin(digit);
    NormalizeAccepts(coin, COIN_ID_HEX_LEN, coin);
    NormalizeAllAccepts([coin], COIN_ID_HEX_LEN, [coin]);
    assert SpellsEach([coin], COIN_ID_HEX_LEN, [coin]);
    FirstInFinds([coin], HeldCoins(table, now));
  }

  lemma HeldAgainTable()
    ensures Run(HeldAgain())
         == map[Handle(1) := Hold([CoinA()], 1010), Handle(2) := Hold([CoinA()], 2300)]
  {
    var events := HeldAgain();
    assert events[..1] == [events[0]] && events[..1][..0] == [];
    ReserveOne(map[], 1000, 'a', Some(10));
    var one := Run(events[..1]);
    assert one == Step(Run([]), events[0]);
    assert one == map[Handle(1) := Hold([CoinA()], 1010)];
    assert one.Keys == {Handle(1)} && |one| == 1;
    ReserveOne(one, 2000, 'a', None);
  }

  /**
    `release` answers from the table, not from liveness: here it reports success for a lapsed handle
    and names a coin that another, live reservation holds before and after.
   */
  lemma ReleaseOfALapsedHandle()
    ensures var table := Run(HeldAgain());
            var (after, r) := Release(table, Handle(1));
            && Handle(1) in table && !IsLive(table[Handle(1)], 2000)
            && r == ReleaseResult(true, [CoinA()])
            && CoinA() in HeldCoins(table, 2000) && CoinA() in HeldCoins(after, 2000)
  {
    HeldAgainTable();
    if Handle(1) == Handle(2) {
      HandleInjective(1, 2);
    }
    var table := Run(HeldAgain());
    var after := Release(table, Handle(1)).0;
    assert Handle(2) in table && Handle(2) in after && CoinA() in table[Handle(2)].coins;
  }

  /** The clock condition is needed too: read this table at an earlier instant and one coin is held twice. */
  lemma ClockMustNotGoBack()
    ensures !Exclusive(Run(HeldAgain()), 1005)
  {
    HeldAgainTable();
    if Handle(1) == Handle(2) {
      HandleInjective(1, 2);
    }
    var table := Run(HeldAgain());
    assert IsLive(table[Handle(1)], 1005) && IsLive(table[Handle(2)], 1005);
    assert CoinA() in table[Handle(1)].coins && CoinA() in table[Handle(2)].coins;
  }

  /** Then clear the lapsed handle away and hold another coin. */
  function LapsedThenCleared(): seq<Event> {
    HeldAgain() + [Event(2000, DoRelease(Handle(1)))]
      + [Event(2000, DoReserve(ReserveParams([Coin('b')], None)))]
  }

  lemma HeldAgainIsDisciplined()
    ensures ReleasesNewestFirst(HeldAgain()) && ClockNeverGoesBack(HeldAgain(), 2000)
    ensures |Run(HeldAgain())| == 2
    ensures Handle(2) in Run(HeldAgain()) && Run(HeldAgain())[Handle(2)] == Hold([CoinA()], 2300)
  {
    var events := HeldAgain();
    assert events[..1] == [events[0]] && events[..1][..0] == [];
    HeldAgainTable();
    if Handle(1) == Handle(2) {
      HandleInjective(1, 2);
    }
    assert Run(events).Keys == {Handle(1), Handle(2)};
  }

  /** The second call drops a live hold: its coin was held, was never released, and is held no longer. */
  lemma ALiveHoldIsDropped()
    ensures var run := LapsedThenCleared();
            && CoinA() in HeldCoins(Run(run[..3]), 2000)
            && CoinA() !in HeldCoins(Run(run), 2000)
            && OnLedger(run, Handle(2), Hold([CoinA()], 2300))
            && Handle(2) in Run(run) && Run(run)[Handle(2)] == Hold([Coin('b')], 2300)
  {
    var events, run, params := HeldAgain(), LapsedThenCleared(), ReserveParams([Coin('b')], None);
    HeldAgainIsDisciplined();
    HeldAgainTable();
    assert CoinA()[0] != Coin('b')[0];
    var after := Release(Run(events), Handle(1)).0;
    assert after.Keys == Run(events).Keys - {Handle(1)};
    assert Coin('b') !in HeldCoins(after, 2000);
    ReserveOne(after, 2000, 'b', None);
    OutOfOrderReleaseOverwrites(events, 1);
    OverwriteDropsALiveHold(events, 1, 2000, params, CoinA());
    OverwriteBreaksTheLedger(events, 1, 2000, params, Hold([CoinA()], 2300));
    assert run[..3] == events + [Event(2000, DoRelease(Handle(1)))] && run[..3][..2] == events;
  }

  // ----- a handle, released twice -----

  /** Hold a coin, release it, and hold another: both holds are handed the same handle. */
  function HandedOutAgain(): seq<Event> {
    [Event(1000, DoReserve(ReserveParams([CoinA()], None))), Event(1000, DoRelease(Handle(1))),
     Event(1000, DoReserve(ReserveParams([Coin('b')], None)))]
  }

  lemma HandedOutAgainTable()
    ensures Run(HandedOutAgain()) == map[Handle(1) := Hold([Coin('b')], 1300)]
    ensures Run(HandedOutAgain()[..2]) == map[]
    ensures Run(HandedOutAgain()[..1]) == map[Handle(1) := Hold([CoinA()], 1300)]
  {
    var events := HandedOutAgain();
    assert events[..2][..1] == events[..1] == [events[0]] && events[..1][..0] == [];
    ReserveOne(map[], 1000, 'a', None);
    assert Run(events[..1]) == Step(Run([]), events[0]);
    assert Run(events[..2]) == map[];
    ReserveOne(map[], 1000, 'b', None);
  }

  /** A second release of the first hold's handle, in a newest-first run, frees the second hold. */
  lemma RepeatFreesAnotherHold()
    ensures var run := HandedOutAgain();
            var (after, r) := Release(Run(run), Handle(1));
            && ReleasesNewestFirst(run)
            && r == ReleaseResult(true, [Coin('b')])
            && Coin('b') in HeldCoins(Run(run), 1000) && HeldCoins(after, 1000) == {}
  {
    var run := HandedOutAgain();
    HandedOutAgainTable();
    assert run[..2][..1] == run[..1] && run[..1][..0] == [];
    assert ReleasesNewestFirst(run[..1]);
    assert Run(run[..1]).Keys == {Handle(1)} && |Run(run[..1])| == 1;
    assert ReleasesNewestFirst(run[..2]);
    assert Handle(1) in Run(run) && Coin('b') in Run(run)[Handle(1)].coins;
    assert Release(Run(run), Handle(1)).0 == map[];
  }
}
