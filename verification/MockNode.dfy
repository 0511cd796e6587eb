/**
  The reference node: an object holding the reservation table and the enrolled keys, whose methods
  update them in place. Each method is tied to the function of the old state that the run lemmas of
  `Reservations` and `Enrolment` are about.
 */
module MockNodes {
  import opened Wrappers
  import opened Text
  import opened Numerals
  import opened Requests
  import Reservations
  import Enrolment

  class MockNode {
    var reservations: Reservations.Table
    var enrolled: set<string>

    constructor ()
      ensures reservations == Reservations.Run([]) && enrolled == {}
    {
      reservations := map[];
      enrolled := {};
    }

    /** Inserts every key, counting the insertions that were new. */
    method WalletWatch(params: PublicKeysParams) returns (r: Enrolment.WatchResult)
      modifies this`enrolled
      ensures (enrolled, r) == Enrolment.Watch(old(enrolled), params.public_keys)
    {
      var keys, added := params.public_keys, 0;
      for i := 0 to |keys|
        invariant enrolled == old(enrolled) + Enrolment.KeySet(keys[..i])
        invariant added == |Enrolment.KeySet(keys[..i]) - old(enrolled)|
      {
        Enrolment.InsertNext(old(enrolled), keys, i);
        if keys[i] !in enrolled {
          added := added + 1;
        }
        enrolled := enrolled + {keys[i]};
      }
      assert keys[..|keys|] == keys;
      r := Enrolment.WatchResult(TruncateToU32(added), TruncateToU32(|enrolled|));
    }

    /** Removes every key, counting the removals that found one. */
    method WalletUnwatch(params: PublicKeysParams) returns (r: Enrolment.UnwatchResult)
      modifies this`enrolled
      ensures (enrolled, r) == Enrolment.Unwatch(old(enrolled), params.public_keys)
    {
      var keys, removed := params.public_keys, 0;
      for i := 0 to |keys|
        invariant enrolled == old(enrolled) - Enrolment.KeySet(keys[..i])
        invariant removed == |Enrolment.KeySet(keys[..i]) * old(enrolled)|
      {
        Enrolment.RemoveNext(old(enrolled), keys, i);
        if keys[i] in enrolled {
          removed := removed + 1;
        }
        enrolled := enrolled - {keys[i]};
      }
      assert keys[..|keys|] == keys;
      r := Enrolment.UnwatchResult(TruncateToU32(removed), TruncateToU32(|enrolled|));
    }

    method WalletWatched() returns (public_keys: seq<string>)
      ensures Ascending(public_keys)
      ensures forall k :: k in public_keys <==> k in enrolled
      ensures |public_keys| == |enrolled|
    {
      public_keys := InOrder(enrolled);
    }

    /** Lists the live rows in handle order, one entry per coin. */
    method WalletReservationsHeld(now: nat) returns (reserved: seq<Reservations.ReservedCoin>)
      ensures reserved == Reservations.HeldRows(reservations, InOrder(reservations.Keys), now)
    {
      var handles := InOrder(reservations.Keys);
      reserved := [];
      for i := 0 to |handles|
        invariant reserved == Reservations.HeldRows(reservations, handles[..i], now)
      {
        var hold := reservations[handles[i]];
        Reservations.HeldRowsNext(reservations, handles, i, now);
        if Reservations.IsLive(hold, now) {
          reserved := AppendCoins(reserved, handles[i], hold);
        }
      }
      assert handles[..|handles|] == handles;
    }

    method AppendCoins(reserved: seq<Reservations.ReservedCoin>, handle: string, hold: Reservations.Hold)
      returns (rows: seq<Reservations.ReservedCoin>)
      ensures rows == reserved + Reservations.RowsOf(handle, hold.coins, hold.expires)
    {
      rows := reserved;
      ghost var all := Reservations.RowsOf(handle, hold.coins, hold.expires);
      for j := 0 to |hold.coins|
        invariant rows == reserved + all[..j]
      {
        rows := rows + [Reservations.ReservedCoin(hold.coins[j], handle, hold.expires)];
      }
      assert all[..|all|] == all;
    }

    /** Every clash is looked for before anything is written. */
    method WalletReservationsReserve(now: nat, params: ReserveParams)
      returns (r: Result<Reservations.ReserveResult, ControlError>)
      modifies this`reservations
      ensures (reservations, r) == Reservations.Reserve(old(reservations), now, params)
    {
      var validated := ValidatedReserve(params);
      if validated.Err? {
        return Err(validated.error);
      }
      var valid := validated.value;
      var ttlSecs := Reservations.AppliedTtl(valid.ttl_secs);
      var held := Reservations.HeldCoins(reservations, now);
      for i := 0 to |valid.coin_ids|
        invariant forall j :: 0 <= j < i ==> valid.coin_ids[j] !in held
      {
        if valid.coin_ids[i] in held {
          FirstInAt(valid.coin_ids, held, i);
          return Err(Reservations.Conflict(valid.coin_ids[i]));
        }
      }
      Reservations.FirstInFinds(valid.coin_ids, held);
      var id := Reservations.Handle(|reservations| + 1);
      var expiresAtUnix := now + ttlSecs;
      reservations := reservations[id := Reservations.Hold(valid.coin_ids, expiresAtUnix)];
      r := Ok(Reservations.ReserveResult(id, valid.coin_ids, expiresAtUnix, ttlSecs));
    }

    lemma {:induction false} FirstInAt(ids: seq<string>, held: set<string>, i: nat)
      requires i < |ids| && ids[i] in held && forall j :: 0 <= j < i ==> ids[j] !in held
      ensures Reservations.FirstIn(ids, held) == Some(ids[i])
    {
      if i == 0 {
      } else {
        FirstInAt(ids[1..], held, i - 1);
      }
    }

    method WalletReservationsRelease(reservation_id: string) returns (r: Reservations.ReleaseResult)
      modifies this`reservations
      ensures (reservations, r) == Reservations.Release(old(reservations), reservation_id)
    {
      if reservation_id in reservations {
        var freed := reservations[reservation_id];
        reservations := reservations - {reservation_id};
        r := Reservations.ReleaseResult(true, freed.coins);
      } else {
        r := Reservations.ReleaseResult(false, []);
      }
    }
  }
}
