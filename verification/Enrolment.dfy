/**
  The set of watched public keys: what `watch` and `unwatch` report, and how the reports add up. The
  counts cross the wire as `u32`, so they are exact modulo 2^32.
 */
module Enrolment {
  import opened Numerals

  datatype WatchResult = WatchResult(added: u32, watched: u32)

  datatype UnwatchResult = UnwatchResult(removed: u32, watched: u32)

  function KeySet(keys: seq<string>): set<string> {
    set k | k in keys
  }

  function Watch(enrolled: set<string>, keys: seq<string>): (set<string>, WatchResult) {
    var after := enrolled + KeySet(keys);
    (after, WatchResult(TruncateToU32(|KeySet(keys) - enrolled|), TruncateToU32(|after|)))
  }

  function Unwatch(enrolled: set<string>, keys: seq<string>): (set<string>, UnwatchResult) {
    var after := enrolled - KeySet(keys);
    (after, UnwatchResult(TruncateToU32(|KeySet(keys) * enrolled|), TruncateToU32(|after|)))
  }

  datatype Op = DoWatch(keys: seq<string>) | DoUnwatch(keys: seq<string>)

  function Run(enrolled: set<string>, ops: seq<Op>): set<string>
    decreases ops
  {
    if ops == [] then enrolled else
      match ops[0]
      case DoWatch(keys) => Run(Watch(enrolled, keys).0, ops[1..])
      case DoUnwatch(keys) => Run(Unwatch(enrolled, keys).0, ops[1..])
  }

  /** Everything reported added, less everything reported removed. */
  function Balance(enrolled: set<string>, ops: seq<Op>): int
    decreases ops
  {
    if ops == [] then 0 else
      match ops[0]
      case DoWatch(keys) =>
        var (after, r) := Watch(enrolled, keys);
        r.added + Balance(after, ops[1..])
      case DoUnwatch(keys) =>
        var (after, r) := Unwatch(enrolled, keys);
        Balance(after, ops[1..]) - r.removed
  }

  /** How many times a reported count of a run wrapped round, additions less removals. */
  function Wraps(enrolled: set<string>, ops: seq<Op>): int
    decreases ops
  {
    if ops == [] then 0 else
      match ops[0]
      case DoWatch(keys) =>
        |KeySet(keys) - enrolled| / 0x1_0000_0000 + Wraps(Watch(enrolled, keys).0, ops[1..])
      case DoUnwatch(keys) =>
        Wraps(Unwatch(enrolled, keys).0, ops[1..]) - |KeySet(keys) * enrolled| / 0x1_0000_0000
  }

  lemma Truncated(n: nat)
    ensures n == TruncateToU32(n) + 0x1_0000_0000 * (n / 0x1_0000_0000)
  {
  }

  /**
    Over any run the reported counts account for the set exactly, but for whole multiples of 2^32: one
    for each time a count wrapped.
   */
  lemma {:induction false} CountsBalance(enrolled: set<string>, ops: seq<Op>)
    ensures |Run(enrolled, ops)| - |enrolled| == Balance(enrolled, ops) + 0x1_0000_0000 * Wraps(enrolled, ops)
    decreases ops
  {
    if ops == [] {
    } else {
      match ops[0] {
        case DoWatch(keys) =>
          var after, gained := Watch(enrolled, keys).0, KeySet(keys) - enrolled;
          assert after == enrolled + gained;
          CountsBalance(after, ops[1..]);
          Truncated(|gained|);
        case DoUnwatch(keys) =>
          var after, lost := Unwatch(enrolled, keys).0, KeySet(keys) * enrolled;
          assert enrolled == after + lost;
          CountsBalance(after, ops[1..]);
          Truncated(|lost|);
      }
    }
  }

  /** No count can wrap while the requests stay below 2^32 keys. */
  lemma {:induction false} ShortRequestsNeverWrap(enrolled: set<string>, ops: seq<Op>)
    requires forall op :: op in ops ==> |op.keys| < 0x1_0000_0000
    ensures Wraps(enrolled, ops) == 0
    decreases ops
  {
    if ops == [] {
    } else {
      assert ops[0] in ops && forall op :: op in ops[1..] ==> op in ops;
      var keys := ops[0].keys;
      KeySetSize(keys);
      match ops[0] {
        case DoWatch(_) =>
          ShortRequestsNeverWrap(Watch(enrolled, keys).0, ops[1..]);
          SubsetSize(KeySet(keys) - enrolled, KeySet(keys));
        case DoUnwatch(_) =>
          ShortRequestsNeverWrap(Unwatch(enrolled, keys).0, ops[1..]);
          SubsetSize(KeySet(keys) * enrolled, KeySet(keys));
      }
    }
  }

  lemma {:induction false} KeySetSize(keys: seq<string>)
    ensures |KeySet(keys)| <= |keys|
  {
    if keys == [] {
    } else {
      var n := |keys| - 1;
      KeySetSize(keys[..n]);
      KeySetSnoc(keys, n);
      assert keys[..n + 1] == keys;
    }
  }

  lemma SubsetSize(small: set<string>, large: set<string>)
    requires small <= large
    ensures |small| <= |large|
  {
    assert large == small + (large - small);
  }

  lemma KeySetSnoc(keys: seq<string>, i: nat)
    requires i < |keys|
    ensures KeySet(keys[..i + 1]) == KeySet(keys[..i]) + {keys[i]}
  {
    assert keys[..i + 1] == keys[..i] + [keys[i]];
  }

  /** What inserting the next key of a request does to the set and to the count. */
  lemma InsertNext(enrolled: set<string>, keys: seq<string>, i: nat)
    requires i < |keys|
    ensures var seen, now := KeySet(keys[..i]), KeySet(keys[..i + 1]);
            && enrolled + now == (enrolled + seen) + {keys[i]}
            && |now - enrolled| == |seen - enrolled| + (if keys[i] in enrolled + seen then 0 else 1)
  {
    KeySetSnoc(keys, i);
    var seen, now := KeySet(keys[..i]), KeySet(keys[..i + 1]);
    if keys[i] in enrolled + seen {
      assert now - enrolled == seen - enrolled;
    } else {
      assert now - enrolled == (seen - enrolled) + {keys[i]};
    }
  }

  /** What removing the next key of a request does to the set and to the count. */
  lemma RemoveNext(enrolled: set<string>, keys: seq<string>, i: nat)
    requires i < |keys|
    ensures var seen, now := KeySet(keys[..i]), KeySet(keys[..i + 1]);
            && enrolled - now == (enrolled - seen) - {keys[i]}
            && |now * enrolled| == |seen * enrolled| + (if keys[i] in enrolled - seen then 1 else 0)
  {
    KeySetSnoc(keys, i);
    var seen, now := KeySet(keys[..i]), KeySet(keys[..i + 1]);
    if keys[i] in enrolled - seen {
      assert now * enrolled == (seen * enrolled) + {keys[i]};
    } else {
      assert now * enrolled == seen * enrolled;
    }
  }

  /** One call: which keys are watched after it, and that both counts are of sets, modulo 2^32. */
  lemma CallReports(enrolled: set<string>, keys: seq<string>)
    ensures var (after, r) := Watch(enrolled, keys);
            && (forall k :: k in after <==> k in enrolled || k in keys)
            && r.added == (|after| - |enrolled|) % 0x1_0000_0000 && r.watched == |after| % 0x1_0000_0000
    ensures var (after, r) := Unwatch(enrolled, keys);
            && (forall k :: k in after <==> k in enrolled && k !in keys)
            && r.removed == (|enrolled| - |after|) % 0x1_0000_0000 && r.watched == |after| % 0x1_0000_0000
  {
    assert Watch(enrolled, keys).0 == enrolled + (KeySet(keys) - enrolled);
    assert enrolled == Unwatch(enrolled, keys).0 + (KeySet(keys) * enrolled);
  }

  /** Re-sending an enrolment to `unwatch` undoes it exactly when none of its keys was there before. */
  lemma UnwatchReversesWatch(enrolled: set<string>, keys: seq<string>)
    ensures var (after, w) := Watch(enrolled, keys);
            var (restored, u) := Unwatch(after, keys);
            && (restored == enrolled <==> enrolled !! KeySet(keys))
            && (enrolled !! KeySet(keys) ==> u.removed == w.added)
            && Watch(after, keys) == (after, WatchResult(0, w.watched))
            && Unwatch(restored, keys) == (restored, UnwatchResult(0, u.watched))
  {
    var after := Watch(enrolled, keys).0;
    var restored := Unwatch(after, keys).0;
    assert restored == enrolled - KeySet(keys);
    assert after + KeySet(keys) == after && KeySet(keys) - after == {};
    assert restored - KeySet(keys) == restored && KeySet(keys) * restored == {};
    if enrolled !! KeySet(keys) {
      assert restored == enrolled;
      assert KeySet(keys) * after == KeySet(keys) - enrolled;
    } else {
      var k :| k in enrolled && k in KeySet(keys);
      assert k !in restored;
    }
  }
}
