/**
  The two cursor-paged coin reads, and what a client that resumes from each page's cursor is handed
  in the end. A row is its coin id; the set behind a read is the ascending list the node holds.
 */
module CoinPaging {
  import opened Wrappers
  import opened Text
  import opened Identifiers
  import opened Assets
  import opened Requests

  datatype Page = Page(coins: seq<string>, complete: bool, cursor: Option<string>)

  predicate AtMost(id: string, after: Option<string>) {
    after.Some? && (Less(id, after.value) || id == after.value)
  }

  /** `skip_while` the row is at or before the cursor. */
  function SkipPast(ids: seq<string>, after: Option<string>): seq<string> {
    if ids != [] && AtMost(ids[0], after) then SkipPast(ids[1..], after) else ids
  }

  function Take(ids: seq<string>, n: nat): seq<string> {
    if |ids| <= n then ids else ids[..n]
  }

  /** One page: `limit + 1` rows are fetched, so completeness is read off the row beyond the page. */
  function ReadPage(ids: seq<string>, after: Option<string>, limit: nat): Page {
    var page := Take(SkipPast(ids, after), limit + 1);
    var coins := Take(page, limit);
    Page(coins, |page| <= limit, if coins == [] then None else Some(coins[|coins| - 1]))
  }

  function WalletCoins(held: seq<string>, params: WalletCoinsParams): Page {
    ReadPage(held, params.after_coin_id, EffectiveLimit(params.limit))
  }

  type Lineage = map<string, seq<string>>

  /** A parent the node knows nothing about has no children. */
  function Known(children: Lineage, parent: string): seq<string> {
    if parent in children then children[parent] else []
  }

  function WalletCoinsByParent(children: Lineage, params: WalletCoinsByParentParams): Page {
    ReadPage(Known(children, params.parent_coin_id), params.after_coin_id, EffectiveLimit(params.limit))
  }

  // ----- a walk: read, resume from the cursor, stop when a page says it is complete -----

  /** What one read of a walk meets: the set the node holds at that moment, and the page size asked. */
  datatype Served = Served(ids: seq<string>, limit: nat)

  function Walk(sets: seq<Served>, after: Option<string>): (pages: seq<Page>)
    ensures |pages| <= |sets|
  {
    if sets == [] then [] else
      var page := ReadPage(sets[0].ids, after, sets[0].limit);
      if page.complete then [page] else [page] + Walk(sets[1..], page.cursor)
  }

  function Emitted(pages: seq<Page>): seq<string> {
    if pages == [] then [] else pages[0].coins + Emitted(pages[1..])
  }

  predicate Finished(pages: seq<Page>) {
    pages != [] && pages[|pages| - 1].complete
  }

  ghost predicate WellFormed(sets: seq<Served>) {
    forall r :: r in sets ==> Ascending(r.ids) && r.limit >= 1
  }

  // ----- one page -----

  /** On an ascending set, skipping drops exactly the rows at or before the cursor. */
  lemma {:induction false} SkipPastKeepsLater(ids: seq<string>, after: Option<string>)
    requires Ascending(ids)
    ensures Ascending(SkipPast(ids, after))
    ensures forall x :: x in SkipPast(ids, after) <==> x in ids && !AtMost(x, after)
  {
    if ids == [] {
    } else if AtMost(ids[0], after) {
      SkipPastKeepsLater(ids[1..], after);
      assert forall x :: x in ids <==> x == ids[0] || x in ids[1..];
    } else if after.Some? {
      forall x | x in ids
        ensures !AtMost(x, after)
      {
        var i :| 0 <= i < |ids| && ids[i] == x;
        if AtMost(x, after) && i > 0 {
          assert Less(ids[0], ids[i]);
          if Less(x, after.value) {
            LessTransitive(ids[0], x, after.value);
          }
        }
      }
    }
  }

  /**
    One page of an ascending set, for any cursor, whether or not the cursor's own row is still there:
    the page is the first `limit` rows after the cursor, and nothing lies between its rows.
   */
  lemma PageMeaning(ids: seq<string>, after: Option<string>, limit: nat)
    requires Ascending(ids)
    ensures var p := ReadPage(ids, after, limit);
            && Ascending(p.coins)
            && |p.coins| <= limit
            && (forall x :: x in p.coins ==> x in ids && !AtMost(x, after))
            && (p.complete ==> forall x :: x in ids && !AtMost(x, after) ==> x in p.coins)
            && (!p.complete ==> |p.coins| == limit)
            && (p.cursor.None? <==> p.coins == [])
            && (p.cursor.Some? ==>
                  && p.cursor.value == p.coins[|p.coins| - 1]
                  && forall x :: x in ids && !AtMost(x, after) && AtMost(x, p.cursor) ==> x in p.coins)
  {
    SkipPastKeepsLater(ids, after);
    var rest := SkipPast(ids, after);
    var p := ReadPage(ids, after, limit);
    assert p.coins == Take(rest, limit);
    if p.cursor.Some? {
      var last := |p.coins| - 1;
      forall x | x in rest && AtMost(x, p.cursor)
        ensures x in p.coins
      {
        var i :| 0 <= i < |rest| && rest[i] == x;
        if i > last {
          assert Less(rest[last], rest[i]);
          LessAsymmetric(rest[last], x);
        }
        assert p.coins[i] == x;
      }
    }
  }

  /**
    A page's rows never tell whether it is whole: every truncated page, from any set and cursor, is row
    for row and cursor for cursor the complete page of some other set.
   */
  lemma TruncatedPageLooksWhole(ids: seq<string>, after: Option<string>, limit: nat)
    requires Ascending(ids) && !ReadPage(ids, after, limit).complete
    ensures var cut := ReadPage(ids, after, limit);
            Ascending(cut.coins) && ReadPage(cut.coins, after, limit) == cut.(complete := true)
  {
    PageMeaning(ids, after, limit);
    var coins := ReadPage(ids, after, limit).coins;
    assert coins != [] ==> coins[0] in coins;
    assert SkipPast(coins, after) == coins;
  }

  // ----- a page, without mention of how it is cut -----

  /** The ids strictly after the cursor; all of them when there is none. */
  function Behind(ids: seq<string>, after: Option<string>): set<string> {
    set x | x in ids && (after.Some? ==> Less(after.value, x))
  }

  /** The page is the least ids behind the cursor, as many as fit, and complete when that is all of them. */
  ghost predicate IsPageOf(page: Page, ids: seq<string>, after: Option<string>, size: nat) {
    var behind := Behind(ids, after);
    && Ascending(page.coins)
    && |page.coins| == (if |behind| <= size then |behind| else size)
    && (forall x :: x in page.coins ==> x in behind)
    && (forall x, y :: x in page.coins && y in behind && y !in page.coins ==> Less(x, y))
    && (page.complete <==> |behind| <= size)
    && page.cursor == if page.coins == [] then None else Some(page.coins[|page.coins| - 1])
  }

  lemma {:induction false} SizeOfAscending(ids: seq<string>)
    requires Ascending(ids)
    ensures |(set x | x in ids)| == |ids|
  {
    if ids == [] {
    } else {
      var n := |ids| - 1;
      SizeOfAscending(ids[..n]);
      if ids[n] in ids[..n] {
        var i :| 0 <= i < n && ids[i] == ids[n];
        AscendingDistinct(ids, i, n);
      }
      assert (set x | x in ids) == (set x | x in ids[..n]) + {ids[n]};
    }
  }

  lemma BehindIsSkipped(ids: seq<string>, after: Option<string>)
    requires Ascending(ids)
    ensures Behind(ids, after) == (set x | x in SkipPast(ids, after))
    ensures |Behind(ids, after)| == |SkipPast(ids, after)|
  {
    SkipPastKeepsLater(ids, after);
    SizeOfAscending(SkipPast(ids, after));
    forall x | x in ids
      ensures !AtMost(x, after) <==> (after.Some? ==> Less(after.value, x))
    {
      if after.Some? {
        LessTotal(x, after.value);
        if Less(after.value, x) {
          LessAsymmetric(after.value, x);
        }
      }
    }
    assert Behind(ids, after) == (set x | x in SkipPast(ids, after));
  }

  lemma PageAnswers(ids: seq<string>, after: Option<string>, size: nat)
    requires Ascending(ids)
    ensures IsPageOf(ReadPage(ids, after, size), ids, after, size)
  {
    var page, rest := ReadPage(ids, after, size), SkipPast(ids, after);
    BehindIsSkipped(ids, after);
    SkipPastKeepsLater(ids, after);
    assert page.coins == Take(rest, size);
    forall x, y | x in page.coins && y in Behind(ids, after) && y !in page.coins
      ensures Less(x, y)
    {
      var i :| 0 <= i < |page.coins| && page.coins[i] == x;
      var j :| 0 <= j < |rest| && rest[j] == y;
      assert j >= |page.coins|;
      assert rest[i] == x && Less(rest[i], rest[j]);
    }
  }

  /** What `control.wallet.coins` answers: the page asked for, or 100 rows. */
  lemma CoinsAnswers(held: seq<string>, params: WalletCoinsParams)
    requires Ascending(held)
    ensures IsPageOf(WalletCoins(held, params), held, params.after_coin_id,
                     if params.limit.Some? then params.limit.value else 100)
  {
    PageAnswers(held, params.after_coin_id, if params.limit.Some? then params.limit.value else 100);
  }

  /** What `control.wallet.coinsByParent` answers: the same of the parent's children, none if it is not known. */
  lemma ByParentAnswers(children: Lineage, params: WalletCoinsByParentParams)
    requires params.parent_coin_id in children ==> Ascending(children[params.parent_coin_id])
    ensures IsPageOf(WalletCoinsByParent(children, params),
                     if params.parent_coin_id in children then children[params.parent_coin_id] else [],
                     params.after_coin_id, if params.limit.Some? then params.limit.value else 100)
  {
    PageAnswers(if params.parent_coin_id in children then children[params.parent_coin_id] else [],
                params.after_coin_id, if params.limit.Some? then params.limit.value else 100);
  }

  // ----- a walk over a changing set -----

  lemma FirstThen(page: Page, later: seq<Page>)
    ensures Emitted([page] + later) == page.coins + Emitted(later)
    ensures Finished([page] + later) <==> if later == [] then page.complete else Finished(later)
  {
    assert ([page] + later)[1..] == later;
  }

  lemma FirstPage(sets: seq<Served>, after: Option<string>)
    requires sets != []
    ensures var first := ReadPage(sets[0].ids, after, sets[0].limit);
            var later := if first.complete then [] else Walk(sets[1..], first.cursor);
            && Emitted(Walk(sets, after)) == first.coins + Emitted(later)
            && (Finished(Walk(sets, after)) <==> first.complete || Finished(later))
  {
    var first := ReadPage(sets[0].ids, after, sets[0].limit);
    if first.complete {
      FirstThen(first, []);
      assert [first] + [] == [first];
    } else {
      FirstThen(first, Walk(sets[1..], first.cursor));
    }
  }

  lemma WellFormedParts(sets: seq<Served>)
    requires WellFormed(sets) && sets != []
    ensures Ascending(sets[0].ids) && sets[0].limit >= 1 && WellFormed(sets[1..])
  {
    assert sets[0] in sets && forall s :: s in sets[1..] ==> s in sets;
  }

  /** A page and whatever ascends from its cursor ascend together, behind the page's own start. */
  lemma PageAscends(ids: seq<string>, after: Option<string>, limit: nat, later: seq<string>)
    requires Ascending(ids) && limit >= 1 && Ascending(later)
    requires var page := ReadPage(ids, after, limit);
             if page.complete then later == [] else forall x :: x in later ==> !AtMost(x, page.cursor)
    ensures var all := ReadPage(ids, after, limit).coins + later;
            Ascending(all) && forall x :: x in all ==> !AtMost(x, after)
  {
    var page := ReadPage(ids, after, limit);
    PageMeaning(ids, after, limit);
    if page.complete {
      assert page.coins + [] == page.coins;
    } else {
      LaterPagesFollow(page, later, after);
    }
  }

  /** The walk hands over strictly ascending ids, all of them behind where it started. */
  lemma {:induction false} WalkAscends(sets: seq<Served>, after: Option<string>)
    requires WellFormed(sets)
    ensures Ascending(Emitted(Walk(sets, after)))
    ensures forall x :: x in Emitted(Walk(sets, after)) ==> !AtMost(x, after)
  {
    if sets == [] {
    } else {
      var first := ReadPage(sets[0].ids, after, sets[0].limit);
      WellFormedParts(sets);
      FirstPage(sets, after);
      if first.complete {
        PageAscends(sets[0].ids, after, sets[0].limit, []);
      } else {
        WalkAscends(sets[1..], first.cursor);
        PageAscends(sets[0].ids, after, sets[0].limit, Emitted(Walk(sets[1..], first.cursor)));
      }
    }
  }

  /** Each page's rows were in the set that page was read from. */
  lemma {:induction false} WalkIsSound(sets: seq<Served>, after: Option<string>, i: nat)
    requires WellFormed(sets) && i < |Walk(sets, after)|
    ensures forall x :: x in Walk(sets, after)[i].coins ==> x in sets[i].ids
  {
    var first := ReadPage(sets[0].ids, after, sets[0].limit);
    WellFormedParts(sets);
    PageMeaning(sets[0].ids, after, sets[0].limit);
    if i == 0 {
      assert Walk(sets, after)[0] == first;
    } else {
      var later := Walk(sets[1..], first.cursor);
      WalkIsSound(sets[1..], first.cursor, i - 1);
      assert Walk(sets, after) == [first] + later && Walk(sets, after)[i] == later[i - 1];
      assert sets[1..][i - 1] == sets[i];
    }
  }

  /** A finished walk has handed over every id that was in every set it read. */
  lemma {:induction false} WalkIsComplete(sets: seq<Served>, after: Option<string>, x: string)
    requires WellFormed(sets) && Finished(Walk(sets, after)) && !AtMost(x, after)
    requires forall i :: 0 <= i < |Walk(sets, after)| ==> x in sets[i].ids
    ensures x in Emitted(Walk(sets, after))
  {
    var first := ReadPage(sets[0].ids, after, sets[0].limit);
    WellFormedParts(sets);
    PageMeaning(sets[0].ids, after, sets[0].limit);
    FirstPage(sets, after);
    assert x in sets[0].ids;
    if first.complete || AtMost(x, first.cursor) {
    } else {
      var later := Walk(sets[1..], first.cursor);
      forall i | 0 <= i < |later|
        ensures x in sets[1..][i].ids
      {
        assert sets[1..][i] == sets[i + 1];
      }
      WalkIsComplete(sets[1..], first.cursor, x);
    }
  }

  lemma LaterPagesFollow(first: Page, later: seq<string>, after: Option<string>)
    requires Ascending(first.coins) && Ascending(later)
    requires first.coins != [] && first.cursor == Some(first.coins[|first.coins| - 1])
    requires forall x :: x in first.coins ==> !AtMost(x, after)
    requires forall x :: x in later ==> !AtMost(x, first.cursor)
    ensures Ascending(first.coins + later)
    ensures forall x :: x in first.coins + later ==> !AtMost(x, after)
  {
    var cursor := first.cursor.value;
    forall i, j | 0 <= i < |first.coins| && 0 <= j < |later|
      ensures Less(first.coins[i], later[j])
    {
      assert !AtMost(later[j], first.cursor);
      LessTotal(cursor, later[j]);
      if i < |first.coins| - 1 {
        LessTransitive(first.coins[i], cursor, later[j]);
      }
    }
    forall x | x in later
      ensures !AtMost(x, after)
    {
      var j :| 0 <= j < |later| && later[j] == x;
      assert Less(first.coins[0], later[j]);
      assert !AtMost(first.coins[0], after);
      if AtMost(x, after) && Less(x, after.value) {
        LessTransitive(first.coins[0], x, after.value);
      }
    }
  }

  /**
    A walk over a changing set, as a client sees it. Each page may be read from a different set and
    with a different page size, and the cursor's own row may be gone by then; an id that was in every
    set read has been handed over exactly once when the walk finishes.
   */
  lemma WalkLosesNothing(sets: seq<Served>, x: string)
    requires WellFormed(sets)
    requires Finished(Walk(sets, None))
    requires forall i :: 0 <= i < |Walk(sets, None)| ==> x in sets[i].ids
    ensures multiset(Emitted(Walk(sets, None)))[x] == 1
  {
    WalkAscends(sets, None);
    WalkIsComplete(sets, None, x);
    OccursOnce(Emitted(Walk(sets, None)), x);
  }

  lemma {:induction false} OccursOnce(ids: seq<string>, x: string)
    requires Ascending(ids)
    ensures multiset(ids)[x] == if x in ids then 1 else 0
  {
    if ids == [] {
    } else {
      OccursOnce(ids[1..], x);
      assert ids == [ids[0]] + ids[1..];
      if ids[0] in ids[1..] {
        var j :| 0 <= j < |ids[1..]| && ids[1..][j] == ids[0];
        AscendingDistinct(ids, 0, j + 1);
      }
    }
  }

  // ----- a walk over a set that does not change -----

  /** The first `k` reads of a walk over a set that stays as it is. */
  function StaticWalk(ids: seq<string>, limit: nat, after: Option<string>, k: nat): seq<Page>
    decreases k
  {
    if k == 0 then [] else
      var page := ReadPage(ids, after, limit);
      if page.complete then [page] else [page] + StaticWalk(ids, limit, page.cursor, k - 1)
  }

  lemma {:induction false} StaticWalkIsWalk(sets: seq<Served>, ids: seq<string>, limit: nat, after: Option<string>)
    requires forall s :: s in sets ==> s == Served(ids, limit)
    ensures StaticWalk(ids, limit, after, |sets|) == Walk(sets, after)
  {
    if sets == [] {
    } else {
      assert forall s :: s in sets[1..] ==> s in sets;
      StaticWalkIsWalk(sets[1..], ids, limit, ReadPage(ids, after, limit).cursor);
      assert sets[0] in sets;
    }
  }

  /** How many pages `n` rows fill; an empty set is still one page. */
  function PageCount(n: nat, limit: nat): (count: nat)
    requires limit >= 1
  {
    if n <= limit then 1 else 1 + PageCount(n - limit, limit)
  }

  /** It is max(1, n / limit rounded up). */
  lemma {:induction false} PageCountIsCeiling(n: nat, limit: nat)
    requires limit >= 1
    ensures var count := PageCount(n, limit);
            count >= 1 && n <= count * limit && (count > 1 ==> (count - 1) * limit < n)
  {
    if n <= limit {
    } else {
      PageCountIsCeiling(n - limit, limit);
    }
  }

  /** The rows after a page's cursor are the rows the page left behind. */
  lemma FirstIsLeast(ids: seq<string>, x: string)
    requires ids != [] && Ascending(ids) && x in ids[1..]
    ensures Less(ids[0], x)
  {
    var j :| 0 <= j < |ids[1..]| && ids[1..][j] == x;
    assert Less(ids[0], ids[j + 1]);
  }

  /** A page with rows left behind it. */
  lemma FullPage(ids: seq<string>, after: Option<string>, limit: nat)
    requires 1 <= limit < |SkipPast(ids, after)|
    ensures var rest := SkipPast(ids, after);
            && ReadPage(ids, after, limit) == Page(rest[..limit], false, Some(rest[limit - 1]))
            && rest == rest[..limit] + rest[limit..]
  {
  }

  lemma {:induction false} ResumeExactly(ids: seq<string>, after: Option<string>, limit: nat)
    requires Ascending(ids) && 1 <= limit < |SkipPast(ids, after)|
    ensures SkipPast(ids, ReadPage(ids, after, limit).cursor) == SkipPast(ids, after)[limit..]
  {
    var rest := SkipPast(ids, after);
    FullPage(ids, after, limit);
    if AtMost(ids[0], after) {
      ResumeExactly(ids[1..], after, limit);
      SkipPastKeepsLater(ids[1..], after);
      FirstIsLeast(ids, rest[limit - 1]);
    } else {
      assert rest == ids;
      SkipToPosition(ids, 0, limit - 1);
    }
  }

  lemma {:induction false} SkipToPosition(ids: seq<string>, i: nat, k: nat)
    requires Ascending(ids) && i <= k < |ids|
    ensures SkipPast(ids[i..], Some(ids[k])) == ids[k + 1..]
    decreases k - i
  {
    assert ids[i..][0] == ids[i];
    assert ids[i..][1..] == ids[i + 1..];
    if i < k {
      SkipToPosition(ids, i + 1, k);
    } else if k + 1 < |ids| {
      assert ids[k + 1..][0] == ids[k + 1];
      LessAsymmetric(ids[k], ids[k + 1]);
    }
  }

  /** Every page but the last is full and says more rows remain; the last says it is complete. */
  predicate FullThenFinal(pages: seq<Page>, limit: nat) {
    && pages != []
    && if |pages| == 1 then pages[0].complete
       else !pages[0].complete && |pages[0].coins| == limit && FullThenFinal(pages[1..], limit)
  }

  /**
    A client that keeps asking is served exactly PageCount pages, every one full but the last, which
    alone says it is complete; together they are exactly the rows after where it started.
   */
  lemma {:induction false} StaticWalkTiles(ids: seq<string>, limit: nat, after: Option<string>, k: nat)
    requires Ascending(ids) && limit >= 1
    requires k >= PageCount(|SkipPast(ids, after)|, limit)
    ensures var pages := StaticWalk(ids, limit, after, k);
            && |pages| == PageCount(|SkipPast(ids, after)|, limit)
            && FullThenFinal(pages, limit)
            && Emitted(pages) == SkipPast(ids, after)
    decreases k
  {
    var skipped := SkipPast(ids, after);
    var first := ReadPage(ids, after, limit);
    assert first.complete <==> |skipped| <= limit;
    if first.complete {
    } else {
      FullPage(ids, after, limit);
      ResumeExactly(ids, after, limit);
      StaticWalkTiles(ids, limit, first.cursor, k - 1);
      var later := StaticWalk(ids, limit, first.cursor, k - 1);
      assert ([first] + later)[1..] == later;
    }
  }

  lemma {:induction false} FinalPageIsComplete(pages: seq<Page>, limit: nat)
    requires FullThenFinal(pages, limit)
    ensures Finished(pages)
  {
    if |pages| <= 1 {
    } else {
      FinalPageIsComplete(pages[1..], limit);
    }
  }

  lemma WholeWalkTiles(ids: seq<string>, limit: nat, k: nat)
    requires Ascending(ids) && limit >= 1 && k >= PageCount(|ids|, limit)
    ensures var pages := StaticWalk(ids, limit, None, k);
            && Finished(pages) && FullThenFinal(pages, limit)
            && |pages| == PageCount(|ids|, limit)
            && Emitted(pages) == ids
  {
    assert SkipPast(ids, None) == ids;
    StaticWalkTiles(ids, limit, None, k);
    FinalPageIsComplete(StaticWalk(ids, limit, None, k), limit);
  }

  /** Why a zero limit is refused: such a walk never finishes and is never handed a row. */
  lemma {:induction false} ZeroLimitNeverFinishes(ids: seq<string>, k: nat)
    requires ids != []
    ensures var pages := StaticWalk(ids, 0, None, k);
            |pages| == k && !Finished(pages) && Emitted(pages) == []
  {
    if k == 0 {
    } else {
      ZeroLimitNeverFinishes(ids, k - 1);
      var first := ReadPage(ids, None, 0);
      assert first == Page([], false, None) by { assert SkipPast(ids, None) == ids; }
      assert ([first] + StaticWalk(ids, 0, None, k - 1))[1..] == StaticWalk(ids, 0, None, k - 1);
    }
  }

  // ----- the two reads, request by request -----

  /** A client's walk: the same request again with `after_coin_id` set to the cursor it was handed. */
  function CoinsWalk(nodes: seq<seq<string>>, params: WalletCoinsParams): seq<Page>
    decreases nodes
  {
    if nodes == [] then [] else
      var page := WalletCoins(nodes[0], params);
      if page.complete then [page]
      else [page] + CoinsWalk(nodes[1..], params.(after_coin_id := page.cursor))
  }

  function ByParentWalk(nodes: seq<Lineage>, params: WalletCoinsByParentParams): seq<Page>
    decreases nodes
  {
    if nodes == [] then [] else
      var page := WalletCoinsByParent(nodes[0], params);
      if page.complete then [page]
      else [page] + ByParentWalk(nodes[1..], params.(after_coin_id := page.cursor))
  }

  function Serving(nodes: seq<seq<string>>, limit: nat): seq<Served> {
    if nodes == [] then [] else [Served(nodes[0], limit)] + Serving(nodes[1..], limit)
  }

  function ChildrenOf(nodes: seq<Lineage>, parent: string): seq<seq<string>> {
    if nodes == [] then [] else [Known(nodes[0], parent)] + ChildrenOf(nodes[1..], parent)
  }

  lemma {:induction false} CoinsWalkIsWalk(nodes: seq<seq<string>>, params: WalletCoinsParams)
    ensures CoinsWalk(nodes, params) == Walk(Serving(nodes, EffectiveLimit(params.limit)), params.after_coin_id)
    decreases nodes
  {
    if nodes == [] {
    } else {
      var page := WalletCoins(nodes[0], params);
      CoinsWalkIsWalk(nodes[1..], params.(after_coin_id := page.cursor));
    }
  }

  /** Both reads page by one rule: a by-parent walk is a coins walk of that parent's children. */
  lemma {:induction false} ByParentWalkIsCoinsWalk(nodes: seq<Lineage>, params: WalletCoinsByParentParams,
                                                   like: WalletCoinsParams)
    requires like.after_coin_id == params.after_coin_id && like.limit == params.limit
    ensures ByParentWalk(nodes, params) == CoinsWalk(ChildrenOf(nodes, params.parent_coin_id), like)
    decreases nodes
  {
    if nodes == [] {
    } else {
      var page := WalletCoinsByParent(nodes[0], params);
      ByParentWalkIsCoinsWalk(nodes[1..], params.(after_coin_id := page.cursor), like.(after_coin_id := page.cursor));
    }
  }

  lemma {:induction false} ServingMeaning(nodes: seq<seq<string>>, limit: nat)
    ensures |Serving(nodes, limit)| == |nodes|
    ensures forall i :: 0 <= i < |nodes| ==> Serving(nodes, limit)[i] == Served(nodes[i], limit)
  {
    if nodes == [] {
    } else {
      ServingMeaning(nodes[1..], limit);
    }
  }

  lemma PageSizeIsLegal(params: WalletCoinsParams)
    requires ValidatedCoins(params).Ok?
    ensures 1 <= EffectiveLimit(params.limit) <= COINS_BY_PARENT_MAX_LIMIT
  {
    CoinsRequest(params, ValidatedCoins(params).value);
  }

  /**
    From an accepted first request, over whatever sets the node holds as the walk goes on: when the
    walk finishes, every coin that was there throughout has been handed over exactly once.
   */
  lemma ClientLosesNothing(nodes: seq<seq<string>>, params: WalletCoinsParams, x: string)
    requires ValidatedCoins(params).Ok? && params.after_coin_id.None?
    requires forall n :: n in nodes ==> Ascending(n) && x in n
    requires Finished(CoinsWalk(nodes, params))
    ensures Ascending(Emitted(CoinsWalk(nodes, params)))
    ensures multiset(Emitted(CoinsWalk(nodes, params)))[x] == 1
  {
    var limit := EffectiveLimit(params.limit);
    PageSizeIsLegal(params);
    CoinsWalkIsWalk(nodes, params);
    ServingMeaning(nodes, limit);
    WalkAscends(Serving(nodes, limit), None);
    WalkLosesNothing(Serving(nodes, limit), x);
  }

  /** And over a set that stays as it is, the walk does finish, having handed over exactly that set. */
  lemma AcceptedRequestsFinish(params: WalletCoinsParams, held: seq<string>, k: nat)
    requires ValidatedCoins(params).Ok? && params.after_coin_id.None? && Ascending(held)
    requires k >= PageCount(|held|, 1)
    ensures var pages := CoinsWalk(seq(k, _ => held), params);
            && Finished(pages)
            && |pages| == PageCount(|held|, if params.limit.Some? then params.limit.value else 100)
            && Emitted(pages) == held
  {
    var limit, nodes := EffectiveLimit(params.limit), seq(k, _ => held);
    PageSizeIsLegal(params);
    PageCountAtOne(|held|, limit);
    CoinsWalkIsWalk(nodes, params);
    ServingMeaning(nodes, limit);
    StaticWalkIsWalk(Serving(nodes, limit), held, limit, None);
    WholeWalkTiles(held, limit, k);
  }

  lemma {:induction false} ChildrenOfMeaning(nodes: seq<Lineage>, parent: string)
    ensures |ChildrenOf(nodes, parent)| == |nodes|
    ensures forall i :: 0 <= i < |nodes| ==> ChildrenOf(nodes, parent)[i] == Known(nodes[i], parent)
  {
    if nodes == [] {
    } else {
      ChildrenOfMeaning(nodes[1..], parent);
    }
  }

  /** An accepted by-parent request, as the coins request that pages alike. */
  lemma LikeCoinsRequest(params: WalletCoinsByParentParams) returns (like: WalletCoinsParams)
    requires ValidatedByParent(params).Ok? && params.after_coin_id.None?
    ensures ValidatedCoins(like).Ok? && like.after_coin_id.None? && like.limit == params.limit
    ensures ValidatedByParent(params).value.after_coin_id.None?
    ensures ValidatedByParent(params).value.limit == params.limit
  {
    like := WalletCoinsParams("", Xch, None, params.limit);
    CoinsRequest(like, like);
    ByParentRequest(params, ValidatedByParent(params).value);
  }

  /** The same promise for a parent's children, whichever accepted spelling names the parent. */
  lemma ByParentLosesNothing(nodes: seq<Lineage>, params: WalletCoinsByParentParams, x: string)
    requires ValidatedByParent(params).Ok? && params.after_coin_id.None?
    requires forall n :: n in nodes ==>
               var parent := ValidatedByParent(params).value.parent_coin_id;
               parent in n && Ascending(n[parent]) && x in n[parent]
    requires Finished(ByParentWalk(nodes, ValidatedByParent(params).value))
    ensures var walk := ByParentWalk(nodes, ValidatedByParent(params).value);
            Ascending(Emitted(walk)) && multiset(Emitted(walk))[x] == 1
  {
    var valid := ValidatedByParent(params).value;
    var like := LikeCoinsRequest(params);
    var sets := ChildrenOf(nodes, valid.parent_coin_id);
    ChildrenOfMeaning(nodes, valid.parent_coin_id);
    ByParentWalkIsCoinsWalk(nodes, valid, like);
    forall n | n in sets
      ensures Ascending(n) && x in n
    {
      var i :| 0 <= i < |sets| && sets[i] == n;
      assert nodes[i] in nodes;
    }
    ClientLosesNothing(sets, like, x);
  }

  /** And over children that stay as they are it finishes with exactly those. */
  lemma ByParentRequestsFinish(params: WalletCoinsByParentParams, node: Lineage, k: nat)
    requires ValidatedByParent(params).Ok? && params.after_coin_id.None?
    requires var children := Known(node, ValidatedByParent(params).value.parent_coin_id);
             Ascending(children) && k >= PageCount(|children|, 1)
    ensures var valid := ValidatedByParent(params).value;
            var pages := ByParentWalk(seq(k, _ => node), valid);
            var children := if valid.parent_coin_id in node then node[valid.parent_coin_id] else [];
            && Finished(pages)
            && |pages| == PageCount(|children|, if params.limit.Some? then params.limit.value else 100)
            && Emitted(pages) == children
  {
    var valid := ValidatedByParent(params).value;
    var like := LikeCoinsRequest(params);
    var children, nodes := Known(node, valid.parent_coin_id), seq(k, _ => node);
    ChildrenOfMeaning(nodes, valid.parent_coin_id);
    assert ChildrenOf(nodes, valid.parent_coin_id) == seq(k, _ => children);
    ByParentWalkIsCoinsWalk(nodes, valid, like);
    AcceptedRequestsFinish(like, children, k);
  }

  /** Each request of such a walk is accepted: a page's cursor is a canonical id. */
  lemma CursorIsAccepted(params: WalletCoinsParams, held: seq<string>)
    requires ValidatedCoins(params).Ok?
    requires forall id :: id in held ==> IsHexId(id, COIN_ID_HEX_LEN)
    ensures var next := params.(after_coin_id := WalletCoins(held, params).cursor);
            ValidatedCoins(next) == Ok(next)
  {
    var next := params.(after_coin_id := WalletCoins(held, params).cursor);
    CoinsRequest(params, ValidatedCoins(params).value);
    SkipPastSubset(held, params.after_coin_id);
    CoinsRequest(next, next);
  }

  lemma {:induction false} SkipPastSubset(ids: seq<string>, after: Option<string>)
    ensures forall x :: x in SkipPast(ids, after) ==> x in ids
  {
    if ids == [] || !AtMost(ids[0], after) {
    } else {
      SkipPastSubset(ids[1..], after);
    }
  }

  lemma PageCountAtOne(n: nat, limit: nat)
    requires limit >= 1
    ensures PageCount(n, limit) <= PageCount(n, 1)
  {
    PageCountIsCeiling(n, limit);
    PageCountIsCeiling(n, 1);
  }
}
