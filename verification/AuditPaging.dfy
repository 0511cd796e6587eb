/**
  `control.spends.list` as the reference node serves it: filter, resume after a row by its id, cut a
  page, and state completeness from what was withheld. The cursor is a position in the filtered
  record rather than a place in an order, which is what sets this walk apart from the coin walks.
 */
module AuditPaging {
  import opened Wrappers
  import opened Text
  import opened Numerals
  import opened Requests
  import CoinPaging

  /** Where a spend got to, without the evidence or the reason an outcome carries. */
  datatype SpendOutcome = Pending | Submitted | Confirmed | Failed | Unresolved

  function Token(outcome: SpendOutcome): string {
    match outcome
    case Pending => "pending"
    case Submitted => "submitted"
    case Confirmed => "confirmed"
    case Failed => "failed"
    case Unresolved => "unresolved"
  }

  function OutcomeOf(token: string): Option<SpendOutcome> {
    match token
    case "pending" => Some(Pending)
    case "submitted" => Some(Submitted)
    case "confirmed" => Some(Confirmed)
    case "failed" => Some(Failed)
    case "unresolved" => Some(Unresolved)
    case _ => None
  }

  /** Each outcome has a token of its own, and no other text is one. */
  lemma TokenNamesOutcome(token: string, outcome: SpendOutcome)
    ensures OutcomeOf(token) == Some(outcome) <==> Token(outcome) == token
  {
  }

  /** The fields of an audit row that a filter or a cursor reads. */
  datatype AutomatedSpend = AutomatedSpend(
    id: string, kind: string, status: SpendOutcome, store_id: Option<string>, initiated_ms: u64)

  datatype SpendsListParams = SpendsListParams(
    since_ms: Option<u64>, until_ms: Option<u64>, store_id: Option<string>, kind: Option<string>,
    status: Option<string>, after_id: Option<string>, limit: Option<u32>)

  datatype SpendsListResult = SpendsListResult(
    spends: seq<AutomatedSpend>, complete: bool, cursor: Option<string>, unreadable_lines: u32)

  const SPENDS_LIST_DEFAULT_LIMIT: u32 := 50
  const SPENDS_LIST_MAX_LIMIT: u32 := 500
  const SPENDS_LIST_LIMIT_ERROR: string := "limit must be between 1 and 500 spends per page"

  function EffectiveLimit(params: SpendsListParams): u32 {
    match params.limit
    case Some(n) => n
    case None => SPENDS_LIST_DEFAULT_LIMIT
  }

  function Validated(params: SpendsListParams): Result<SpendsListParams, ControlError> {
    if params.limit.Some? && (params.limit.value == 0 || params.limit.value > SPENDS_LIST_MAX_LIMIT) then
      Err(Invalid(SPENDS_LIST_LIMIT_ERROR))
    else
      Ok(params)
  }

  // ----- what a page is -----

  /** The filters the reference node applies. `store_id` is not one of them. */
  predicate Matches(row: AutomatedSpend, params: SpendsListParams) {
    && (params.status.Some? ==> Token(row.status) == params.status.value)
    && (params.kind.Some? ==> row.kind == params.kind.value)
    && (params.since_ms.Some? ==> row.initiated_ms >= params.since_ms.value)
    && (params.until_ms.Some? ==> row.initiated_ms < params.until_ms.value)
  }

  function Matching(record: seq<AutomatedSpend>, params: SpendsListParams): seq<AutomatedSpend> {
    if record == [] then []
    else (if Matches(record[0], params) then [record[0]] else []) + Matching(record[1..], params)
  }

  /** The rows behind the row named; none at all when no row has that id. */
  function RowsAfter(rows: seq<AutomatedSpend>, after: Option<string>): seq<AutomatedSpend> {
    if after.None? || rows == [] then rows
    else if rows[0].id == after.value then rows[1..]
    else RowsAfter(rows[1..], after)
  }

  /** Cutting a page off the rows that are left to serve. */
  function CutRest(rest: seq<AutomatedSpend>, limit: nat, unreadable: u32): SpendsListResult {
    var spends := if |rest| <= limit then rest else rest[..limit];
    SpendsListResult(spends, |rest| <= limit,
                     if spends == [] then None else Some(spends[|spends| - 1].id), unreadable)
  }

  /** One page of the matching rows. */
  function Cut(rows: seq<AutomatedSpend>, after: Option<string>, limit: nat, unreadable: u32): SpendsListResult {
    CutRest(RowsAfter(rows, after), limit, unreadable)
  }

  function Page(record: seq<AutomatedSpend>, params: SpendsListParams, unreadable: u32): SpendsListResult {
    Cut(Matching(record, params), params.after_id, EffectiveLimit(params), unreadable)
  }

  // ----- the node's own code, cutting one list down in place -----

  /** `Vec::retain`. */
  method Retain(rows: seq<AutomatedSpend>, keep: AutomatedSpend -> bool) returns (kept: seq<AutomatedSpend>)
    ensures kept == Kept(rows, keep)
  {
    kept := [];
    for i := 0 to |rows|
      invariant kept == Kept(rows[..i], keep)
    {
      assert rows[..i + 1][..i] == rows[..i];
      if keep(rows[i]) {
        kept := kept + [rows[i]];
      }
    }
    assert rows[..|rows|] == rows;
  }

  function Kept(rows: seq<AutomatedSpend>, keep: AutomatedSpend -> bool): seq<AutomatedSpend> {
    if rows == [] then [] else
      var last := rows[|rows| - 1];
      Kept(rows[..|rows| - 1], keep) + if keep(last) then [last] else []
  }

  /** The index of the first row with this id. */
  method IndexOf(rows: seq<AutomatedSpend>, id: string) returns (found: Option<nat>)
    ensures found.None? ==> forall i :: 0 <= i < |rows| ==> rows[i].id != id
    ensures found.Some? ==>
              && found.value < |rows| && rows[found.value].id == id
              && forall i :: 0 <= i < found.value ==> rows[i].id != id
  {
    for i := 0 to |rows|
      invariant forall j :: 0 <= j < i ==> rows[j].id != id
    {
      if rows[i].id == id {
        return Some(i);
      }
    }
    found := None;
  }

  /** The four filters, each cutting down what the one before it left. */
  method Filtered(record: seq<AutomatedSpend>, params: SpendsListParams) returns (rows: seq<AutomatedSpend>)
    ensures rows == Matching(record, params)
  {
    rows := record;
    ghost var applied := SpendsListParams(None, None, None, None, None, None, None);
    MatchingEverything(record, applied);
    if params.status.Some? {
      var wanted := params.status.value;
      var keep := (r: AutomatedSpend) => Token(r.status) == wanted;
      ghost var next := applied.(status := params.status);
      KeptNarrows(record, applied, keep, next);
      rows := Retain(rows, keep);
      applied := next;
    }
    if params.kind.Some? {
      var wanted := params.kind.value;
      var keep := (r: AutomatedSpend) => r.kind == wanted;
      ghost var next := applied.(kind := params.kind);
      KeptNarrows(record, applied, keep, next);
      rows := Retain(rows, keep);
      applied := next;
    }
    if params.since_ms.Some? {
      var wanted := params.since_ms.value;
      var keep := (r: AutomatedSpend) => r.initiated_ms >= wanted;
      ghost var next := applied.(since_ms := params.since_ms);
      KeptNarrows(record, applied, keep, next);
      rows := Retain(rows, keep);
      applied := next;
    }
    if params.until_ms.Some? {
      var wanted := params.until_ms.value;
      var keep := (r: AutomatedSpend) => r.initiated_ms < wanted;
      ghost var next := applied.(until_ms := params.until_ms);
      KeptNarrows(record, applied, keep, next);
      rows := Retain(rows, keep);
      applied := next;
    }
    MatchingSame(record, applied, params);
  }

  // ----- the same, without mention of the filters or the cut -----

  /** The row agrees with the request on everything the request names, of the four fields that are filtered. */
  predicate Agrees(row: AutomatedSpend, params: SpendsListParams) {
    && (params.status == None || params.status == Some(Token(row.status)))
    && (params.kind == None || params.kind == Some(row.kind))
    && (params.since_ms == None || params.since_ms.value <= row.initiated_ms)
    && (params.until_ms == None || row.initiated_ms < params.until_ms.value)
  }

  lemma {:induction false} MatchingConcatenation(a: seq<AutomatedSpend>, b: seq<AutomatedSpend>,
                                                 params: SpendsListParams)
    ensures Matching(a + b, params) == Matching(a, params) + Matching(b, params)
  {
    if a == [] {
      assert a + b == b;
    } else {
      MatchingConcatenation(a[1..], b, params);
      assert (a + b)[1..] == a[1..] + b;
    }
  }

  /** Each row of a record is served or not on its own account, in its own place, once for each time it stands there. */
  lemma RowIsServed(before: seq<AutomatedSpend>, row: AutomatedSpend, behind: seq<AutomatedSpend>,
                    params: SpendsListParams)
    ensures Matching(before + [row] + behind, params)
         == Matching(before, params) + (if Agrees(row, params) then [row] else []) + Matching(behind, params)
    ensures Matching([], params) == []
  {
    MatchingConcatenation(before + [row], behind, params);
    MatchingConcatenation(before, [row], params);
    assert [row][1..] == [];
  }

  /** What is left behind the first row of the cursor's id; everything without a cursor, nothing without such a row. */
  ghost predicate IsRest(rest: seq<AutomatedSpend>, rows: seq<AutomatedSpend>, after: Option<string>) {
    if after.None? then rest == rows
    else || (exists i ::
               && 0 <= i < |rows| && rows[i].id == after.value && rest == rows[i + 1..]
               && forall j :: 0 <= j < i ==> rows[j].id != after.value)
         || (rest == [] && forall row :: row in rows ==> row.id != after.value)
  }

  lemma {:induction false} RestOfRows(rows: seq<AutomatedSpend>, after: Option<string>)
    ensures IsRest(RowsAfter(rows, after), rows, after)
  {
    if after.None? || rows == [] {
    } else if rows[0].id == after.value {
      assert RowsAfter(rows, after) == rows[0 + 1..];
    } else {
      var tail := rows[1..];
      RestOfRows(tail, after);
      assert forall row :: row in rows <==> row == rows[0] || row in tail;
      if i :| && 0 <= i < |tail| && tail[i].id == after.value && RowsAfter(rows, after) == tail[i + 1..]
              && forall j :: 0 <= j < i ==> tail[j].id != after.value {
        assert rows[i + 1].id == after.value && RowsAfter(rows, after) == rows[i + 1 + 1..];
        assert forall j :: 0 < j < i + 1 ==> rows[j] == tail[j - 1];
      }
    }
  }

  /** The whole answer: the rows left behind the cursor, cut to the size asked for or 50, and what is said of them. */
  lemma PageAnswers(record: seq<AutomatedSpend>, params: SpendsListParams, unreadable: u32)
    ensures var page := Page(record, params, unreadable);
            var size := if params.limit.Some? then params.limit.value else 50;
            exists rest ::
              && IsRest(rest, Matching(record, params), params.after_id)
              && page.spends == (if |rest| <= size then rest else rest[..size])
              && (page.complete <==> |rest| <= size)
              && page.cursor == (if page.spends == [] then None else Some(page.spends[|page.spends| - 1].id))
              && page.unreadable_lines == unreadable
  {
    RestOfRows(Matching(record, params), params.after_id);
  }

  /** Which page sizes are accepted. Checking changes nothing. */
  lemma RequestAccepted(params: SpendsListParams)
    ensures Validated(params)
         == if params.limit.None? || 1 <= params.limit.value <= 500 then Ok(params)
            else Err(ControlError(InvalidParams, "limit must be between 1 and 500 spends per page"))
  {
  }

  method AuditPage(record: seq<AutomatedSpend>, params: SpendsListParams, unreadable: u32)
    returns (page: SpendsListResult)
    ensures page == Page(record, params, unreadable)
  {
    var rows := Filtered(record, params);
    if params.after_id.Some? {
      var found := IndexOf(rows, params.after_id.value);
      RowsAfterIndexOf(rows, params.after_id.value, found);
      match found {
        case Some(i) => rows := rows[i + 1..];
        case None => rows := [];
      }
    }
    assert rows == RowsAfter(Matching(record, params), params.after_id);
    ghost var rest := rows;
    var limit := EffectiveLimit(params);
    var complete := |rows| <= limit;
    if |rows| > limit {
      rows := rows[..limit];
    }
    page := SpendsListResult(rows, complete, if rows == [] then None else Some(rows[|rows| - 1].id), unreadable);
    assert page == CutRest(rest, limit, unreadable);
  }

  lemma {:induction false} MatchingEverything(record: seq<AutomatedSpend>, noFilter: SpendsListParams)
    requires forall r :: Matches(r, noFilter)
    ensures Matching(record, noFilter) == record
  {
    if record == [] {
    } else {
      MatchingEverything(record[1..], noFilter);
    }
  }

  lemma {:induction false} MatchingSame(record: seq<AutomatedSpend>, p: SpendsListParams, q: SpendsListParams)
    requires forall r :: r in record ==> (Matches(r, p) <==> Matches(r, q))
    ensures Matching(record, p) == Matching(record, q)
  {
    if record == [] {
    } else {
      assert forall r :: r in record[1..] ==> r in record;
      MatchingSame(record[1..], p, q);
    }
  }

  lemma {:induction false} KeptConcatenation(a: seq<AutomatedSpend>, b: seq<AutomatedSpend>,
                                             keep: AutomatedSpend -> bool)
    ensures Kept(a + b, keep) == Kept(a, keep) + Kept(b, keep)
  {
    if b == [] {
      assert a + b == a;
    } else {
      assert (a + b)[..|a + b| - 1] == a + b[..|b| - 1];
      KeptConcatenation(a, b[..|b| - 1], keep);
    }
  }

  /** Retaining by one more test is matching by one more filter. */
  lemma {:induction false} KeptNarrows(record: seq<AutomatedSpend>, p: SpendsListParams,
                                       keep: AutomatedSpend -> bool, q: SpendsListParams)
    requires forall r :: Matches(r, q) <==> Matches(r, p) && keep(r)
    ensures Kept(Matching(record, p), keep) == Matching(record, q)
  {
    if record == [] {
    } else {
      var head := if Matches(record[0], p) then [record[0]] else [];
      KeptNarrows(record[1..], p, keep, q);
      KeptConcatenation(head, Matching(record[1..], p), keep);
      assert Kept([record[0]], keep) == if keep(record[0]) then [record[0]] else [];
    }
  }

  lemma {:induction false} RowsAfterIndexOf(rows: seq<AutomatedSpend>, id: string, found: Option<nat>)
    requires found.None? ==> forall i :: 0 <= i < |rows| ==> rows[i].id != id
    requires found.Some? ==> found.value < |rows| && rows[found.value].id == id
                             && forall i :: 0 <= i < found.value ==> rows[i].id != id
    ensures RowsAfter(rows, Some(id)) == if found.Some? then rows[found.value + 1..] else []
  {
    if rows == [] || rows[0].id == id {
    } else {
      var tail := if found.Some? then Some(found.value - 1) else None;
      assert forall i :: 0 <= i < |rows| - 1 ==> rows[1..][i] == rows[i + 1];
      RowsAfterIndexOf(rows[1..], id, tail);
    }
  }

  // ----- a walk of the record -----

  ghost predicate DistinctIds(rows: seq<AutomatedSpend>) {
    rows == [] || ((forall r :: r in rows[1..] ==> r.id != rows[0].id) && DistinctIds(rows[1..]))
  }

  /** The first `k` reads of a walk that asks the same question again from each page's cursor. */
  function Walk(record: seq<AutomatedSpend>, params: SpendsListParams, k: nat): seq<SpendsListResult>
    decreases k
  {
    if k == 0 then [] else
      var page := Page(record, params, 0);
      if page.complete then [page] else [page] + Walk(record, params.(after_id := page.cursor), k - 1)
  }

  function WalkRows(rows: seq<AutomatedSpend>, after: Option<string>, limit: nat, k: nat): seq<SpendsListResult>
    decreases k
  {
    if k == 0 then [] else
      var page := Cut(rows, after, limit, 0);
      if page.complete then [page] else [page] + WalkRows(rows, page.cursor, limit, k - 1)
  }

  /** Moving the cursor changes no filter, so the whole walk is over one list of matching rows. */
  lemma {:induction false} WalkIsOverMatching(record: seq<AutomatedSpend>, params: SpendsListParams, k: nat)
    ensures Walk(record, params, k)
         == WalkRows(Matching(record, params), params.after_id, EffectiveLimit(params), k)
    decreases k
  {
    if k == 0 {
    } else {
      var next := params.(after_id := Page(record, params, 0).cursor);
      MatchingSame(record, params, next);
      WalkIsOverMatching(record, next, k - 1);
    }
  }

  function Emitted(pages: seq<SpendsListResult>): seq<AutomatedSpend> {
    if pages == [] then [] else pages[0].spends + Emitted(pages[1..])
  }

  predicate Finished(pages: seq<SpendsListResult>) {
    pages != [] && pages[|pages| - 1].complete
  }

  lemma FirstThen(page: SpendsListResult, later: seq<SpendsListResult>)
    ensures Emitted([page] + later) == page.spends + Emitted(later)
    ensures Finished([page] + later) <==> if later == [] then page.complete else Finished(later)
  {
    assert ([page] + later)[1..] == later;
  }

  lemma OnlyPage(page: SpendsListResult)
    ensures Emitted([page]) == page.spends && (Finished([page]) <==> page.complete)
  {
    FirstThen(page, []);
    assert [page] + [] == [page] && page.spends + [] == page.spends;
  }

  lemma {:induction false} MatchingMembers(record: seq<AutomatedSpend>, params: SpendsListParams)
    ensures forall r :: r in Matching(record, params) <==> r in record && Matches(r, params)
  {
    if record == [] {
    } else {
      MatchingMembers(record[1..], params);
      assert forall r :: r in record <==> r == record[0] || r in record[1..];
    }
  }

  lemma {:induction false} MatchingDistinct(record: seq<AutomatedSpend>, params: SpendsListParams)
    requires DistinctIds(record)
    ensures DistinctIds(Matching(record, params))
  {
    if record == [] {
    } else {
      MatchingDistinct(record[1..], params);
      MatchingMembers(record[1..], params);
      MatchingCons(record, params);
      var rest := Matching(record[1..], params);
      assert Matches(record[0], params) ==> ([record[0]] + rest)[1..] == rest;
    }
  }

  lemma MatchingCons(record: seq<AutomatedSpend>, params: SpendsListParams)
    requires record != []
    ensures Matching(record, params)
         == if Matches(record[0], params) then [record[0]] + Matching(record[1..], params)
            else Matching(record[1..], params)
  {
  }

  lemma {:induction false} RowsAfterIndex(rows: seq<AutomatedSpend>, i: nat)
    requires DistinctIds(rows) && i < |rows|
    ensures RowsAfter(rows, Some(rows[i].id)) == rows[i + 1..]
  {
    if i == 0 {
    } else {
      assert rows[1..][i - 1] == rows[i] && rows[i] in rows[1..];
      RowsAfterIndex(rows[1..], i - 1);
    }
  }

  lemma {:induction false} RowsAfterSubset(rows: seq<AutomatedSpend>, after: Option<string>)
    ensures forall r :: r in RowsAfter(rows, after) ==> r in rows
  {
    if after.None? || rows == [] {
    } else {
      RowsAfterSubset(rows[1..], after);
    }
  }

  /** The rows behind a page's cursor are the rows the page left behind. */
  lemma {:induction false} ResumeBehind(rows: seq<AutomatedSpend>, after: Option<string>, i: nat)
    requires DistinctIds(rows) && i < |RowsAfter(rows, after)|
    ensures RowsAfter(rows, Some(RowsAfter(rows, after)[i].id)) == RowsAfter(rows, after)[i + 1..]
  {
    var rest := RowsAfter(rows, after);
    if after.None? {
      RowsAfterIndex(rows, i);
    } else if rows[0].id == after.value {
      assert rest[i] in rows[1..];
      RowsAfterIndex(rows[1..], i);
    } else {
      RowsAfterSubset(rows[1..], after);
      assert rest[i] in rows[1..];
      ResumeBehind(rows[1..], after, i);
    }
  }

  /** What an incomplete page hands over and leaves. */
  lemma IncompletePage(rows: seq<AutomatedSpend>, after: Option<string>, limit: nat)
    requires DistinctIds(rows) && 1 <= limit < |RowsAfter(rows, after)|
    ensures var page, rest := Cut(rows, after, limit, 0), RowsAfter(rows, after);
            && !page.complete
            && RowsAfter(rows, page.cursor) == rest[limit..] && |rest[limit..]| == |rest| - limit
            && page.spends + rest[limit..] == rest
  {
    var rest := RowsAfter(rows, after);
    ResumeBehind(rows, after, limit - 1);
    CutShort(rest, limit, 0);
  }

  lemma CutShort(rest: seq<AutomatedSpend>, limit: nat, unreadable: u32)
    requires 1 <= limit < |rest|
    ensures CutRest(rest, limit, unreadable)
         == SpendsListResult(rest[..limit], false, Some(rest[limit - 1].id), unreadable)
    ensures rest[..limit] + rest[limit..] == rest
  {
  }

  lemma {:induction false} WalkFinishes(rows: seq<AutomatedSpend>, after: Option<string>, limit: nat, k: nat)
    requires DistinctIds(rows) && limit >= 1
    requires k >= CoinPaging.PageCount(|RowsAfter(rows, after)|, limit)
    ensures |WalkRows(rows, after, limit, k)| == CoinPaging.PageCount(|RowsAfter(rows, after)|, limit)
    ensures Finished(WalkRows(rows, after, limit, k))
    decreases k
  {
    var page := Cut(rows, after, limit, 0);
    if page.complete {
      OnlyPage(page);
    } else {
      IncompletePage(rows, after, limit);
      WalkFinishes(rows, page.cursor, limit, k - 1);
      FirstThen(page, WalkRows(rows, page.cursor, limit, k - 1));
    }
  }

  /** From any cursor on: a finished walk has handed over exactly the rows behind it, in order, once each. */
  lemma {:induction false} WalkFrom(rows: seq<AutomatedSpend>, after: Option<string>, limit: nat, k: nat)
    requires DistinctIds(rows) && limit >= 1 && Finished(WalkRows(rows, after, limit, k))
    ensures Emitted(WalkRows(rows, after, limit, k)) == RowsAfter(rows, after)
    decreases k
  {
    var page := Cut(rows, after, limit, 0);
    if page.complete {
      OnlyPage(page);
    } else {
      IncompletePage(rows, after, limit);
      var later := WalkRows(rows, page.cursor, limit, k - 1);
      FirstThen(page, later);
      WalkFrom(rows, page.cursor, limit, k - 1);
    }
  }

  lemma WalkTilesTheRecord(record: seq<AutomatedSpend>, params: SpendsListParams, k: nat)
    requires DistinctIds(record) && Validated(params).Ok? && params.after_id.None?
    requires k >= CoinPaging.PageCount(|Matching(record, params)|, EffectiveLimit(params))
    ensures var pages := Walk(record, params, k);
            && |pages| == CoinPaging.PageCount(|Matching(record, params)|, EffectiveLimit(params))
            && Finished(pages)
            && Emitted(pages) == Matching(record, params)
  {
    MatchingDistinct(record, params);
    WalkIsOverMatching(record, params, k);
    WalkFinishes(Matching(record, params), None, EffectiveLimit(params), k);
    WalkFrom(Matching(record, params), None, EffectiveLimit(params), k);
  }

  lemma {:induction false} NothingBehind(rows: seq<AutomatedSpend>, id: string)
    requires DistinctIds(rows)
    ensures RowsAfter(rows, Some(id)) == []
       <==> (forall r :: r in rows ==> r.id != id) || rows[|rows| - 1].id == id
  {
    if rows == [] {
    } else if rows[0].id == id {
      assert |rows| > 1 ==> rows[|rows| - 1] in rows[1..];
    } else {
      NothingBehind(rows[1..], id);
      assert forall r :: r in rows <==> r == rows[0] || r in rows[1..];
    }
  }

  /**
    A cursor whose row no longer matches ends the walk: the page is empty and says it is complete,
    however many rows match. Otherwise an empty page means the cursor named the last matching row.
   */
  lemma LostCursorEndsTheWalk(record: seq<AutomatedSpend>, params: SpendsListParams, unreadable: u32)
    requires DistinctIds(record) && Validated(params).Ok? && params.after_id.Some?
    ensures var page, rows, id := Page(record, params, unreadable), Matching(record, params), params.after_id.value;
            && (page.spends == [] <==> (forall r :: r in rows ==> r.id != id) || rows[|rows| - 1].id == id)
            && (page.spends == [] ==> page.complete && page.cursor.None?)
  {
    MatchingDistinct(record, params);
    NothingBehind(Matching(record, params), params.after_id.value);
  }

  // ----- the documented order, and the cursor as a place in it -----

  /** Where a row stands: newest initiated first, ties by ascending id. */
  datatype Position = Position(ms: u64, id: string)

  function At(row: AutomatedSpend): Position {
    Position(row.initiated_ms, row.id)
  }

  predicate Precedes(p: Position, q: Position) {
    p.ms > q.ms || (p.ms == q.ms && Less(p.id, q.id))
  }

  lemma PrecedesTransitive(p: Position, q: Position, r: Position)
    requires Precedes(p, q) && Precedes(q, r)
    ensures Precedes(p, r)
  {
    if p.ms == q.ms == r.ms {
      LessTransitive(p.id, q.id, r.id);
    }
  }

  lemma PrecedesIrreflexive(p: Position)
    ensures !Precedes(p, p)
  {
    LessIrreflexive(p.id);
  }

  ghost predicate InDocumentedOrder(rows: seq<AutomatedSpend>) {
    rows == []
    || ((forall r :: r in rows[1..] ==> Precedes(At(rows[0]), At(r))) && InDocumentedOrder(rows[1..]))
  }

  lemma {:induction false} OrderMeaning(rows: seq<AutomatedSpend>)
    ensures InDocumentedOrder(rows)
       <==> forall i, j :: 0 <= i < j < |rows| ==>
              || rows[i].initiated_ms > rows[j].initiated_ms
              || (rows[i].initiated_ms == rows[j].initiated_ms && Less(rows[i].id, rows[j].id))
  {
    if rows == [] {
    } else {
      OrderMeaning(rows[1..]);
      assert forall i :: 1 <= i < |rows| ==> rows[i] == rows[1..][i - 1];
      assert forall i :: 1 <= i < |rows| ==> rows[i] in rows[1..];
    }
  }

  /** The rows strictly behind a place in the order, whether or not a row stands there. */
  function RowsBehind(rows: seq<AutomatedSpend>, p: Position): seq<AutomatedSpend> {
    if rows == [] then []
    else (if Precedes(p, At(rows[0])) then [rows[0]] else []) + RowsBehind(rows[1..], p)
  }

  lemma {:induction false} RowsBehindMembers(rows: seq<AutomatedSpend>, p: Position)
    ensures forall r :: r in RowsBehind(rows, p) <==> r in rows && Precedes(p, At(r))
  {
    if rows == [] {
    } else {
      RowsBehindMembers(rows[1..], p);
      assert forall r :: r in rows <==> r == rows[0] || r in rows[1..];
    }
  }

  lemma {:induction false} AllBehind(rows: seq<AutomatedSpend>, p: Position)
    requires forall r :: r in rows ==> Precedes(p, At(r))
    ensures RowsBehind(rows, p) == rows
  {
    if rows == [] {
    } else {
      assert rows[0] in rows && forall r :: r in rows[1..] ==> r in rows;
      AllBehind(rows[1..], p);
    }
  }

  lemma {:induction false} NoSuchRow(rows: seq<AutomatedSpend>, id: string)
    requires forall r :: r in rows ==> r.id != id
    ensures RowsAfter(rows, Some(id)) == []
  {
    if rows == [] {
    } else {
      assert rows[0] in rows && forall r :: r in rows[1..] ==> r in rows;
      NoSuchRow(rows[1..], id);
    }
  }

  ghost predicate HasId(rows: seq<AutomatedSpend>, id: string) {
    exists r :: r in rows && r.id == id
  }

  /** A row keeps the instant it was initiated, so an id names one place in the order. */
  ghost predicate IdStandsAt(rows: seq<AutomatedSpend>, p: Position) {
    forall r :: r in rows && r.id == p.id ==> r.initiated_ms == p.ms
  }

  /** Resuming by id is resuming by place exactly while a row with that id is there, or nothing follows. */
  lemma {:induction false} ResumeByIdOrPlace(rows: seq<AutomatedSpend>, p: Position)
    requires InDocumentedOrder(rows) && IdStandsAt(rows, p)
    ensures RowsAfter(rows, Some(p.id)) == RowsBehind(rows, p)
       <==> HasId(rows, p.id) || RowsBehind(rows, p) == []
  {
    if rows == [] {
    } else {
      var first, rest := rows[0], rows[1..];
      assert first in rows && forall r :: r in rest ==> r in rows;
      if first.id == p.id {
        PrecedesIrreflexive(p);
        AllBehind(rest, p);
      } else if Precedes(p, At(first)) {
        forall r | r in rest
          ensures r.id != p.id
        {
          PrecedesTransitive(p, At(first), At(r));
          PrecedesIrreflexive(p);
        }
        NoSuchRow(rows, p.id);
      } else {
        ResumeByIdOrPlace(rest, p);
        assert HasId(rows, p.id) <==> HasId(rest, p.id);
      }
    }
  }

  lemma {:induction false} MatchingOrdered(record: seq<AutomatedSpend>, params: SpendsListParams)
    requires InDocumentedOrder(record)
    ensures InDocumentedOrder(Matching(record, params))
  {
    if record == [] {
    } else {
      MatchingOrdered(record[1..], params);
      MatchingMembers(record[1..], params);
      MatchingCons(record, params);
      var rest := Matching(record[1..], params);
      assert Matches(record[0], params) ==> ([record[0]] + rest)[1..] == rest;
    }
  }

  /** The page the contract documents: the first matching rows strictly behind the cursor's place. */
  function DocumentedPage(record: seq<AutomatedSpend>, params: SpendsListParams, p: Position, unreadable: u32)
    : SpendsListResult
  {
    CutRest(RowsBehind(Matching(record, params), p), EffectiveLimit(params), unreadable)
  }

  /** The page served is the page documented exactly while the cursor's own row still matches, or nothing follows. */
  lemma PageIsDocumented(record: seq<AutomatedSpend>, params: SpendsListParams, p: Position, unreadable: u32)
    requires InDocumentedOrder(record) && IdStandsAt(record, p)
    requires Validated(params).Ok? && params.after_id == Some(p.id)
    ensures Page(record, params, unreadable) == DocumentedPage(record, params, p, unreadable)
       <==> (exists r :: r in record && r.id == p.id && Matches(r, params))
            || RowsBehind(Matching(record, params), p) == []
  {
    var rows := Matching(record, params);
    MatchingMembers(record, params);
    MatchingOrdered(record, params);
    ResumeByIdOrPlace(rows, p);
    assert HasId(rows, p.id) <==> exists r :: r in record && r.id == p.id && Matches(r, params);
    if !HasId(rows, p.id) {
      NoSuchRow(rows, p.id);
    }
  }

  // A walk of the pending spends, one row to a page, during which the first of them is confirmed.

  const FIRST_PENDING: AutomatedSpend := AutomatedSpend("a", "mirror-coin", Pending, None, 200)
  const SECOND_PENDING: AutomatedSpend := AutomatedSpend("b", "mirror-coin", Pending, None, 100)
  const PENDING_ONLY: SpendsListParams :=
    SpendsListParams(None, None, None, None, Some("pending"), None, Some(1))

  /** The second read comes back empty and complete, and the second spend is never handed over. */
  lemma ConfirmedCursorDropsARow()
    ensures var record := [FIRST_PENDING, SECOND_PENDING];
            var later := [FIRST_PENDING.(status := Confirmed), SECOND_PENDING];
            var first := Page(record, PENDING_ONLY, 0);
            var next := PENDING_ONLY.(after_id := first.cursor);
            && InDocumentedOrder(later) && Validated(next).Ok?
            && first == SpendsListResult([FIRST_PENDING], false, Some("a"), 0)
            && Page(later, next, 0) == SpendsListResult([], true, None, 0)
            && DocumentedPage(later, next, At(FIRST_PENDING), 0)
               == SpendsListResult([SECOND_PENDING], true, Some("b"), 0)
  {
    var confirmed := FIRST_PENDING.(status := Confirmed);
    var record, later := [FIRST_PENDING, SECOND_PENDING], [confirmed, SECOND_PENDING];
    var next := PENDING_ONLY.(after_id := Some("a"));
    OneThenSecond(FIRST_PENDING, PENDING_ONLY);
    assert Matching(record, PENDING_ONLY) == record;
    CutShort(record, 1, 0);
    assert record[..1] == [FIRST_PENDING];
    assert Page(record, PENDING_ONLY, 0) == SpendsListResult([FIRST_PENDING], false, Some("a"), 0);
    assert "confirmed"[0] != "pending"[0];
    OneThenSecond(confirmed, next);
    assert !Matches(confirmed, next);
    assert Matching(later, next) == [SECOND_PENDING];
    assert "a"[0] != "b"[0];
    assert RowsAfter([SECOND_PENDING], Some("a")) == [];
    assert [SECOND_PENDING][1..] == [];
    assert RowsBehind([SECOND_PENDING], At(FIRST_PENDING)) == [SECOND_PENDING];
  }

  lemma OneThenSecond(first: AutomatedSpend, params: SpendsListParams)
    requires Matches(SECOND_PENDING, params)
    ensures Matching([first, SECOND_PENDING], params)
         == (if Matches(first, params) then [first] else []) + [SECOND_PENDING]
    ensures Precedes(At(first), At(SECOND_PENDING)) ==> InDocumentedOrder([first, SECOND_PENDING])
  {
    assert [first, SECOND_PENDING][1..] == [SECOND_PENDING] && [SECOND_PENDING][1..] == [];
    assert Matching([SECOND_PENDING], params) == [SECOND_PENDING];
    assert InDocumentedOrder([SECOND_PENDING]);
  }

  // ----- a walk over a changing record -----

  function WalkOver(records: seq<seq<AutomatedSpend>>, params: SpendsListParams): seq<SpendsListResult>
    decreases records
  {
    if records == [] then [] else
      var page := Page(records[0], params, 0);
      if page.complete then [page] else [page] + WalkOver(records[1..], params.(after_id := page.cursor))
  }

  /** The cursor's row is there, where it was, and matches. */
  ghost predicate CursorStands(record: seq<AutomatedSpend>, params: SpendsListParams, p: Position) {
    && params.after_id == Some(p.id) && IdStandsAt(record, p)
    && exists r :: r in record && r.id == p.id && Matches(r, params)
  }

  /** What is still to be served, from the start or from a place. */
  function StillBehind(rows: seq<AutomatedSpend>, from: Option<Position>): seq<AutomatedSpend> {
    if from.None? then rows else RowsBehind(rows, from.value)
  }

  /** Whenever the walk uses a cursor, that cursor stands. */
  ghost predicate CursorsStand(records: seq<seq<AutomatedSpend>>, params: SpendsListParams, from: Option<Position>)
    decreases records
  {
    records == []
    || (&& (if from.None? then params.after_id.None? else CursorStands(records[0], params, from.value))
        && var page := Page(records[0], params, 0);
           (!page.complete && page.spends != []) ==>
             CursorsStand(records[1..], params.(after_id := page.cursor),
                          Some(At(page.spends[|page.spends| - 1]))))
  }

  ghost predicate Shows(rows: seq<AutomatedSpend>, x: Position) {
    exists r :: r in rows && At(r) == x
  }

  predicate IsBehind(x: Position, from: Option<Position>) {
    from.None? || Precedes(from.value, x)
  }

  /** A page of such a walk: ordered, behind where it started, and with nothing left out in between. */
  lemma PageInOrder(record: seq<AutomatedSpend>, params: SpendsListParams, from: Option<Position>)
    requires InDocumentedOrder(record) && Validated(params).Ok?
    requires if from.None? then params.after_id.None? else CursorStands(record, params, from.value)
    ensures var page := Page(record, params, 0);
            var rest := StillBehind(Matching(record, params), from);
            && page == CutRest(rest, EffectiveLimit(params), 0)
            && InDocumentedOrder(rest)
            && forall r :: r in rest <==> r in Matching(record, params) && IsBehind(At(r), from)
  {
    MatchingOrdered(record, params);
    if from.Some? {
      PageIsDocumented(record, params, from.value, 0);
      RowsBehindMembers(Matching(record, params), from.value);
      RowsBehindOrdered(Matching(record, params), from.value);
    }
  }

  lemma {:induction false} RowsBehindOrdered(rows: seq<AutomatedSpend>, p: Position)
    requires InDocumentedOrder(rows)
    ensures InDocumentedOrder(RowsBehind(rows, p))
  {
    if rows == [] {
    } else {
      RowsBehindOrdered(rows[1..], p);
      RowsBehindMembers(rows[1..], p);
      var rest := RowsBehind(rows[1..], p);
      if Precedes(p, At(rows[0])) {
        assert ([rows[0]] + rest)[1..] == rest;
      } else {
        assert RowsBehind(rows, p) == rest;
      }
    }
  }

  /** Cutting an ordered list: what is handed over precedes what is left, by the last row handed over. */
  lemma {:induction false} CutInOrder(rest: seq<AutomatedSpend>, limit: nat)
    requires InDocumentedOrder(rest) && 1 <= limit < |rest|
    ensures InDocumentedOrder(rest[..limit])
    ensures forall r :: r in rest ==> r in rest[..limit] || Precedes(At(rest[limit - 1]), At(r))
    ensures forall r :: r in rest[..limit] ==> r == rest[limit - 1] || Precedes(At(r), At(rest[limit - 1]))
  {
    var tail := rest[1..];
    assert rest == [rest[0]] + tail;
    if limit == 1 {
      assert rest[..1] == [rest[0]] && rest[..1][1..] == [];
    } else {
      CutInOrder(tail, limit - 1);
      assert rest[..limit] == [rest[0]] + tail[..limit - 1];
      assert rest[..limit][1..] == tail[..limit - 1];
      assert tail[limit - 2] == rest[limit - 1] && rest[limit - 1] in tail;
      assert forall r :: r in tail[..limit - 1] ==> r in tail;
    }
  }

  lemma {:induction false} OrderedConcatenation(a: seq<AutomatedSpend>, b: seq<AutomatedSpend>)
    requires InDocumentedOrder(a) && InDocumentedOrder(b)
    requires forall r, s :: r in a && s in b ==> Precedes(At(r), At(s))
    ensures InDocumentedOrder(a + b)
  {
    if a == [] {
      assert a + b == b;
    } else {
      assert a[0] in a && forall r :: r in a[1..] ==> r in a;
      OrderedConcatenation(a[1..], b);
      assert (a + b)[1..] == a[1..] + b && (a + b)[0] == a[0];
    }
  }

  lemma WalkOverStep(records: seq<seq<AutomatedSpend>>, params: SpendsListParams)
    requires records != []
    ensures var page := Page(records[0], params, 0);
            var later := if page.complete then [] else WalkOver(records[1..], params.(after_id := page.cursor));
            && WalkOver(records, params) == [page] + later
            && Emitted(WalkOver(records, params)) == page.spends + Emitted(later)
            && (Finished(WalkOver(records, params)) <==> page.complete || Finished(later))
  {
    var page := Page(records[0], params, 0);
    if page.complete {
      OnlyPage(page);
    } else {
      FirstThen(page, WalkOver(records[1..], params.(after_id := page.cursor)));
    }
  }

  /** A page of such a walk with rows left behind it: what it handed over stands before what it did not. */
  lemma UnfinishedInOrder(record: seq<AutomatedSpend>, params: SpendsListParams, from: Option<Position>)
    requires InDocumentedOrder(record) && Validated(params).Ok? && !Page(record, params, 0).complete
    requires if from.None? then params.after_id.None? else CursorStands(record, params, from.value)
    ensures var page := Page(record, params, 0);
            && page.spends != []
            && var last := At(page.spends[|page.spends| - 1]);
            && InDocumentedOrder(page.spends) && IsBehind(last, from)
            && (forall r :: r in page.spends ==> IsBehind(At(r), from) && (At(r) == last || Precedes(At(r), last)))
            && forall r :: r in Matching(record, params) && IsBehind(At(r), from) ==>
                 r in page.spends || Precedes(last, At(r))
  {
    var rest := StillBehind(Matching(record, params), from);
    PageInOrder(record, params, from);
    UnfinishedCut(rest, EffectiveLimit(params));
  }

  lemma UnfinishedCut(rest: seq<AutomatedSpend>, limit: nat)
    requires InDocumentedOrder(rest) && limit >= 1 && !CutRest(rest, limit, 0).complete
    ensures var spends := CutRest(rest, limit, 0).spends;
            && spends != [] && InDocumentedOrder(spends) && (forall r :: r in spends ==> r in rest)
            && var last := At(spends[|spends| - 1]);
            && (forall r :: r in spends ==> At(r) == last || Precedes(At(r), last))
            && forall r :: r in rest ==> r in spends || Precedes(last, At(r))
  {
    CutShort(rest, limit, 0);
    CutInOrder(rest, limit);
    assert rest[..limit][limit - 1] == rest[limit - 1];
  }

  lemma FinishedInOrder(record: seq<AutomatedSpend>, params: SpendsListParams, from: Option<Position>)
    requires InDocumentedOrder(record) && Validated(params).Ok? && Page(record, params, 0).complete
    requires if from.None? then params.after_id.None? else CursorStands(record, params, from.value)
    ensures var page := Page(record, params, 0);
            && InDocumentedOrder(page.spends)
            && forall r :: r in page.spends <==> r in Matching(record, params) && IsBehind(At(r), from)
  {
    PageInOrder(record, params, from);
  }

  ghost predicate AllBehindPlace(rows: seq<AutomatedSpend>, from: Option<Position>) {
    forall r :: r in rows ==> IsBehind(At(r), from)
  }

  /** What comes after a page goes on in order from that page's last row. */
  lemma PageThenLater(spends: seq<AutomatedSpend>, last: Position, later: seq<AutomatedSpend>, from: Option<Position>)
    requires InDocumentedOrder(spends) && InDocumentedOrder(later)
    requires forall r :: r in spends ==> At(r) == last || Precedes(At(r), last)
    requires AllBehindPlace(spends, from) && AllBehindPlace(later, Some(last)) && IsBehind(last, from)
    ensures InDocumentedOrder(spends + later) && AllBehindPlace(spends + later, from)
  {
    forall r, s | r in spends && s in later
      ensures Precedes(At(r), At(s))
    {
      if At(r) != last {
        PrecedesTransitive(At(r), last, At(s));
      }
    }
    OrderedConcatenation(spends, later);
    if from.Some? {
      forall s | s in later
        ensures Precedes(from.value, At(s))
      {
        PrecedesTransitive(from.value, last, At(s));
      }
    }
  }

  /** While its cursors stand, a walk over changing records hands rows over in the documented order. */
  lemma {:induction false} WalkOverInOrder(records: seq<seq<AutomatedSpend>>, params: SpendsListParams,
                                           from: Option<Position>)
    requires Validated(params).Ok? && CursorsStand(records, params, from)
    requires forall record :: record in records ==> InDocumentedOrder(record)
    ensures InDocumentedOrder(Emitted(WalkOver(records, params)))
    ensures AllBehindPlace(Emitted(WalkOver(records, params)), from)
    decreases records
  {
    if records == [] {
    } else {
      assert records[0] in records && forall record :: record in records[1..] ==> record in records;
      var page := Page(records[0], params, 0);
      WalkOverStep(records, params);
      if page.complete {
        FinishedInOrder(records[0], params, from);
        assert page.spends + [] == page.spends;
      } else {
        UnfinishedInOrder(records[0], params, from);
        var last, next := At(page.spends[|page.spends| - 1]), params.(after_id := page.cursor);
        WalkOverInOrder(records[1..], next, Some(last));
        PageThenLater(page.spends, last, Emitted(WalkOver(records[1..], next)), from);
      }
    }
  }

  /**
    And a finished one has handed over every place at which each record it read had a matching row. The
    order above is strict, so no place is handed over twice.
   */
  lemma {:induction false} WalkOverIsComplete(records: seq<seq<AutomatedSpend>>, params: SpendsListParams,
                                              from: Option<Position>, x: Position)
    requires Validated(params).Ok? && CursorsStand(records, params, from) && IsBehind(x, from)
    requires forall record :: record in records ==> InDocumentedOrder(record) && Shows(Matching(record, params), x)
    requires Finished(WalkOver(records, params))
    ensures Shows(Emitted(WalkOver(records, params)), x)
    decreases records
  {
    assert records[0] in records && forall record :: record in records[1..] ==> record in records;
    var page := Page(records[0], params, 0);
    WalkOverStep(records, params);
    var r :| r in Matching(records[0], params) && At(r) == x;
    if page.complete {
      FinishedInOrder(records[0], params, from);
      assert r in page.spends + [];
    } else {
      UnfinishedInOrder(records[0], params, from);
      var last, next := At(page.spends[|page.spends| - 1]), params.(after_id := page.cursor);
      var later := Emitted(WalkOver(records[1..], next));
      if r in page.spends {
        assert r in page.spends + later;
      } else {
        forall record | record in records[1..]
          ensures Shows(Matching(record, next), x)
        {
          MatchingSame(record, params, next);
        }
        WalkOverIsComplete(records[1..], next, Some(last), x);
        assert forall s :: s in later ==> s in page.spends + later;
      }
    }
  }

  // ----- windows -----

  ghost predicate NewestFirst(record: seq<AutomatedSpend>) {
    forall i, j :: 0 <= i < j < |record| ==> record[i].initiated_ms >= record[j].initiated_ms
  }

  function Window(params: SpendsListParams, since: u64, until: u64): SpendsListParams {
    params.(since_ms := Some(since), until_ms := Some(until))
  }

  /** A row of a window's record lies in exactly one of the two windows it is cut into. */
  lemma WindowSplit(row: AutomatedSpend, params: SpendsListParams, since: u64, mid: u64, until: u64)
    requires since <= mid <= until
    ensures Matches(row, Window(params, since, until))
       <==> Matches(row, Window(params, mid, until)) || Matches(row, Window(params, since, mid))
    ensures Matches(row, Window(params, mid, until)) ==> row.initiated_ms >= mid
    ensures Matches(row, Window(params, since, mid)) ==> row.initiated_ms < mid
  {
  }

  /** Putting one row in front of the window it lies in puts it in front of both windows together. */
  lemma ConsTile(row: AutomatedSpend, inNewer: bool, inOlder: bool, a: seq<AutomatedSpend>, b: seq<AutomatedSpend>)
    requires inOlder ==> !inNewer && a == []
    ensures (if inNewer then [row] + a else a) + (if inOlder then [row] + b else b)
         == if inNewer || inOlder then [row] + (a + b) else a + b
  {
  }

  lemma NewestFirstParts(record: seq<AutomatedSpend>)
    requires NewestFirst(record) && record != []
    ensures NewestFirst(record[1..])
    ensures forall r :: r in record[1..] ==> r.initiated_ms <= record[0].initiated_ms
  {
  }

  /** Half-open windows that meet tile the record: no spend is counted twice or dropped between them. */
  lemma {:induction false} WindowsTile(record: seq<AutomatedSpend>, params: SpendsListParams,
                                       since: u64, mid: u64, until: u64)
    requires NewestFirst(record) && since <= mid <= until
    ensures Matching(record, Window(params, mid, until)) + Matching(record, Window(params, since, mid))
         == Matching(record, Window(params, since, until))
  {
    if record == [] {
    } else {
      var newer, older, both := Window(params, mid, until), Window(params, since, mid), Window(params, since, until);
      NewestFirstParts(record);
      WindowsTile(record[1..], params, since, mid, until);
      WindowSplit(record[0], params, since, mid, until);
      MatchingCons(record, newer);
      MatchingCons(record, older);
      MatchingCons(record, both);
      if Matches(record[0], older) {
        NothingNewer(record[1..], params, mid, until);
      }
      ConsTile(record[0], Matches(record[0], newer), Matches(record[0], older),
               Matching(record[1..], newer), Matching(record[1..], older));
    }
  }

  lemma {:induction false} NothingNewer(record: seq<AutomatedSpend>, params: SpendsListParams, mid: u64, until: u64)
    requires forall r :: r in record ==> r.initiated_ms < mid
    ensures Matching(record, Window(params, mid, until)) == []
  {
    if record == [] {
    } else {
      assert record[0] in record;
      assert forall r :: r in record[1..] ==> r in record;
      NothingNewer(record[1..], params, mid, until);
    }
  }

  // ----- the filter the contract documents and the reference node does not apply -----

  function Documented(record: seq<AutomatedSpend>, params: SpendsListParams): seq<AutomatedSpend> {
    if record == [] then [] else
      var shown := Matches(record[0], params)
                   && (params.store_id.Some? ==> record[0].store_id == params.store_id);
      (if shown then [record[0]] else []) + Documented(record[1..], params)
  }

  lemma {:induction false} DocumentedDropsRows(record: seq<AutomatedSpend>, params: SpendsListParams)
    ensures Matching(record, params) == Documented(record, params)
       <==> forall r :: r in Matching(record, params) && params.store_id.Some? ==> r.store_id == params.store_id
    ensures |Documented(record, params)| <= |Matching(record, params)|
  {
    if record == [] {
    } else {
      DocumentedDropsRows(record[1..], params);
      var rest, shown := Matching(record[1..], params), Documented(record[1..], params);
      if Matches(record[0], params) {
        assert forall r :: r in Matching(record, params) <==> r == record[0] || r in rest;
        if params.store_id.None? || record[0].store_id == params.store_id {
          assert ([record[0]] + rest)[1..] == rest && ([record[0]] + shown)[1..] == shown;
        }
      } else {
        assert Matching(record, params) == rest && Documented(record, params) == shown;
      }
    }
  }

  /** No instant lies in the request's window, so no row of any record can match. */
  predicate IsEmptyWindow(params: SpendsListParams) {
    && params.until_ms.Some?
    && (params.until_ms.value == 0
        || (params.since_ms.Some? && params.since_ms.value >= params.until_ms.value))
  }

  /** The status asked for is no outcome's token. A request's status is free text that nothing checks. */
  predicate NamesNoOutcome(params: SpendsListParams) {
    params.status.Some? && OutcomeOf(params.status.value).None?
  }

  /** A row that passes every filter the node applies and serves no store. */
  function StorelessRow(params: SpendsListParams): AutomatedSpend
    requires !NamesNoOutcome(params)
  {
    AutomatedSpend("id", if params.kind.Some? then params.kind.value else "",
                   if params.status.Some? then OutcomeOf(params.status.value).value else Pending, None,
                   if params.since_ms.Some? then params.since_ms.value else 0)
  }

  /** On this one-row record a request that names a store is served a row it asked not to see. */
  lemma StorelessRowIsServed(params: SpendsListParams)
    requires params.store_id.Some? && !IsEmptyWindow(params) && !NamesNoOutcome(params)
    ensures Matching([StorelessRow(params)], params) == [StorelessRow(params)]
    ensures Documented([StorelessRow(params)], params) == []
  {
    var row := StorelessRow(params);
    if params.status.Some? {
      TokenNamesOutcome(params.status.value, row.status);
    }
    assert [row][1..] == [];
  }

  lemma {:induction false} NothingMatches(record: seq<AutomatedSpend>, params: SpendsListParams)
    requires IsEmptyWindow(params) || NamesNoOutcome(params)
    ensures Matching(record, params) == []
  {
    if record == [] {
    } else {
      NothingMatches(record[1..], params);
      if params.status.Some? {
        TokenNamesOutcome(params.status.value, record[0].status);
      }
    }
  }

  ghost predicate StoreFilterIsHonoured(params: SpendsListParams) {
    forall record :: Matching(record, params) == Documented(record, params)
  }

  /**
    For which requests the node serves what the contract documents, whatever its record: those that name
    no store, those whose time window is empty, and those whose status is no outcome's.
   */
  lemma StoreFilterIsNotApplied(params: SpendsListParams)
    ensures StoreFilterIsHonoured(params)
       <==> params.store_id.None? || IsEmptyWindow(params) || NamesNoOutcome(params)
  {
    if params.store_id.None? || IsEmptyWindow(params) || NamesNoOutcome(params) {
      forall record
        ensures Matching(record, params) == Documented(record, params)
      {
        DocumentedDropsRows(record, params);
        if params.store_id.Some? {
          NothingMatches(record, params);
        }
      }
    } else {
      StorelessRowIsServed(params);
      assert Matching([StorelessRow(params)], params) != Documented([StorelessRow(params)], params);
    }
  }
}
