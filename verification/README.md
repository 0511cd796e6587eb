# The control contract of dig-node: a verified model

This project models, in Dafny, the behaviour of the DIG Network crate `dig-node-control-interface`,
the client-to-node control contract, and proves properties of that model. `dafny verify
dfyconfig.toml` checks all of it.

What is modelled:

- **`MockNodes`, `Reservations`, `Enrolment`**: the reference node. `MockNode` is a class whose methods
  update the reservation table and the enrolled keys in place; each is tied to a function of the old
  state, and the lemmas are about every run of those functions. The table is a map walked in
  ascending key order, as a BTreeMap is. The node's pinned instant becomes a clock each call reads.
- **`CoinPaging`**: the two cursor-paged coin reads, over any ascending list of ids, any page size, and a
  set that changes between pages.
- **`AuditPaging`**: `control.spends.list`, whose method cuts one list down in place, against the order and the
  filters its contract documents.
- **`SemVer`, `PeerSoftware`**: a peer's advertised build, with the version grammar written out from items
  2, 9 and 10 and the grammar of SemVer 2.0.0, so that parser and printer are proved inverse.
- **`Identifiers`, `Assets`, `Requests`**: hex ids, the asset-id and asset codecs, the order of ids, and
  the requests that check themselves, each of whose two checks is written out as the crate has them.
- **`PeerAddress`**: canonical peer addresses and endpoints, with the address literals of section 2.2 of
  RFC 4291 and the printed form of section 4 of RFC 5952 written out.
- **`Rendering`**: the escaped, byte-bounded rendering of a token.
- **`FrameBound`**: the JSON text of a coin record and the size of the largest legal page.
- **`TableRows`**: the Markdown table scanner of the error-code check.
- **`Text`, `Numerals`, `Wrappers`**: strings, numerals and result types the others share.

A string is a sequence of UTF-8 bytes where the crate indexes bytes (ids, requests), and a sequence
of Unicode scalar values where it walks characters (trimming, escaping). UTF-8 keeps order, so
`Text.Less` is the order of Rust's `str` under both.

The main results:

- a paged walk over a changing set of coins loses none that was there throughout and repeats none, and
  over an unchanging set it ends, having handed over exactly that set (`ClientLosesNothing`,
  `AcceptedRequestsFinish`), and the same for a parent's children (`ByParentLosesNothing`);
- over every run of the reservation calls no coin is in two live reservations and every hold lapses
  (`NoCoinIsHeldTwice`, `EveryHoldLapses`); what is held is exactly what was taken and is neither released
  nor lapsed if and only if no success writes over a row that still holds something (`OutstandingIsKept`),
  and the table is the whole ledger of the run under an exact condition too (`LedgerThroughout`);
- an advertisement is reported exactly when it is a product, a separator and a printed version
  (`ParseReports`, over the grammar proved inverse in `SemVer.ParseIsInverse`);
- every address is read back from its canonical text, so one address has one key, one endpoint names
  one peer, and a hand-made join is never the peer meant (`PeerAddress.ParsePrint`, `OneKeyPerAddress`,
  `EndpointInjective`, `NaiveJoinRetargets`), and exactly the spellings of RFC 4291 are read
  (`AcceptedSpellings`);
- in-place filtering, draining and truncating of the audit record tile it (`AuditPage`,
  `WalkTilesTheRecord`, `WindowsTile`), and over a changing record a walk loses nothing that matched
  throughout, so long as each cursor's row still matches when it is used (`WalkOverIsComplete`);
- release answers, and frees, exactly by the hold the caller was handed (`ReleaseOverRuns`,
  `ReleaseTellsLiveness`), and releasing a handle again does nothing exactly until it is taken again
  (`RepeatedRelease`);
- the hex and asset codecs are inverse to their printers on exactly the accepted spellings, and the text
  order of ids is their numeric order (`AssetIdAccepts`, `DigSpellings`, `KeyOrderIsByteOrder`).

Beside these, what each operation answers is stated in full and without its own helpers: a coin page and
an audit page (`CoinsAnswers`, `ByParentAnswers`, `AuditPaging.PageAnswers`, `RowIsServed`), a reservation
(`ReserveTakesAll`, `HandlesInUse`), an enrolment (`CallReports`), an advertisement (`ParseReports`,
`RenderMeaning`, `PrintText`), an address key and its endpoint (`CanonicalAccepts`, `GappedForm`,
`PlainForm`, `EndpointText`), an asset (`DecodeMeaning`, `EncodeMeaning`), a bounded rendering
(`PlainRendering`, `BytesAreUtf8`), and what trimming and the table scanner look for (`TrimMeaning`,
`PipeMeaning`, `SeparatorMeaning`).

Where the code and its own documentation differ, the model follows the code:

- Reservation handles are numbered by the table's size, so a success can be handed a handle in use and
  write over its row. Runs that release newest-first never do (`NewestFirstIsFresh`); others may
  (`OutOfOrderReleaseOverwrites`). A held coin is dropped exactly when the row written over still held
  something (`ReserveDropsNothing`, `OutstandingIsKept`); `ALiveHoldIsDropped` is such a run.
- A handle is handed out again once its row is released, so a late repeat of a release can free another
  caller's hold (`RepeatFreesAnotherHold`); src/results.rs:1999-2000 says it reports `released: false`.
- `released` is documented as whether a live reservation was found (src/results.rs:1995-2006). It says so
  exactly when the handle's hold has not lapsed (`ReleaseTellsLiveness`); `ReleaseOfALapsedHandle` is a
  success for a lapsed one.
- A rendering is promised to be empty or readable (src/results.rs:58-60). The exact condition is
  `RenderingIsEmptyOrReadable`; `SomeRenderingsReadAsUnknown` gives two renderings that are neither.
- A `0x` cursor is said to sort before every canonical key (src/params.rs:1843-1844). It does so exactly
  when the key does not start with `0` (`PrefixedIdOrder`).
- A truncated rendering is said never to be mistaken for the whole token (src/results.rs:1513-1514). The
  exact condition is `TruncationCanPassForWhole`: it can be, exactly when the marker itself would have fitted
  the budget. `MarkerIsAmbiguous` gives two tokens.
- An address and a port joined by hand are said to be a different valid address (src/params.rs:326-329).
  They are exactly under the condition of `NaiveJoinRetargets`; otherwise, as `UnspecifiedJoinIsNoAddress`
  shows, they are no address at all.
- `store_id` is documented as a filter of the audit read (src/params.rs:1661-1663); the reference node
  does not apply it. `StoreFilterIsNotApplied` says for which requests that cannot be seen: an unnamed
  store, an empty window, or a status that is no outcome. `StorelessRowIsServed` gives the row for the rest.
- An audit cursor is documented as a place in an order (src/results.rs:2390-2394); in the code it is a row
  that must still match the filters. The page served is the one documented exactly under the condition of
  `PageIsDocumented`; `ConfirmedCursorDropsARow` is a walk that loses a row.
- A coin record is said to take about 350 bytes and a full page about a third of the frame
  (src/params.rs:936-945). That holds exactly for assets written as a token or not at all
  (`ThreefoldExactlyUntagged`); a page of any other CAT fits twice over (`CoinsPageFits`).

## Model

| member | source | states |
|---|---|---|
| `CoinPaging.CoinsAnswers` | src/kats.rs:1554-1592 | the page is the least ids strictly after the cursor, as many as the size asked for (100 if none is) or all of them, complete exactly when that is all, with the last row's id as cursor |
| `CoinPaging.ByParentAnswers` | src/kats.rs:1643-1692 | the same of the parent's children, and an empty complete page for a parent not known |
| `CoinPaging.PageMeaning` | src/kats.rs:1563-1592 | for any cursor, present or gone, a page is the rows right after it, at most the limit, with no row between them left out; an incomplete page is full |
| `CoinPaging.TruncatedPageLooksWhole` | src/results.rs:917-922 | every truncated page, from any set and cursor, is row for row and cursor for cursor the complete page of another set |
| `CoinPaging.WalkAscends` | src/results.rs:897-910 | over any sequence of sets and page sizes, the ids handed over strictly ascend, across pages too |
| `CoinPaging.WalkIsSound` | src/kats.rs:1563-1584 | every row of a page was in the set that page was read from |
| `CoinPaging.WalkIsComplete` | src/results.rs:905-910 | a finished walk has handed over every id after its start that was in every set it read |
| `CoinPaging.WalkLosesNothing` | src/results.rs:905-910 | such an id is handed over exactly once, though rows, the cursor's own among them, come and go between pages |
| `CoinPaging.PageCountIsCeiling` | src/params.rs:1024-1029 | the page count is max(1, rows / limit rounded up) |
| `CoinPaging.StaticWalkTiles` | src/kats.rs:1650-1692 | from any cursor over an unchanging set: exactly that many pages, each full but the last, only the last complete, together exactly the rows after the cursor |
| `CoinPaging.WholeWalkTiles` | src/results.rs:1147-1172 | from the start, the pages concatenate to the whole set and the walk ends |
| `CoinPaging.ZeroLimitNeverFinishes` | src/params.rs:1141-1143 | with a zero limit and anything to hand over, no number of reads finishes or hands over a row |
| `CoinPaging.ByParentWalkIsCoinsWalk` | src/kats.rs:1650-1692 | a by-parent walk over changing lineages is a coins walk over that parent's children, page for page |
| `CoinPaging.ClientLosesNothing` | src/kats.rs:1554-1603 | from any accepted first request, each coin held throughout is handed over exactly once by the walk of requests that follow the cursor |
| `CoinPaging.AcceptedRequestsFinish` | src/params.rs:1027-1029 | any accepted request's walk over an unchanging set finishes in the pages that set fills at the size asked for, or 100, and hands over exactly that set |
| `CoinPaging.ByParentLosesNothing` | src/kats.rs:1643-1692 | from any accepted by-parent request, whichever spelling names the parent, each child known throughout is handed over exactly once |
| `CoinPaging.ByParentRequestsFinish` | src/params.rs:1141-1143 | and over children that stay as they are the walk finishes with exactly those |
| `CoinPaging.CursorIsAccepted` | src/params.rs:1040-1063 | the cursor of a page of canonical ids makes the next request an accepted one, unchanged by checking |
| `AuditPaging.RowIsServed` | src/kats.rs:4915-4926 | each row is served or not on its own account, in its own place: exactly when its status token, kind and instant agree with whatever the request names of status, kind, since and until |
| `AuditPaging.PageAnswers` | src/kats.rs:4927-4942 | the whole answer: the matching rows behind the first with the cursor's id, cut to the size asked for (50 if none is), complete exactly when nothing was cut, with the last row's id and the unreadable count |
| `AuditPaging.RequestAccepted` | src/params.rs:1705-1725 | a page size is accepted exactly from 1 to 500, and checking changes nothing |
| `AuditPaging.AuditPage` | src/kats.rs:4913-4942 | the in-place filtering, draining and truncating gives the page that one conjunction of filters, a resume by id and a cut describe |
| `AuditPaging.Filtered` | src/kats.rs:4915-4926 | the successive `retain` passes keep exactly the rows that pass all four filters |
| `AuditPaging.KeptNarrows` | src/kats.rs:4915-4926 | one more `retain` pass is one more filter |
| `AuditPaging.WalkTilesTheRecord` | src/results.rs:2379-2397 | with distinct ids and fixed filters, the pages concatenate to exactly the matching rows in order, in exactly the pages they fill |
| `AuditPaging.WalkFinishes` | src/kats.rs:4927-4942 | from any cursor and with any positive limit a walk ends, in the pages the rows behind it fill |
| `AuditPaging.WalkFrom` | src/kats.rs:4927-4942 | whenever a walk ends, it has handed over exactly the rows behind its cursor, in order, once each |
| `AuditPaging.LostCursorEndsTheWalk` | src/kats.rs:4927-4932 | an empty page means the cursor names no matching row or the last one, and it always says complete |
| `AuditPaging.OrderMeaning` | src/results.rs:2390-2394 | the documented order: of any two rows the earlier has the later instant, or the same instant and the smaller id |
| `AuditPaging.ResumeByIdOrPlace` | src/results.rs:2390-2394 | on rows in the documented order, resuming by id is resuming strictly behind the cursor's place exactly while a row with that id is there, or nothing follows |
| `AuditPaging.PageIsDocumented` | src/results.rs:2390-2394 | so a page is the documented one exactly while the cursor's own row still matches the filters, or nothing matching follows it |
| `AuditPaging.ConfirmedCursorDropsARow` | src/kats.rs:4915-4932 | a two-row walk of the pending spends during which the first is confirmed: the second page is empty, says complete, and drops a matching row |
| `AuditPaging.WalkOverInOrder` | src/results.rs:2390-2397 | over records that change between pages, while each cursor's row still matches when used, rows are handed over in the documented order, none twice |
| `AuditPaging.WalkOverIsComplete` | src/results.rs:2379-2397 | and a walk that finishes has handed over every row that matched throughout |
| `AuditPaging.WindowsTile` | src/params.rs:1653-1659 | on a newest-first record the rows of two half-open windows that meet are, in order, those of the whole window |
| `AuditPaging.StorelessRowIsServed` | src/kats.rs:4913-4926 | for any request that names a store, has an instant in its window and asks for no text that is not an outcome, a record whose one row serves no store is served whole where nothing should be |
| `AuditPaging.StoreFilterIsNotApplied` | src/params.rs:1661-1678 | the documented rows are served, whatever the record, exactly to requests that name no store, whose time window is empty, or whose status is no outcome's token |
| `MockNodes.MockNode.constructor` | src/kats.rs:1171-1175 | a node starts with the table of the empty run and no key |
| `MockNodes.MockNode.WalletReservationsHeld` | src/kats.rs:1828-1848 | lists the live rows in handle order, one entry per coin |
| `MockNodes.MockNode.WalletReservationsReserve` | src/kats.rs:1849-1886 | leaves the table, and answers, as `Reservations.Reserve` does of the old table |
| `MockNodes.MockNode.WalletReservationsRelease` | src/kats.rs:1887-1904 | leaves the table, and answers, as `Reservations.Release` does of the old table |
| `MockNodes.MockNode.WalletWatch` | src/kats.rs:1771-1787 | inserting key by key and counting gives the union and the number of keys that were new |
| `MockNodes.MockNode.WalletUnwatch` | src/kats.rs:1788-1804 | removing key by key and counting gives the difference and the number of keys that were there |
| `MockNodes.MockNode.WalletWatched` | src/kats.rs:1805-1809 | exactly the enrolled keys, ascending, each once |
| `Reservations.HeldRowsMeaning` | src/kats.rs:1831-1844 | a row is listed exactly when its handle is live, its coin is under that handle and its expiry is that row's |
| `Reservations.HeldRowsCount` | src/kats.rs:1831-1844 | it is listed as often as that row names the coin, and otherwise not at all |
| `Reservations.HeldRowsInHandleOrder` | src/kats.rs:1831-1844 | the listing ascends by handle |
| `Reservations.ReserveRefuses` | src/kats.rs:1853-1872 | refused as malformed exactly when some id is, as a conflict exactly when some id is held; a refusal changes nothing |
| `Reservations.ConflictNamesAHeldCoin` | src/kats.rs:1867-1872 | the refusal names, in its message, the first coin asked for that is held |
| `Reservations.ReserveTakesAll` | src/kats.rs:1873-1884 | a success holds exactly the ids asked for in canonical spelling, for min(requested or 300, 600) seconds, none of them held before, under `mock-res-` and the decimal number one more than the rows there were, and changes no other row |
| `Reservations.ReservedCoinsAreHeld` | src/results.rs:1972-1976 | every coin asked for is held afterwards exactly when the TTL applied is positive or none was asked for |
| `Reservations.ReserveExchanges` | src/kats.rs:1873-1878 | whatever row its handle had, a success takes that row's live coins out of the held set and puts the coins asked for in, unless the TTL is zero |
| `Reservations.ReserveDropsNothing` | src/kats.rs:1860-1878 | so a success drops no held coin exactly when the row under its handle is absent, lapsed or without coins |
| `Reservations.ReleaseFreesExactly` | src/kats.rs:1887-1904 | the held set shrinks by exactly a live row's coins, and not at all for a lapsed one |
| `Reservations.NoCoinIsHeldTwice` | src/kats.rs:1849-1886 | over every run with a clock that never goes back, no coin is in two live reservations, now or later |
| `Reservations.ClockMustNotGoBack` | src/kats.rs:1860-1866 | without that condition it fails: a table read at an earlier instant holds one coin twice |
| `Reservations.ListedUnderOneReservation` | src/kats.rs:1828-1848 | after any such run, two listed rows for one coin are the same row |
| `Reservations.EveryHoldLapses` | src/kats.rs:1145-1152 | over every run, 600 seconds after the last reserve nothing is held |
| `Reservations.HandlesStayDense` | src/kats.rs:1873-1878 | in every run whose releases free the newest hold, the handles are exactly those of 1 to n and the next one is fresh |
| `Reservations.HandlesInUse` | src/kats.rs:1873-1878 | so a text is a key of the table exactly when it is `mock-res-` and a decimal numeral, with no leading zero, from 1 to the number of rows |
| `Reservations.DisciplinedReserveIsFresh` | src/kats.rs:1873-1878 | so each success of such a run adds exactly its coins under a handle not in the table |
| `Reservations.OutOfOrderReleaseOverwrites` | src/kats.rs:1873-1892 | after releasing one row of such a table, the next handle is fresh exactly when that row was the newest, and is the newest row's own otherwise |
| `Reservations.OverwriteDropsALiveHold` | src/kats.rs:1873-1892 | then the next success drops a live hold that was neither released nor lapsed |
| `Reservations.ALiveHoldIsDropped` | src/kats.rs:1873-1892 | the run that does it: hold a coin, let it lapse, hold it again, release the lapsed handle, hold another coin; the first coin's live, unreleased hold is gone |
| `Reservations.TableIsLedger` | src/kats.rs:1849-1904 | while handles are fresh, a row is in the table exactly when some call of the run took it and no later call released it |
| `Reservations.LedgerThroughout` | src/kats.rs:1849-1904 | at every point of any run the table is that ledger, lapsed and empty holds included, exactly when every success that found a row under its handle found the very row it wrote |
| `Reservations.HeldIsOutstanding` | src/kats.rs:1828-1904 | with fresh handles and whatever the clock does, a coin is held exactly while some reserve that took it is neither released nor lapsed |
| `Reservations.OutstandingIsKept` | src/kats.rs:1828-1904 | over every run with a clock that never goes back: at every point and later instant the table holds exactly the coins of unreleased live holds, by handle and by coin alike, if and only if no success wrote over a row that still held something |
| `Reservations.FreshOverwritesNothing` | src/kats.rs:1873-1878 | a run that takes fresh handles meets that condition |
| `Reservations.NewestFirstIsFresh` | src/kats.rs:1873-1878 | a run whose releases free the newest hold takes fresh handles throughout |
| `Reservations.OverwriteBreaksTheLedger` | src/kats.rs:1873-1892 | after an out-of-order release and a reserve, a hold that was taken and never released has no row |
| `Reservations.ReleaseOverRuns` | src/kats.rs:1887-1904 | while handles are fresh, releasing a hold taken and not released returns its coins, frees them exactly if the expiry handed out is ahead, and an immediate repeat finds nothing |
| `Reservations.ReleaseTellsLiveness` | src/results.rs:1995-2006 | over such runs `released` says whether the handle names a live reservation exactly when that hold has not lapsed; `false` is always truthful |
| `Reservations.RowIsUnreleased` | src/kats.rs:1849-1904 | in any run, a handle has a row exactly while some hold taken under it has not been released |
| `Reservations.RepeatedRelease` | src/results.rs:1994-2006 | after a release and any calls, releasing the handle again finds a row exactly when one of those calls took it again and none after it released it; otherwise nothing changes |
| `Reservations.RepeatFindsNothing` | src/results.rs:1994-2006 | with no release of it in between, a repeat finds nothing exactly while no success took the handle again |
| `Reservations.RepeatFreesAnotherHold` | src/kats.rs:1873-1897 | a newest-first run whose repeated release frees another, live hold |
| `Reservations.ReleaseOfALapsedHandle` | src/kats.rs:1892-1897 | a reachable table where a lapsed handle releases with success, naming a coin another live reservation holds throughout |
| `Reservations.HandleInjective` | src/kats.rs:1873 | two handles agree only if their numbers do |
| `Enrolment.CallReports` | src/kats.rs:1771-1804 | which keys are watched after each call, that it reports the growth or shrinkage of the set, and the size of the set, modulo 2^32 |
| `Enrolment.CountsBalance` | src/kats.rs:1771-1804 | over every run, reported additions less reported removals account for the set exactly, up to whole wraps of 32 bits |
| `Enrolment.ShortRequestsNeverWrap` | src/kats.rs:1777-1781 | no wrap happens while requests stay below 2^32 keys |
| `Enrolment.UnwatchReversesWatch` | src/params.rs:1292-1297 | re-sending an enrolment to `unwatch` restores the set exactly when none of its keys was there before; repeating either changes nothing |
| `SemVer.ParseIsInverse` | src/results.rs:139-147 | over every text and version: the text is read as the version exactly when it is how that valid version prints |
| `SemVer.PrintInjective` | src/results.rs:139-147 | two valid versions print alike only if equal |
| `SemVer.PrintText` | src/results.rs:71-92 | the printed text in full: three decimal numbers with dots, the pre-release behind `-`, the build behind `+` |
| `SemVer.GrammarOfUndotted` | src/results.rs:192-195 | which one identifier is admitted as pre-release and as build, by its characters and leading zero |
| `SemVer.GrammarOfDotted` | src/results.rs:192-195 | a dotted text is admitted exactly when what is on each side of a dot is |
| `PeerSoftware.ParseReports` | src/results.rs:182-209 | over every advertisement: a report exactly when the text, less whitespace around it, is a product that is not empty, the separator and a printed version other than 0.0.0 with any suffix, and `raw` is that text |
| `PeerSoftware.RenderMeaning` | src/results.rs:71-92 | what each detail renders: the whole version, `major.minor.0` or nothing at 0.0, and nothing |
| `Text.TrimMeaning` | src/results.rs:183 | trimming gives the one text that neither starts nor ends with whitespace and differs from the original by whitespace at its ends |
| `Text.WhitespaceChars` | src/results.rs:183 | the whitespace trimmed is the 25 characters of Unicode's White_Space |
| `PeerSoftware.ReadBack` | src/results.rs:71-92 | what a full rendering reads back as, for every product and version |
| `PeerSoftware.AdvertisementRoundTrip` | src/results.rs:71-92 | a product with no leading whitespace, separators allowed inside, and a non-zero version read back as themselves |
| `PeerSoftware.RenderingIsEmptyOrReadable` | src/results.rs:57-92 | the exact condition under which a rendering is empty or reads back as a report |
| `PeerSoftware.SomeRenderingsReadAsUnknown` | src/results.rs:73 | two non-empty renderings that read back as unknown |
| `PeerSoftware.MinorRevealsMajorAndMinor` | src/results.rs:74-90 | coarse renderings agree exactly when major and minor agree, and are empty exactly for 0.0.x |
| `PeerSoftware.CoarseningIsIdempotent` | src/results.rs:74-90 | coarsening what was read back from a coarse advertisement gives the same advertisement |
| `Identifiers.NormalizeAccepts` | src/params.rs:844-851 | an id is accepted exactly in its canonical spelling or that after one `0x`, and the canonical one comes back; the same at length 96 for keys |
| `Identifiers.NormalizeIdempotent` | src/params.rs:1283-1290 | a normalised id normalises to itself, prefixed or not |
| `Identifiers.FromHex` | src/params.rs:493-505 | the loop over digit pairs answers as `AssetIdOf` does, errors included |
| `Identifiers.ToHex` | src/params.rs:508-516 | the folded text is the id's encoding and is read back as the id |
| `Identifiers.AssetIdRoundTrip` | src/params.rs:493-516 | every id is read back from its text, with or without `0x` |
| `Identifiers.AssetIdAccepts` | src/params.rs:493-527 | accepted exactly on 64 hex digits of either case after at most one `0x`, re-rendering as that body in lower case; a refusal names its cause and the length in bytes |
| `Identifiers.AssetIdSpellings` | src/params.rs:447-449 | two spellings give one id exactly when their lower-cased bodies agree |
| `Identifiers.IdOrderIsByteOrder` | src/results.rs:1165-1172 | ids of one length are ordered as text exactly as the numbers their bytes spell |
| `Identifiers.CanonicalIdsAreBytes` | src/results.rs:1169-1172 | every canonical id is the rendering of the bytes it decodes to |
| `Identifiers.KeyOrderIsByteOrder` | src/results.rs:2597-2610 | the derived order of bond keys is the order of their 64 bytes as one number, and keys are equal exactly when those are |
| `Identifiers.PrefixedIdOrder` | src/params.rs:1843-1848 | a prefixed id sorts before a canonical one exactly when that one does not start with `0` |
| `Identifiers.PrefixedIdCanSortLater` | src/params.rs:1843-1848 | some prefixed id sorts after some canonical one |
| `Assets.DecodeMeaning` | src/params.rs:621-647 | what every wire value is read as: `xch`, `dig` with its 64 digits, a tagged id by its own codec; and what anything else is refused as |
| `Assets.EncodeMeaning` | src/params.rs:604-619 | `xch` and `dig` are emitted for exactly their assets, and every other asset in tagged lower-case hex that is read back |
| `Assets.WireRoundTrip` | src/params.rs:604-647 | every asset is read back from what is emitted for it |
| `Assets.EncodeInjective` | src/params.rs:604-619 | two assets are emitted alike only if equal |
| `Assets.NormalizedIsCanonical` | src/params.rs:621-647 | re-emitting is an idempotent normaliser that merges two accepted spellings exactly when they name one asset |
| `Assets.DigSpellings` | src/params.rs:621-647 | the spellings that become the $DIG token are the token and the tagged id in any case, prefixed or not |
| `Assets.DigSpellingsAgree` | src/params.rs:580-588 | the declared bytes and hex of the $DIG id are one id |
| `Requests.NormalizeAllAccepts` | src/params.rs:1339-1350 | a list is accepted exactly when every element is, element by element; one malformed element refuses it |
| `Requests.CoinsRequest` | src/params.rs:971-1063 | which coins requests are accepted, what comes back and which message refuses the rest; both checks agree; checking is idempotent |
| `Requests.ByParentRequest` | src/params.rs:1066-1170 | the same for by-parent requests, the parent checked first |
| `Requests.PublicKeysRequest` | src/params.rs:1298-1357 | the same for watch and unwatch |
| `Requests.ReserveRequest` | src/params.rs:1472-1522 | the same for reserve |
| `Requests.BondsRequest` | src/params.rs:1850-1878 | a malformed half of a bond cursor refuses the request and the limit is checked first |
| `PeerAddress.ParsePrint` | src/params.rs:310-322 | every address is read back from its canonical text |
| `PeerAddress.AcceptedSpellings` | src/params.rs:285-298 | exactly which texts are accepted and for which address: the one dotted quad, or groups in any case with any leading zeros, one gap or none, the last two perhaps a dotted quad |
| `PeerAddress.GroupSpelling` | src/params.rs:292-293 | a group is one to four hex digits of either case |
| `PeerAddress.CanonicalAccepts` | src/params.rs:310-322 | a text is accepted, as an address's key, exactly when it is a spelling of that address with any whitespace around it; otherwise it is refused as malformed |
| `PeerAddress.QuadText` | src/params.rs:297 | an IPv4 key is four decimal numbers with dots |
| `PeerAddress.MappedForm` | src/params.rs:297-298 | an IPv4-mapped address is `::ffff:` and the dotted quad of its last two groups |
| `PeerAddress.GappedForm` | src/params.rs:297-298 | any other with two adjacent zero groups has the first of its longest zero runs as `::` and its other groups written out |
| `PeerAddress.PlainForm` | src/params.rs:297-298 | and one without is all eight groups; a run of two always has such a longest |
| `PeerAddress.GroupsText` | src/params.rs:297-298 | groups are written as their hexadecimal numbers with a colon between any two |
| `PeerAddress.LongestZeros` | src/params.rs:297-298 | the run compressed is the longest, and the first of the longest |
| `PeerAddress.AcceptedChars` | src/params.rs:292-294 | an accepted literal holds only hex digits, dots and colons: no bracket, zone, prefix length or host name |
| `PeerAddress.CanonicalIsIdempotent` | src/params.rs:310-322 | the canonical form of a canonical form is itself |
| `PeerAddress.OneKeyPerAddress` | src/params.rs:285-289 | two accepted spellings give one key exactly when they denote one address |
| `PeerAddress.KeyIsBounded` | src/params.rs:293-295 | a key is at most 39 bytes, however long its spelling |
| `PeerAddress.EndpointText` | src/params.rs:336-342 | the endpoint in full: the key, bracketed exactly when the address is IPv6, or the text as it stands when it is no address; a colon; the port in decimal |
| `PeerAddress.EndpointParts` | src/params.rs:336-342 | over any text, two endpoints are equal exactly when host text and port are |
| `PeerAddress.EndpointInjective` | src/params.rs:336-342 | over accepted spellings, two endpoints are equal exactly when address and port are |
| `PeerAddress.EndpointIsNoAddress` | src/params.rs:324-335 | an endpoint of an accepted address is never itself an address |
| `PeerAddress.NaiveJoinRetargets` | src/params.rs:326-329 | exactly when address and port joined by hand are an address, and that it is then never the one meant |
| `PeerAddress.LoopbackJoinRetargets` | src/params.rs:326-329 | the documented `::1` and 8444 join to `::1:8444`, which is the address 0:0:0:0:0:0:1:8444 |
| `PeerAddress.UnspecifiedJoinIsNoAddress` | src/params.rs:326-329 | `::` and 8444 join to `:::8444`, which is no address |
| `PeerAddress.UnparsedTextCanCollide` | src/params.rs:340 | a bracketed address is no literal, and is joined into the endpoint of the address inside |
| `Rendering.DisplayBounded` | src/results.rs:1522-1538 | the escape of the longest prefix of whole characters that fits the budget, then the marker exactly if a character was dropped |
| `Rendering.Display` | src/results.rs:1566-1571 | every character escaped, in order |
| `Rendering.OneLongestFit` | src/results.rs:1522-1538 | only one prefix fits so, hence that contract determines the rendering |
| `Rendering.WholeTokenFits` | src/results.rs:1507-1514 | nothing is dropped exactly when the whole escape fits, and then the rendering is `Display`'s |
| `Rendering.PlainRendering` | src/results.rs:1516-1521 | an ASCII token that needs no escaping is rendered as itself, or as its first `max_len` characters and an ellipsis |
| `Rendering.WidthIsEncoded` | src/results.rs:1522-1533 | the width counted for a character is that of its UTF-8 bytes, from which it is read back |
| `Rendering.BytesAreUtf8` | src/results.rs:1522-1533 | the length counted for a text is that of its UTF-8 bytes |
| `Rendering.BoundedBytes` | src/results.rs:1513-1514 | the escaped content is within the budget, and the marker is three bytes more |
| `Rendering.LargerBudgetKeepsMore` | src/results.rs:1522-1538 | a larger budget extends the content |
| `Rendering.TruncationCanPassForWhole` | src/results.rs:1513-1514 | a cut token renders as some whole token does, under the same budget, exactly when the content kept leaves three bytes of that budget |
| `Rendering.MarkerIsAmbiguous` | src/results.rs:1513-1514 | two tokens that render alike under one budget, one whole and one cut |
| `FrameBound.RecordCost` | src/results.rs:855-884 | the length of a record's JSON text with the comma behind it, taken from that text: 299 bytes, the asset's 4, 5 or 74, the digits of the amount, and each height's digits or 4 |
| `FrameBound.ByParentPageFits` | src/kats.rs:3634-3658 | every page of at most 1000 unclassified records fits the 1 MiB frame three times over |
| `FrameBound.CoinsPageFits` | src/params.rs:950-969 | every page of at most 1000 records fits twice over, whatever assets it mixes |
| `FrameBound.ThreefoldExactlyUntagged` | src/params.rs:934-969 | asset by asset, every page of at most 1000 records fits three times over exactly when the asset is not written in tagged form |
| `FrameBound.TaggedPageExceedsThreefold` | src/params.rs:938-969 | the failing page: a full one of any single tagged CAT |
| `FrameBound.LargestThreefoldPage` | src/params.rs:934-950 | the largest page size with a threefold headroom: 1019 records without an asset, 1016 with a token, 846 tagged |
| `TableRows.Scan` | src/kats.rs:5235-5257 | the rows are the pipe lines joined by pipe lines to some separator, trimmed, in order |
| `TableRows.RowsGrow` | src/kats.rs:5248-5255 | line by line, a line of a table is the next row, trimmed, and any other line is none |
| `TableRows.PipeMeaning` | src/kats.rs:5249 | a line is collected exactly when a pipe stands after any whitespace |
| `TableRows.SeparatorMeaning` | src/kats.rs:5237-5239 | a line is a separator exactly when three dashes stand after whitespace, pipes and whitespace, each perhaps none |
| `TableRows.RunIsWholeOrNothing` | src/kats.rs:5236-5244 | a maximal run of pipe lines contributes all its lines or none, by whether it holds a separator |

## Left out

- The dispatcher, the method and error catalogues and the JSON-RPC envelope: finite enumerations and small matches.
- JSON parsing and serde: a request is taken as its decoded fields, an asset as one of the two shapes its untagged enum admits.
- The rows' other fields (amounts, heights, hashes, source and freshness fields of the coin reads): constants of the reference node's fixtures.
- The standard library's address parser and the `semver` crate, which are not in the repository: the model writes out the grammars they implement, with 64-bit version numbers; `semver`'s limit on identifier length is not modelled.
- The text of the peer-address error after its fixed part, which echoes the input in debug form.
- `char::escape_debug`: a parameter; the lemma that needs something of it says what.
- 64-bit wrap-around of the clock: an expiry is the instant plus at most 600, on an unbounded clock.
- The names of a coin record's JSON keys are written out, but only their lengths enter a result.
- Threads: the node's tables are thread-local, so its calls are sequential.
- By-id and coin-spend requests: one normalised id each, checked by the rule of `Identifiers.NormalizeAccepts`.
- URL checks, mirror bonds, collateral, profiles, arrivals, pairing and the updater: the reference node answers them with constants.
- Ban-list eviction, freshness rules and chain reads: obligations on nodes outside this repository.
