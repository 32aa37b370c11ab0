# chromium-archive data builder: sync and correlation engine

This project models the core of `src/scripts/build-data.ts` from
chromium-archive. That script keeps a SQLite database of Chromium snapshot
builds in step with the public `chromium-browser-snapshots` bucket. It also
keeps the Chromium milestone feed. Then it exports, for every milestone and
platform, the newest snapshot at or before the milestone's branch point.

The model has six modules:

- `Wrappers` (wrappers.dfy): `Option`.
- `Types` (types.dfy): a snapshot row, a listing page, a milestone feed item,
  the three tables as one value (`Tables`), the outcome of a platform sync and
  an exported record.
- `Listing` (listing.dfy): the parsing of listing prefixes `<platform>/<rev>/`.
  This covers `split('/')` with its inverse `Join`, the `+rev` coercion on
  decimal digit strings with its inverse `DecimalString`, and the truthiness
  filter of the `flatMap`.
- `Store` (store.dfy): pure functions for what each step does to the tables.
  They cover insert-or-ignore on the unique `(prefix, revision)` index, the
  page-token chain, the per-platform snapshot sync (`SyncSnapshots`) and the
  milestone upsert (`UpsertMilestones`). The lemmas next to them state the
  sync's guarantees.
- `Database` (database.dfy): the database as a class with one field per table.
  `LoadSnapshots` performs the last-change lookup and short-circuit, calls
  `LoadPages` (the page loop, with one insert-or-ignore batch per page) and
  ends with the `sync_logs` upsert. `LoadBranches` is the milestone upsert
  loop. Each method is proved to leave the tables exactly as the matching
  `Store` function says.
- `Resolver` (resolver.dfy): the `exportJson` query. It takes the greatest
  snapshot revision at or below each milestone's revision, for each distinct
  snapshot platform, and emits a record only when one exists. The records are
  ordered by `(revision, prefix)` under SQLite's BINARY text collation.

The remote bucket is modelled as a sequence of listing pages, in the order the
page loop requests them. A request past the end of that sequence is a fetch
that fails (`FetchFailed`). Pages committed before it stay in the table, and
`sync_logs` is not written. The number read from `LAST_CHANGE` and the
`updatedAt` timestamp are parameters. A page token ends the loop when it is
absent and also when it is the empty string, because the loop tests it for
JavaScript truthiness (lines 46 and 69).

Three behaviours of the code that are easy to miss:

- The `ORDER BY revision, prefix` does not fix the order of records that tie
  on both keys. Two milestones can resolve to the same snapshot, so the query
  alone does not make exports byte-identical. `Resolver.ExportKeysDetermined`
  proves that any two exports of the same tables hold the same records and
  agree on `(revision, prefix)` at every position. `Resolver.TiesMayComeInEitherOrder`
  shows two different valid orders for one state of the tables.
- The stored prefix is the first path segment of each listing entry. It is not
  the platform being synced; the short-circuit check and the `sync_logs` row
  use the platform being synced. `Store.SyncWritesOwnPlatformOnly` proves that
  the two coincide when every entry lies under `<platform>/`.
- An entry is dropped when `+rev` is falsy, and not by a positive-integer test.
  So `""`, `"0"` and `"00"` are dropped, while `"007"` gives revision 7.

## Model

| member | source | states |
|---|---|---|
| `Listing.Split` | src/scripts/build-data.ts:53 | `split('/')` gives at least one part, no part contains the separator, and joining the parts with `/` gives back the input |
| `Listing.SplitAppend` | src/scripts/build-data.ts:53 | splitting `p + r`, where `p` has no separator, puts `p` in front of the first part of `r`'s split |
| `Listing.SplitJoin` | src/scripts/build-data.ts:53 | split undoes join for parts without a separator (the inverse direction) |
| `Listing.FirstSegment` | src/scripts/build-data.ts:53 | the first part of the split (the shadowing `platform`) is the text before the first `/` |
| `Listing.DecimalString` | src/scripts/build-data.ts:54 | the canonical decimal spelling of n is a nonempty digit string without a leading zero, and its value is n |
| `Listing.DecimalValue` | src/scripts/build-data.ts:54 | `+rev` on a digit string, read left to right; its inverse is `DecimalString`, and `LeadingZero` and `ZeroIffAllZeros` state its behaviour |
| `Listing.ZeroIffAllZeros` | src/scripts/build-data.ts:54-55 | a digit string is worth 0, and so dropped as falsy, exactly when every digit is `0` (the empty string included) |
| `Listing.NumberValue` | src/scripts/build-data.ts:54 | `+rev`: the digit string's value, or NaN (`None`) for anything else; `ParseSegments`, `ParseMissingRevision` and the examples state what the filter does with it |
| `Listing.LeadingZero` | src/scripts/build-data.ts:54 | a leading zero does not change the value of a digit string |
| `Listing.ParseItem` | src/scripts/build-data.ts:52-56 | a kept entry has a revision above 0, and its platform is a slash-free leading segment of the prefix |
| `Listing.ParseItems` | src/scripts/build-data.ts:52-56 | the `flatMap` keeps exactly the items of the entries that parse, and never more items than entries |
| `Listing.SplitSegments` | src/scripts/build-data.ts:53 | the destructured `[platform, rev]` of `p/d…` are `p` and `d` |
| `Listing.ParseSegments` | src/scripts/build-data.ts:52-56 | for `p/d…`: an item is produced iff `d` is a nonempty digit string with nonzero value, and then it is `(p, value of d)` |
| `Listing.ParseIgnoresLeadingZeros` | src/scripts/build-data.ts:53-55 | `p/0d/` parses to the same snapshot as `p/d/` |
| `Listing.ParseListingPrefix` | src/scripts/build-data.ts:52-56 | every snapshot with a slash-free platform and positive revision is parsed back from `platform/rev/` |
| `Listing.ParseMissingRevision` | src/scripts/build-data.ts:53-55 | an entry without a `/` has no revision segment (`+undefined` is NaN) and is dropped |
| `Listing.ParseNonNumericExample` | src/scripts/build-data.ts:52-56 | `win64/abcd/` is dropped |
| `Listing.ParseNumericExample` | src/scripts/build-data.ts:52-56 | `win64/12345/` gives `(win64, 12345)` |
| `Listing.ParseZeroExamples` | src/scripts/build-data.ts:54-55 | `win64/0/` and `win64//` are dropped (`+"0"` and `+""` are 0) |
| `Store.InsertRow` | src/scripts/build-data.ts:57-58 | one `INSERT OR IGNORE` adds the row and keeps every old row; a conflicting row changes nothing |
| `Store.InsertOrIgnore` | src/scripts/build-data.ts:60-65 | the rows after a batch are exactly the old rows plus the batch's items |
| `Store.InsertOrIgnoreConcat` | src/scripts/build-data.ts:60-65 | committing two batches one after the other equals committing their concatenation |
| `Store.ReinsertIsNoOp` | src/scripts/build-data.ts:26 | re-inserting rows that are already stored changes nothing |
| `Store.InsertOrIgnoreCount` | src/scripts/build-data.ts:26 | the table grows by the number of distinct new pairs; a duplicate is stored once |
| `Store.Truthy` | src/scripts/build-data.ts:68-69 | the token test `if (pageToken)`: absent and `""` are falsy; `PagesFetched` and `PagesFetchedStopsAt` state its effect on the loop |
| `Store.PagesFetched` | src/scripts/build-data.ts:44-70 | the loop consumes responses up to the first one without a truthy token; every earlier one has a token |
| `Store.PagesFetchedStopsAt` | src/scripts/build-data.ts:68-69 | a page without a truthy token after token-bearing pages ends the chain right there |
| `Store.PagesFetchedRunsOut` | src/scripts/build-data.ts:44-47 | when every response carries a token, all of them are consumed and the chain does not end |
| `Store.ChainEnds` | src/scripts/build-data.ts:44-70 | the loop reaches `break`: the last consumed page has no truthy token; `Database.Database.LoadPages` returns it and `SyncLogOnlyOnCompletion` ties the log write to it |
| `Store.PageItems` | src/scripts/build-data.ts:52-65 | a run of pages yields exactly the items parsed from some entry of some page of the run |
| `Store.PageItemsSnoc` | src/scripts/build-data.ts:44-70 | one more page appends that page's items |
| `Store.SyncSnapshots` | src/scripts/build-data.ts:29-76 | one `loadSnapshots(platform)` run as a function of the old tables; its guarantees are `SyncShortCircuit`, `SyncLoadsEveryPage`, `SyncLogOnlyOnCompletion`, `SyncTwice` and `SyncWritesOwnPlatformOnly`, and `Database.Database.LoadSnapshots` is proved to agree with it |
| `Store.SyncShortCircuit` | src/scripts/build-data.ts:33-40 | when `(platform, lastChange)` is stored, the sync changes no table and reports up to date |
| `Store.PageItemsIff` | src/scripts/build-data.ts:44-65 | an item belongs to a run of pages iff some entry of some page of the run parses to it |
| `Store.SyncLoadsEveryPage` | src/scripts/build-data.ts:44-70 | after the page loop, the rows are exactly the old rows plus every parsed item of every consumed page; no old row is removed and milestones are unchanged |
| `Store.SyncLogOnlyOnCompletion` | src/scripts/build-data.ts:71-74 | `sync_logs` gets `now` for the platform iff there was no short-circuit and the token chain ended; the rows of other platforms are unchanged |
| `Store.SyncTwice` | src/scripts/build-data.ts:29-76 | a second sync against the same remote adds no row, and it short-circuits once the last-change revision is stored |
| `Store.FirstSegmentUnique` | src/scripts/build-data.ts:53 | two slash-free platforms that both start an entry followed by `/` are equal |
| `Store.SyncWritesOwnPlatformOnly` | src/scripts/build-data.ts:42-56 | when every entry lies under `<platform>/`, the sync adds rows of that platform only |
| `Store.UpsertMilestones` | src/scripts/build-data.ts:84-96 | the milestones after the feed are the old ones plus the feed's milestones; a milestone absent from the feed keeps its revision |
| `Store.LastWriteWins` | src/scripts/build-data.ts:85-93 | a milestone in the feed gets the `chromium_main_branch_position` of its last occurrence |
| `Store.MilestoneOverwriteExample` | src/scripts/build-data.ts:85 | upserting milestone 100 at 500 and then at 600 leaves exactly the row (100, 600) |
| `Database.Database.Open` | src/scripts/build-data.ts:11-27 | opening the database keeps the rows it already holds |
| `Database.Database.InsertOrIgnoreRow` | src/scripts/build-data.ts:57-62 | one insert leaves the snapshots as `InsertRow` says and the other tables unchanged |
| `Database.Database.InsertMany` | src/scripts/build-data.ts:60-65 | the per-page batch, row by row, leaves the snapshots as `InsertOrIgnore` says and the other tables unchanged |
| `Database.Database.TouchSyncLog` | src/scripts/build-data.ts:71-74 | `INSERT OR REPLACE` sets the platform's single `sync_logs` row and changes nothing else |
| `Database.Database.LoadSnapshots` | src/scripts/build-data.ts:29-76 | the lookup of `(platform, lastChange)` with its short-circuit, the page loop and the final log write leave the tables and outcome given by `SyncSnapshots`, whose guarantees the `Store.Sync…` lemmas state |
| `Database.Database.LoadPages` | src/scripts/build-data.ts:44-70 | the page loop inserts the items of exactly the consumed pages, reports completion iff the token chain ended, and leaves the other tables unchanged |
| `Database.Database.UpsertMilestone` | src/scripts/build-data.ts:84-93 | one upsert sets the milestone's revision and changes nothing else |
| `Database.Database.LoadBranches` | src/scripts/build-data.ts:78-97 | the transaction leaves milestones as `UpsertMilestones` of the feed and the other tables unchanged |
| `Resolver.Greatest` | src/scripts/build-data.ts:105 | `MAX` picks a row whose revision no other candidate exceeds |
| `Resolver.MaxAtOrBelow` | src/scripts/build-data.ts:104-109 | `MAX` over the platform's rows at or below the ceiling is non-NULL iff such a row exists, and then it is a stored revision of the platform, not above the ceiling, that no such row exceeds |
| `Resolver.MaxAtOrBelowMonotone` | src/scripts/build-data.ts:104-109 | raising the ceiling never makes the `MAX` NULL and never lowers it |
| `Resolver.Resolved` | src/scripts/build-data.ts:100-119 | the records the query emits, before ordering; `ResolvedIff`, `EmittedIffEligible`, `ResolvedUnique` and `ResolvedMonotone` state what they are |
| `Resolver.ResolvedIff` | src/scripts/build-data.ts:100-119 | `(m, p, r)` is emitted iff m is a milestone, `(p, r)` is stored, `r <= m.revision`, and no stored revision of p at or below `m.revision` is greater than r |
| `Resolver.EmittedIffEligible` | src/scripts/build-data.ts:114-119 | a `(milestone, platform)` pair is emitted iff the platform has a snapshot at or below the milestone's revision |
| `Resolver.ResolvedMonotone` | src/scripts/build-data.ts:100-119 | a milestone at a branch position not below another's resolves every platform the other resolves, to a revision at least as new |
| `Resolver.ResolvedUnique` | src/scripts/build-data.ts:100-119 | at most one record per `(milestone, platform)` |
| `Resolver.ResolutionExample` | src/scripts/build-data.ts:104-109 | snapshots 10, 50 and 90 with a milestone at 60 resolve to exactly `(5, linux, 50)` |
| `Resolver.NothingBelowExample` | src/scripts/build-data.ts:114-119 | when every snapshot is above the milestone's revision, nothing is emitted |
| `Resolver.TextLe` | src/scripts/build-data.ts:120 | the BINARY collation of `prefix`: code point by code point, a proper prefix first; `TextLeTotal`, `TextLeAntisymmetric` and `TextLeTransitive` make it a total order |
| `Resolver.TextLeTotal` | src/scripts/build-data.ts:120 | the text order used for `prefix` is total |
| `Resolver.TextLeAntisymmetric` | src/scripts/build-data.ts:120 | the text order is antisymmetric |
| `Resolver.TextLeTransitive` | src/scripts/build-data.ts:120 | the text order is transitive |
| `Resolver.KeyLe` | src/scripts/build-data.ts:120 | `ORDER BY revision, prefix`; `KeyLeTotal`, `KeyLeTransitive` and `KeyLeAntisymmetric` make it a total preorder on records |
| `Resolver.KeyLeTotal` | src/scripts/build-data.ts:120 | the `(revision, prefix)` order is total |
| `Resolver.KeyLeTransitive` | src/scripts/build-data.ts:120 | the `(revision, prefix)` order is transitive |
| `Resolver.KeyLeAntisymmetric` | src/scripts/build-data.ts:120 | records that sort both ways have equal revision and prefix |
| `Resolver.Insert` | src/scripts/build-data.ts:120 | inserting into an ordered result keeps it ordered and adds exactly that record |
| `Resolver.SortedOf` | src/scripts/build-data.ts:120 | every finite set of records has an arrangement ordered by `(revision, prefix)` with each record once |
| `Resolver.IsExport` | src/scripts/build-data.ts:100-122 | `stmt.all()`: every resolved record once, in `(revision, prefix)` order; `SortedOf`, `ExportExists` and `ExportKeysDetermined` state that one exists and how far it is determined |
| `Resolver.IsExportOf` | src/scripts/build-data.ts:122-131 | the exported document (`Resolver.Document`): `records` is an export of the tables and `updatedAt` is the `sync_logs` table; `ExportExists` shows one always exists |
| `Resolver.ExportExists` | src/scripts/build-data.ts:122-131 | the export's `records` can be every resolved record once in query order, with `updatedAt` equal to `sync_logs` |
| `Resolver.ExportKeysDetermined` | src/scripts/build-data.ts:120 | two ordered arrangements of the same records have the same length and the same `(revision, prefix)` at every position |
| `Resolver.TiesExampleResolved` | src/scripts/build-data.ts:100-119 | two milestones at 20 and 30 over the single snapshot (linux, 10) both resolve to it |
| `Resolver.TiesMayComeInEitherOrder` | src/scripts/build-data.ts:120 | records tied on `(revision, prefix)` can be emitted in either order |

## Left out

- Network I/O: the `fetch` calls, URL building and `res.text()` / `res.json()` decoding. The `LAST_CHANGE` value is an integer parameter. The listing is a sequence of pages in request order, and a request past its end stands for any failing fetch or undecodable body.
- `LAST_CHANGE` text that is not a number (`+text` is NaN): not modelled. Such a value never matches a stored row, so the sync goes ahead, as it does for any integer that is not stored.
- `+rev` coercion is modelled for decimal digit strings only. JavaScript also turns whitespace-padded, hexadecimal, exponent, fractional, signed and `Infinity` strings into numbers. The model treats all of them as NaN and drops them. Revisions are unbounded integers, so the double rounding above 2^53 is not modelled.
- The `total` counter and the progress output (`process.stdout.write`, `console.log`): observational only.
- `new Date().toISOString()`: the timestamp is the parameter `now`.
- SQLite itself: prepared statements, transaction rollback and a crash inside a batch. Each page batch and the milestone batch are one atomic state step.
- The `exportJson` file output (`JSON.stringify`, `writeFile`, `mkdir`): the exported document is the value `Resolver.Document`. The order of the `updatedAt` rows from `SELECT * FROM sync_logs` is unspecified, so they are a map.
- `loadData` and the top-level `await`: the driver that syncs each configured platform in turn, then the milestones, then exports. The `platforms` list comes from `$lib/constants`, which is not part of this model. A fetch failure there propagates and ends the whole run; per platform the model reports it as `FetchFailed`.
- A token chain that never ends: the remote is a finite sequence of pages, so the page loop in `Database.Database.LoadPages` always stops (at the chain's end or at a failed fetch). The `while (true)` loop would run forever on a remote that keeps returning tokens, and the model cannot express that run.
- Milestone feed items whose fields are missing or not numbers: the feed is a sequence of integer pairs.
