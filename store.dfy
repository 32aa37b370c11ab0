/**
  The database's three tables as values and what the sync steps do to them:
  insert-or-ignore into chromium_snapshots, the page chain of one listing,
  the per-platform snapshot sync, and the milestone upsert. The class in
  database.dfy performs these steps in place and is proved against these
  functions.
*/
module Store {
  import opened Wrappers
  import opened Types
  import opened Listing

  // ---------------------------------------------------------------------------
  // chromium_snapshots: unique (prefix, revision) with INSERT OR IGNORE
  // ---------------------------------------------------------------------------

  /** One `INSERT OR IGNORE`: a row already present (a unique-index conflict) is skipped. */
  function InsertRow(rows: set<Snapshot>, x: Snapshot): (r: set<Snapshot>)
    ensures x in r && rows <= r && r - {x} <= rows
    ensures x in rows ==> r == rows
  {
    if x in rows then rows else rows + {x}
  }

  /** The rows after inserting `items` one by one, in order, with INSERT OR IGNORE. */
  function InsertOrIgnore(rows: set<Snapshot>, items: seq<Snapshot>): (r: set<Snapshot>)
    ensures forall y :: y in r <==> y in rows || y in items
    decreases |items|
  {
    if items == [] then rows else InsertOrIgnore(InsertRow(rows, items[0]), items[1..])
  }

  /** Splitting a batch into two consecutive batches gives the same rows. */
  lemma InsertOrIgnoreConcat(rows: set<Snapshot>, a: seq<Snapshot>, b: seq<Snapshot>)
    ensures InsertOrIgnore(InsertOrIgnore(rows, a), b) == InsertOrIgnore(rows, a + b)
  {
    assert forall y :: y in a + b <==> y in a || y in b;
  }

  /** Re-inserting rows that are all present already changes nothing. */
  lemma ReinsertIsNoOp(rows: set<Snapshot>, items: seq<Snapshot>)
    requires forall i :: 0 <= i < |items| ==> items[i] in rows
    ensures InsertOrIgnore(rows, items) == rows
  {
  }

  /**
    Each distinct new pair adds exactly one row, however often it occurs in the
    batch: the table grows by the number of distinct pairs not stored before.
  */
  lemma InsertOrIgnoreCount(rows: set<Snapshot>, items: seq<Snapshot>)
    ensures |InsertOrIgnore(rows, items)| == |rows| + |(set x | x in items) - rows|
  {
    var added := (set x | x in items) - rows;
    assert InsertOrIgnore(rows, items) == rows + added;
    assert rows !! added;
  }

  // ---------------------------------------------------------------------------
  // The token chain of one listing
  // ---------------------------------------------------------------------------

  /** JavaScript truthiness of an optional string: absent and "" are both falsy. */
  predicate Truthy(token: Option<string>) {
    token.Some? && token.value != ""
  }

  /**
    How many of the remote's responses the page loop consumes: it stops after
    the first page without a truthy nextPageToken, or when the responses run
    out (the next request fails).
  */
  function PagesFetched(responses: seq<ListingPage>): (n: nat)
    ensures n <= |responses|
    ensures responses != [] ==> n >= 1
    ensures forall k :: 0 <= k < n - 1 ==> Truthy(responses[k].nextPageToken)
    ensures n < |responses| ==> !Truthy(responses[n - 1].nextPageToken)
  {
    if responses == [] then 0
    else if !Truthy(responses[0].nextPageToken) then 1
    else 1 + PagesFetched(responses[1..])
  }

  /** The page loop reached a page with no continuation token (rather than a failed request). */
  predicate ChainEnds(responses: seq<ListingPage>) {
    var n := PagesFetched(responses);
    n > 0 && !Truthy(responses[n - 1].nextPageToken)
  }

  /** The consumed responses are exactly those up to the first one without a truthy token. */
  lemma PagesFetchedStopsAt(responses: seq<ListingPage>, k: nat)
    requires k < |responses|
    requires forall j :: 0 <= j < k ==> Truthy(responses[j].nextPageToken)
    requires !Truthy(responses[k].nextPageToken)
    ensures PagesFetched(responses) == k + 1 && ChainEnds(responses)
  {
  }

  /** When every response carries a token, all are consumed and the next request fails. */
  lemma PagesFetchedRunsOut(responses: seq<ListingPage>)
    requires forall j :: 0 <= j < |responses| ==> Truthy(responses[j].nextPageToken)
    ensures PagesFetched(responses) == |responses| && !ChainEnds(responses)
  {
  }

  /** The snapshot items of a run of pages, page by page, in order. */
  function PageItems(pages: seq<ListingPage>): (items: seq<Snapshot>)
    ensures forall x :: x in items <==> exists k :: 0 <= k < |pages| && x in ParseItems(pages[k].prefixes)
  {
    if pages == [] then []
    else
      var init := pages[..|pages| - 1];
      var items := PageItems(init) + ParseItems(pages[|pages| - 1].prefixes);
      assert forall k :: 0 <= k < |init| ==> init[k] == pages[k];
      items
  }

  /** Adding one more page to the run appends that page's items. */
  lemma PageItemsSnoc(pages: seq<ListingPage>, k: nat)
    requires k < |pages|
    ensures PageItems(pages[..k + 1]) == PageItems(pages[..k]) + ParseItems(pages[k].prefixes)
  {
    assert pages[..k + 1][..k] == pages[..k];
  }

  // ---------------------------------------------------------------------------
  // Snapshot sync of one platform
  // ---------------------------------------------------------------------------

  /**
    The tables and the outcome after syncing `platform`: nothing happens when
    (platform, lastChange) is stored already; otherwise every consumed page is
    inserted, and sync_logs gets `now` for the platform only if the token
    chain ended rather than a request failing.
  */
  function SyncSnapshots(t: Tables, platform: string, lastChange: int, responses: seq<ListingPage>, now: string): (Tables, SyncOutcome)
  {
    if Snapshot(platform, lastChange) in t.snapshots then (t, UpToDate)
    else
      var rows := InsertOrIgnore(t.snapshots, PageItems(responses[..PagesFetched(responses)]));
      if ChainEnds(responses) then (t.(snapshots := rows, syncLogs := t.syncLogs[platform := now]), Synced)
      else (t.(snapshots := rows), FetchFailed)
  }

  /** The short-circuit: a platform whose last-change revision is stored is left alone. */
  lemma SyncShortCircuit(t: Tables, platform: string, lastChange: int, responses: seq<ListingPage>, now: string)
    requires Snapshot(platform, lastChange) in t.snapshots
    ensures SyncSnapshots(t, platform, lastChange, responses, now) == (t, UpToDate)
  {
  }

  /** Every parsed item of every page of a run is among the run's items, and nothing else is. */
  lemma PageItemsIff(pages: seq<ListingPage>, x: Snapshot)
    ensures x in PageItems(pages) <==>
      exists k, i :: 0 <= k < |pages| && 0 <= i < |pages[k].prefixes| && ParseItem(pages[k].prefixes[i]) == Some(x)
  {
    if x in PageItems(pages) {
      var k :| 0 <= k < |pages| && x in ParseItems(pages[k].prefixes);
      var i :| 0 <= i < |pages[k].prefixes| && ParseItem(pages[k].prefixes[i]) == Some(x);
    }
    if exists k, i :: 0 <= k < |pages| && 0 <= i < |pages[k].prefixes| && ParseItem(pages[k].prefixes[i]) == Some(x) {
      var k, i :| 0 <= k < |pages| && 0 <= i < |pages[k].prefixes| && ParseItem(pages[k].prefixes[i]) == Some(x);
      assert x in ParseItems(pages[k].prefixes);
    }
  }

  /**
    Pagination completeness and monotone growth: after a sync that did not
    short-circuit, the stored rows are the old rows plus every parsed item of
    every consumed page; no row is removed; milestones are untouched.
  */
  lemma SyncLoadsEveryPage(t: Tables, platform: string, lastChange: int, responses: seq<ListingPage>, now: string)
    requires Snapshot(platform, lastChange) !in t.snapshots
    ensures var (t', _) := SyncSnapshots(t, platform, lastChange, responses, now);
      && t.snapshots <= t'.snapshots
      && t'.milestones == t.milestones
      && (forall x :: x in t'.snapshots <==>
            (x in t.snapshots ||
             exists k, i :: 0 <= k < PagesFetched(responses) && 0 <= i < |responses[k].prefixes| &&
               ParseItem(responses[k].prefixes[i]) == Some(x)))
  {
    var n := PagesFetched(responses);
    var pages := responses[..n];
    forall x
      ensures x in PageItems(pages) <==>
        exists k, i :: 0 <= k < n && 0 <= i < |responses[k].prefixes| && ParseItem(responses[k].prefixes[i]) == Some(x)
    {
      PageItemsIff(pages, x);
      assert forall k :: 0 <= k < n ==> pages[k] == responses[k];
    }
  }

  /**
    sync_logs: the platform's row is written exactly when the sync ran to the
    end of the token chain, and no other platform's row changes.
  */
  lemma SyncLogOnlyOnCompletion(t: Tables, platform: string, lastChange: int, responses: seq<ListingPage>, now: string)
    ensures var (t', outcome) := SyncSnapshots(t, platform, lastChange, responses, now);
      && (outcome == Synced <==> Snapshot(platform, lastChange) !in t.snapshots && ChainEnds(responses))
      && (outcome == Synced ==> platform in t'.syncLogs && t'.syncLogs[platform] == now)
      && (outcome != Synced ==> t'.syncLogs == t.syncLogs)
      && (forall q :: q != platform ==> (q in t'.syncLogs <==> q in t.syncLogs))
      && (forall q :: q != platform && q in t.syncLogs ==> t'.syncLogs[q] == t.syncLogs[q])
  {
  }

  /**
    Idempotence: a second sync against the unchanged remote adds no row, and
    when the first run stored the last-change revision the second run
    short-circuits.
  */
  lemma SyncTwice(t: Tables, platform: string, lastChange: int, responses: seq<ListingPage>, now: string, later: string)
    ensures var (t1, _) := SyncSnapshots(t, platform, lastChange, responses, now);
      var (t2, outcome2) := SyncSnapshots(t1, platform, lastChange, responses, later);
      && t2.snapshots == t1.snapshots
      && (Snapshot(platform, lastChange) in t1.snapshots ==> t2 == t1 && outcome2 == UpToDate)
  {
    var (t1, _) := SyncSnapshots(t, platform, lastChange, responses, now);
    var items := PageItems(responses[..PagesFetched(responses)]);
    if Snapshot(platform, lastChange) !in t1.snapshots {
      ReinsertIsNoOp(t1.snapshots, items);
    }
  }

  /** `a/` and `b/` cannot both begin `s` unless a == b, when neither contains the separator. */
  lemma FirstSegmentUnique(a: string, b: string, s: string)
    requires Separator !in a && Separator !in b
    requires a + [Separator] <= s && b + [Separator] <= s
    ensures a == b
  {
    FirstSegment(a, s);
    FirstSegment(b, s);
  }

  /**
    A sync writes rows of its own platform only, provided the listing holds
    only entries under `<platform>/` (the request asks for that prefix).
  */
  lemma SyncWritesOwnPlatformOnly(t: Tables, platform: string, lastChange: int, responses: seq<ListingPage>, now: string)
    requires Separator !in platform
    requires forall k, i :: 0 <= k < |responses| && 0 <= i < |responses[k].prefixes| ==>
      platform + [Separator] <= responses[k].prefixes[i]
    ensures var (t', _) := SyncSnapshots(t, platform, lastChange, responses, now);
      forall x :: x in t'.snapshots - t.snapshots ==> x.platform == platform
  {
    var (t', _) := SyncSnapshots(t, platform, lastChange, responses, now);
    if Snapshot(platform, lastChange) !in t.snapshots {
      SyncLoadsEveryPage(t, platform, lastChange, responses, now);
      forall x | x in t'.snapshots - t.snapshots
        ensures x.platform == platform
      {
        assert exists k, i :: (0 <= k < PagesFetched(responses) && 0 <= i < |responses[k].prefixes| &&
          ParseItem(responses[k].prefixes[i]) == Some(x));
        var k, i :| 0 <= k < PagesFetched(responses) && 0 <= i < |responses[k].prefixes| &&
          ParseItem(responses[k].prefixes[i]) == Some(x);
        FirstSegmentUnique(x.platform, platform, responses[k].prefixes[i]);
      }
    }
  }

  // ---------------------------------------------------------------------------
  // chromium_milestones: upsert keyed by milestone
  // ---------------------------------------------------------------------------

  /** The milestones after upserting the feed's items in order (last write wins). */
  function UpsertMilestones(milestones: map<int, int>, feed: seq<MilestoneItem>): (r: map<int, int>)
    ensures forall m :: m in r <==> m in milestones || exists i :: 0 <= i < |feed| && feed[i].milestone == m
    ensures forall m :: m in milestones && (forall i :: 0 <= i < |feed| ==> feed[i].milestone != m) ==>
      r[m] == milestones[m]
  {
    if feed == [] then milestones
    else
      var init := feed[..|feed| - 1];
      var last := feed[|feed| - 1];
      assert forall i :: 0 <= i < |init| ==> init[i] == feed[i];
      UpsertMilestones(milestones, init)[last.milestone := last.branchPosition]
  }

  /** Last write wins: a milestone takes the branch position of its last occurrence in the feed. */
  lemma {:induction false} LastWriteWins(milestones: map<int, int>, feed: seq<MilestoneItem>, i: nat)
    requires i < |feed|
    requires forall j :: i < j < |feed| ==> feed[j].milestone != feed[i].milestone
    ensures feed[i].milestone in UpsertMilestones(milestones, feed)
    ensures UpsertMilestones(milestones, feed)[feed[i].milestone] == feed[i].branchPosition
  {
    var init := feed[..|feed| - 1];
    if i < |feed| - 1 {
      forall j | i < j < |init|
        ensures init[j].milestone != init[i].milestone
      {
        assert init[j] == feed[j];
      }
      LastWriteWins(milestones, init, i);
    }
  }

  /** Upserting milestone 100 at 500 and then at 600 leaves the single row (100, 600). */
  lemma MilestoneOverwriteExample()
    ensures UpsertMilestones(map[], [MilestoneItem(100, 500), MilestoneItem(100, 600)]) == map[100 := 600]
  {
    var feed := [MilestoneItem(100, 500), MilestoneItem(100, 600)];
    var r := UpsertMilestones(map[], feed);
    LastWriteWins(map[], feed, 1);
    assert r.Keys == {100};
  }
}
