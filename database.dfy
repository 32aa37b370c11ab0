/**
  The SQLite database as an object whose tables the sync steps update in
  place: loadSnapshots' page loop with one insert-or-ignore batch per page and
  the final sync_logs upsert, and loadBranches' milestone upsert loop. Each
  mutating method is proved to leave the tables as the matching function of
  module Store says.
*/
module Database {
  import opened Wrappers
  import opened Types
  import opened Listing
  import opened Store

  class Database {
    var snapshots: set<Snapshot>
    var milestones: map<int, int>
    var syncLogs: map<string, string>

    /** The three tables as one value. */
    function State(): Tables
      reads this
    {
      Tables(snapshots, milestones, syncLogs)
    }

    /** Opening the database file; CREATE TABLE IF NOT EXISTS keeps whatever rows it holds. */
    constructor Open(existing: Tables)
      ensures State() == existing
    {
      snapshots := existing.snapshots;
      milestones := existing.milestones;
      syncLogs := existing.syncLogs;
    }

    /** `SELECT * FROM chromium_snapshots WHERE prefix=? AND revision=?`: is the row there? */
    method HasSnapshot(platform: string, revision: int) returns (found: bool)
      ensures found <==> Snapshot(platform, revision) in snapshots
    {
      found := Snapshot(platform, revision) in snapshots;
    }

    /** `INSERT OR IGNORE INTO chromium_snapshots`: one row, skipped on a unique-index conflict. */
    method InsertOrIgnoreRow(item: Snapshot)
      modifies this
      ensures snapshots == InsertRow(old(snapshots), item)
      ensures milestones == old(milestones) && syncLogs == old(syncLogs)
    {
      if item !in snapshots {
        snapshots := snapshots + {item};
      }
    }

    /** The insertMany transaction: the page's items inserted one by one, as one atomic step. */
    method InsertMany(items: seq<Snapshot>)
      modifies this
      ensures snapshots == InsertOrIgnore(old(snapshots), items)
      ensures milestones == old(milestones) && syncLogs == old(syncLogs)
    {
      for i := 0 to |items|
        invariant snapshots == InsertOrIgnore(old(snapshots), items[..i])
        invariant milestones == old(milestones) && syncLogs == old(syncLogs)
      {
        InsertOrIgnoreRow(items[i]);
        InsertOrIgnoreConcat(old(snapshots), items[..i], [items[i]]);
        assert items[..i] + [items[i]] == items[..i + 1];
      }
      assert items[..|items|] == items;
    }

    /** `INSERT OR REPLACE INTO sync_logs`: the platform's single row now holds `now`. */
    method TouchSyncLog(platform: string, now: string)
      modifies this
      ensures syncLogs == old(syncLogs)[platform := now]
      ensures snapshots == old(snapshots) && milestones == old(milestones)
    {
      syncLogs := syncLogs[platform := now];
    }

    /**
      loadSnapshots for one platform. `lastChange` is the number read from the
      platform's LAST_CHANGE object; `responses` are the listing pages the
      remote returns, in request order, a request beyond them failing; `now`
      is the timestamp written to sync_logs.
    */
    method LoadSnapshots(platform: string, lastChange: int, responses: seq<ListingPage>, now: string)
      returns (outcome: SyncOutcome)
      modifies this
      ensures (State(), outcome) == SyncSnapshots(old(State()), platform, lastChange, responses, now)
    {
      var upToDate := HasSnapshot(platform, lastChange);
      if upToDate {
        return UpToDate;
      }
      var completed := LoadPages(responses);
      if !completed {
        return FetchFailed;
      }
      TouchSyncLog(platform, now);
      outcome := Synced;
    }

    /**
      The page loop of loadSnapshots: request a page, insert its items as one
      batch, follow nextPageToken while it is truthy. `completed` is false
      when a request fails.
    */
    method LoadPages(responses: seq<ListingPage>) returns (completed: bool)
      modifies this
      ensures snapshots == InsertOrIgnore(old(snapshots), PageItems(responses[..PagesFetched(responses)]))
      ensures completed == ChainEnds(responses)
      ensures milestones == old(milestones) && syncLogs == old(syncLogs)
    {
      var k := 0;
      while true
        invariant 0 <= k <= |responses|
        invariant forall j :: 0 <= j < k ==> Truthy(responses[j].nextPageToken)
        invariant snapshots == InsertOrIgnore(old(snapshots), PageItems(responses[..k]))
        invariant milestones == old(milestones) && syncLogs == old(syncLogs)
        decreases |responses| - k
      {
        if k == |responses| {
          PagesFetchedRunsOut(responses);
          return false;
        }
        var page := responses[k];
        var items := ParseItems(page.prefixes);
        InsertMany(items);
        InsertOrIgnoreConcat(old(snapshots), PageItems(responses[..k]), items);
        PageItemsSnoc(responses, k);
        var pageToken := page.nextPageToken;
        if !Truthy(pageToken) {
          PagesFetchedStopsAt(responses, k);
          return true;
        }
        k := k + 1;
      }
    }

    /** `INSERT ... ON CONFLICT(milestone) DO UPDATE SET revision=?`: one milestone upsert. */
    method UpsertMilestone(item: MilestoneItem)
      modifies this
      ensures milestones == old(milestones)[item.milestone := item.branchPosition]
      ensures snapshots == old(snapshots) && syncLogs == old(syncLogs)
    {
      milestones := milestones[item.milestone := item.branchPosition];
    }

    /** loadBranches: every feed item upserted, in feed order, as one atomic step. */
    method LoadBranches(feed: seq<MilestoneItem>)
      modifies this
      ensures milestones == UpsertMilestones(old(milestones), feed)
      ensures snapshots == old(snapshots) && syncLogs == old(syncLogs)
    {
      for i := 0 to |feed|
        invariant milestones == UpsertMilestones(old(milestones), feed[..i])
        invariant snapshots == old(snapshots) && syncLogs == old(syncLogs)
      {
        UpsertMilestone(feed[i]);
        assert feed[..i + 1][..i] == feed[..i];
      }
      assert feed[..|feed|] == feed;
    }
  }
}
