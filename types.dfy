/**
  The entities of the chromium-archive data builder: the rows of its three
  SQLite tables, the two remote document shapes it reads, and the records it
  exports.
*/
module Types {
  import opened Wrappers

  /** A row of chromium_snapshots: a build directory seen in the remote listing. */
  datatype Snapshot = Snapshot(platform: string, revision: int)

  /** One page of the bucket listing: directory prefixes and an optional continuation token. */
  datatype ListingPage = ListingPage(prefixes: seq<string>, nextPageToken: Option<string>)

  /** One entry of the milestone feed. */
  datatype MilestoneItem = MilestoneItem(milestone: int, branchPosition: int)

  /**
    The whole database: chromium_snapshots (unique on (prefix, revision), so a
    set), chromium_milestones (unique on milestone, so a map to its revision)
    and sync_logs (unique on prefix, so a map to the updatedAt text).
  */
  datatype Tables = Tables(snapshots: set<Snapshot>, milestones: map<int, int>, syncLogs: map<string, string>)

  /** How one platform's snapshot sync ended. */
  datatype SyncOutcome =
    | UpToDate     // the last-change revision was already stored
    | Synced       // every page of the token chain was loaded and sync_logs written
    | FetchFailed  // a page request failed; earlier pages stay committed

  /** A row of the exported `records` array. */
  datatype Record = Record(milestone: int, prefix: string, revision: int)
}
