/**
  The resolution query of exportJson: for every milestone and every distinct
  snapshot platform, the greatest snapshot revision of that platform not above
  the milestone's revision, emitted only when one exists, ordered by
  (revision, prefix).
*/
module Resolver {
  import opened Wrappers
  import opened Types

  /** `SELECT DISTINCT prefix FROM chromium_snapshots`. */
  function Platforms(snapshots: set<Snapshot>): set<string>
  {
    set s | s in snapshots :: s.platform
  }

  /** The rows of `platform` at or below `ceiling`: what the MAX and EXISTS subqueries see. */
  function Candidates(snapshots: set<Snapshot>, platform: string, ceiling: int): set<Snapshot>
  {
    set s | s in snapshots && s.platform == platform && s.revision <= ceiling
  }

  /** A row of greatest revision in a nonempty finite set of rows. */
  ghost function Greatest(rows: set<Snapshot>): (g: Snapshot)
    requires rows != {}
    ensures g in rows && forall s :: s in rows ==> s.revision <= g.revision
    decreases |rows|
  {
    var x :| x in rows;
    if rows == {x} then x
    else
      var rest := Greatest(rows - {x});
      assert forall s :: s in rows ==> s == x || s in rows - {x};
      if x.revision < rest.revision then rest else x
  }

  /** `SELECT MAX(s.revision) ... WHERE s.prefix = p AND s.revision <= ceiling`: NULL when no row qualifies. */
  ghost function MaxAtOrBelow(snapshots: set<Snapshot>, platform: string, ceiling: int): (r: Option<int>)
    ensures r.Some? <==> exists s :: s in snapshots && s.platform == platform && s.revision <= ceiling
    ensures r.Some? ==>
      && Snapshot(platform, r.value) in snapshots
      && r.value <= ceiling
      && forall s :: s in snapshots && s.platform == platform && s.revision <= ceiling ==> s.revision <= r.value
  {
    var rows := Candidates(snapshots, platform, ceiling);
    if rows == {} then
      assert forall s :: s in snapshots && s.platform == platform && s.revision <= ceiling ==> s in rows;
      None
    else Some(Greatest(rows).revision)
  }

  /** The set of records the query emits (before ordering). */
  ghost function Resolved(snapshots: set<Snapshot>, milestones: map<int, int>): set<Record>
  {
    set m, p | m in milestones && p in Platforms(snapshots) && MaxAtOrBelow(snapshots, p, milestones[m]).Some? ::
      Record(m, p, MaxAtOrBelow(snapshots, p, milestones[m]).value)
  }

  /**
    A record is emitted exactly when its milestone exists, its revision is a
    snapshot of its platform not above the milestone's revision, and no such
    snapshot is greater.
  */
  lemma ResolvedIff(snapshots: set<Snapshot>, milestones: map<int, int>, rec: Record)
    ensures rec in Resolved(snapshots, milestones) <==>
      && rec.milestone in milestones
      && Snapshot(rec.prefix, rec.revision) in snapshots
      && rec.revision <= milestones[rec.milestone]
      && forall s :: s in snapshots && s.platform == rec.prefix && s.revision <= milestones[rec.milestone] ==>
           s.revision <= rec.revision
  {
    if rec.milestone in milestones && Snapshot(rec.prefix, rec.revision) in snapshots {
      var ceiling := milestones[rec.milestone];
      var rows := Candidates(snapshots, rec.prefix, ceiling);
      if rec.revision <= ceiling {
        assert Snapshot(rec.prefix, rec.revision) in rows;
        assert rec.prefix in Platforms(snapshots);
        if forall s :: s in snapshots && s.platform == rec.prefix && s.revision <= ceiling ==> s.revision <= rec.revision {
          var g := Greatest(rows);
          assert g.revision == rec.revision;
        }
      }
    }
  }

  /** A pair (milestone, platform) is emitted iff the platform has a snapshot at or below the milestone's revision. */
  lemma EmittedIffEligible(snapshots: set<Snapshot>, milestones: map<int, int>, m: int, p: string)
    requires m in milestones
    ensures (exists r :: Record(m, p, r) in Resolved(snapshots, milestones)) <==>
      exists s :: s in snapshots && s.platform == p && s.revision <= milestones[m]
  {
    if s :| s in snapshots && s.platform == p && s.revision <= milestones[m] {
      assert s in Candidates(snapshots, p, milestones[m]);
      assert p in Platforms(snapshots);
      var r := MaxAtOrBelow(snapshots, p, milestones[m]).value;
      assert Record(m, p, r) in Resolved(snapshots, milestones);
    }
  }

  /** Raising the ceiling never loses the platform's answer and never lowers it. */
  lemma MaxAtOrBelowMonotone(snapshots: set<Snapshot>, platform: string, c1: int, c2: int)
    requires c1 <= c2
    ensures MaxAtOrBelow(snapshots, platform, c1).Some? ==>
      && MaxAtOrBelow(snapshots, platform, c2).Some?
      && MaxAtOrBelow(snapshots, platform, c1).value <= MaxAtOrBelow(snapshots, platform, c2).value
  {
    var r1 := MaxAtOrBelow(snapshots, platform, c1);
    if r1.Some? {
      assert Snapshot(platform, r1.value) in snapshots;
    }
  }

  /**
    A milestone whose branch position is not below another's resolves every
    platform the other resolves, to a revision at least as new.
  */
  lemma ResolvedMonotone(snapshots: set<Snapshot>, milestones: map<int, int>, m1: int, m2: int, p: string, r1: int)
    requires m1 in milestones && m2 in milestones && milestones[m1] <= milestones[m2]
    requires Record(m1, p, r1) in Resolved(snapshots, milestones)
    ensures exists r2 :: r1 <= r2 && Record(m2, p, r2) in Resolved(snapshots, milestones)
  {
    ResolvedIff(snapshots, milestones, Record(m1, p, r1));
    MaxAtOrBelowMonotone(snapshots, p, milestones[m1], milestones[m2]);
    var r2 := MaxAtOrBelow(snapshots, p, milestones[m2]).value;
    ResolvedIff(snapshots, milestones, Record(m2, p, r2));
  }

  /** At most one record per (milestone, platform). */
  lemma ResolvedUnique(snapshots: set<Snapshot>, milestones: map<int, int>, a: Record, b: Record)
    requires a in Resolved(snapshots, milestones) && b in Resolved(snapshots, milestones)
    requires a.milestone == b.milestone && a.prefix == b.prefix
    ensures a == b
  {
    ResolvedIff(snapshots, milestones, a);
    ResolvedIff(snapshots, milestones, b);
  }

  /** Snapshots (linux, 10), (linux, 50), (linux, 90) and milestone 5 at revision 60 resolve to (5, linux, 50). */
  lemma ResolutionExample()
    ensures Resolved({Snapshot("linux", 10), Snapshot("linux", 50), Snapshot("linux", 90)}, map[5 := 60]) ==
      {Record(5, "linux", 50)}
  {
    var snapshots := {Snapshot("linux", 10), Snapshot("linux", 50), Snapshot("linux", 90)};
    var milestones := map[5 := 60];
    ResolvedIff(snapshots, milestones, Record(5, "linux", 50));
    forall rec | rec in Resolved(snapshots, milestones)
      ensures rec == Record(5, "linux", 50)
    {
      ResolvedIff(snapshots, milestones, rec);
      assert Snapshot("linux", 50) in snapshots;
    }
  }

  /** When every snapshot of the platform is above the milestone's revision, nothing is emitted for the pair. */
  lemma NothingBelowExample()
    ensures Resolved({Snapshot("linux", 10), Snapshot("linux", 50)}, map[1 := 5]) == {}
  {
    var snapshots := {Snapshot("linux", 10), Snapshot("linux", 50)};
    forall rec | rec in Resolved(snapshots, map[1 := 5])
      ensures false
    {
      ResolvedIff(snapshots, map[1 := 5], rec);
    }
  }

  // ---------------------------------------------------------------------------
  // ORDER BY revision, prefix
  // ---------------------------------------------------------------------------

  /** SQLite's BINARY collation on TEXT: lexicographic by code point (UTF-8 byte order agrees). */
  predicate TextLe(a: string, b: string) {
    a == [] || (b != [] && (a[0] < b[0] || (a[0] == b[0] && TextLe(a[1..], b[1..]))))
  }

  lemma {:induction false} TextLeTotal(a: string, b: string)
    ensures TextLe(a, b) || TextLe(b, a)
  {
    if a != [] && b != [] && a[0] == b[0] {
      TextLeTotal(a[1..], b[1..]);
    }
  }

  lemma {:induction false} TextLeAntisymmetric(a: string, b: string)
    requires TextLe(a, b) && TextLe(b, a)
    ensures a == b
  {
    if a != [] && b != [] {
      TextLeAntisymmetric(a[1..], b[1..]);
      assert a == [a[0]] + a[1..] && b == [b[0]] + b[1..];
    }
  }

  lemma {:induction false} TextLeTransitive(a: string, b: string, c: string)
    requires TextLe(a, b) && TextLe(b, c)
    ensures TextLe(a, c)
  {
    if a != [] && b != [] && c != [] && a[0] == b[0] && b[0] == c[0] {
      TextLeTransitive(a[1..], b[1..], c[1..]);
    }
  }

  /** The sort key order: revision, then prefix. */
  predicate KeyLe(x: Record, y: Record) {
    x.revision < y.revision || (x.revision == y.revision && TextLe(x.prefix, y.prefix))
  }

  predicate SameKey(x: Record, y: Record) {
    x.revision == y.revision && x.prefix == y.prefix
  }

  lemma KeyLeTotal(x: Record, y: Record)
    ensures KeyLe(x, y) || KeyLe(y, x)
  {
    TextLeTotal(x.prefix, y.prefix);
  }

  lemma KeyLeTransitive(x: Record, y: Record, z: Record)
    requires KeyLe(x, y) && KeyLe(y, z)
    ensures KeyLe(x, z)
  {
    if x.revision == y.revision == z.revision {
      TextLeTransitive(x.prefix, y.prefix, z.prefix);
    }
  }

  lemma KeyLeAntisymmetric(x: Record, y: Record)
    requires KeyLe(x, y) && KeyLe(y, x)
    ensures SameKey(x, y)
  {
    TextLeAntisymmetric(x.prefix, y.prefix);
  }

  predicate Sorted(rs: seq<Record>) {
    forall i, j :: 0 <= i < j < |rs| ==> KeyLe(rs[i], rs[j])
  }

  /** What the query returns: every resolved record exactly once, ordered by (revision, prefix). */
  ghost predicate IsExport(rs: seq<Record>, snapshots: set<Snapshot>, milestones: map<int, int>) {
    Sorted(rs) && multiset(rs) == multiset(Resolved(snapshots, milestones))
  }

  /** The `records` and `updatedAt` arrays of the exported document. */
  datatype Document = Document(records: seq<Record>, updatedAt: map<string, string>)

  /** exportJson: the resolved records in query order, and sync_logs unchanged. */
  ghost predicate IsExportOf(doc: Document, t: Tables) {
    IsExport(doc.records, t.snapshots, t.milestones) && doc.updatedAt == t.syncLogs
  }

  /** Every record of `rs` sorts at or after `y`. */
  predicate AllAbove(y: Record, rs: seq<Record>) {
    forall j :: 0 <= j < |rs| ==> KeyLe(y, rs[j])
  }

  lemma AllAboveSameElements(y: Record, a: seq<Record>, b: seq<Record>)
    requires AllAbove(y, b) && multiset(a) == multiset(b)
    ensures AllAbove(y, a)
  {
    forall j | 0 <= j < |a| ensures KeyLe(y, a[j]) {
      assert a[j] in multiset(b);
    }
  }

  lemma SortedCons(y: Record, rs: seq<Record>)
    requires Sorted(rs) && AllAbove(y, rs)
    ensures Sorted([y] + rs)
  {
    forall i, j | 0 <= i < j < |[y] + rs| ensures KeyLe(([y] + rs)[i], ([y] + rs)[j]) {
      if i > 0 {
        assert ([y] + rs)[i] == rs[i - 1];
      }
    }
  }

  /** Sorted insertion of one record. */
  function Insert(x: Record, rs: seq<Record>): (r: seq<Record>)
    requires Sorted(rs)
    ensures Sorted(r) && multiset(r) == multiset(rs) + multiset{x}
  {
    if rs == [] then [x]
    else if KeyLe(x, rs[0]) then
      assert AllAbove(x, rs) by {
        forall j | 0 <= j < |rs| ensures KeyLe(x, rs[j]) {
          if j > 0 { KeyLeTransitive(x, rs[0], rs[j]); }
        }
      }
      SortedCons(x, rs);
      [x] + rs
    else
      var tail := Insert(x, rs[1..]);
      assert AllAbove(rs[0], rs[1..] + [x]) by {
        KeyLeTotal(x, rs[0]);
      }
      AllAboveSameElements(rs[0], tail, rs[1..] + [x]);
      SortedCons(rs[0], tail);
      assert rs == [rs[0]] + rs[1..];
      [rs[0]] + tail
  }

  /** Some ordering of a finite set of records. */
  ghost function SortedOf(xs: set<Record>): (rs: seq<Record>)
    ensures Sorted(rs) && multiset(rs) == multiset(xs)
    decreases |xs|
  {
    if xs == {} then []
    else
      var x :| x in xs;
      var rs := Insert(x, SortedOf(xs - {x}));
      assert multiset(xs - {x}) + multiset{x} == multiset(xs);
      rs
  }

  /** A valid export exists for every state of the tables. */
  lemma ExportExists(t: Tables)
    ensures IsExportOf(Document(SortedOf(Resolved(t.snapshots, t.milestones)), t.syncLogs), t)
  {
  }

  /** Both sorted arrangements of the same records start with the same key. */
  lemma HeadsSameKey(a: seq<Record>, b: seq<Record>)
    requires Sorted(a) && Sorted(b) && multiset(a) == multiset(b) && a != []
    ensures b != [] && SameKey(a[0], b[0])
  {
    assert a[0] in multiset(b);
    assert b[0] in multiset(a);
    TextLeTotal(a[0].prefix, a[0].prefix);
    KeyLeAntisymmetric(a[0], b[0]);
  }

  /** Removing one record keeps the rest sorted. */
  lemma RemoveAt(b: seq<Record>, j: nat)
    requires Sorted(b) && j < |b|
    ensures Sorted(b[..j] + b[j + 1..])
    ensures multiset(b[..j] + b[j + 1..]) == multiset(b) - multiset{b[j]}
  {
    var b' := b[..j] + b[j + 1..];
    assert b == b[..j] + [b[j]] + b[j + 1..];
    forall p, q | 0 <= p < q < |b'| ensures KeyLe(b'[p], b'[q]) {
      var p' := if p < j then p else p + 1;
      var q' := if q < j then q else q + 1;
      assert b'[p] == b[p'] && b'[q] == b[q'];
    }
  }

  /** In a sorted sequence, everything between two records of the same key has that key. */
  lemma PrefixSameKey(b: seq<Record>, j: nat)
    requires Sorted(b) && j < |b| && SameKey(b[0], b[j])
    ensures forall i :: 0 <= i <= j ==> SameKey(b[i], b[0])
  {
    forall i | 0 < i <= j ensures SameKey(b[i], b[0]) {
      assert KeyLe(b[i], b[0]) by {
        if i < j { assert KeyLe(b[i], b[j]); } else { TextLeTotal(b[0].prefix, b[0].prefix); }
      }
      KeyLeAntisymmetric(b[0], b[i]);
    }
  }

  /**
    Positions line up after removing a[0] from a and its occurrence b[j] from
    b, when b[0..j] all share a[0]'s key.
  */
  lemma KeysAfterRemoval(a: seq<Record>, b: seq<Record>, j: nat)
    requires |a| == |b| && j < |b| && a != []
    requires SameKey(a[0], b[0])
    requires forall i :: 0 <= i <= j ==> SameKey(b[i], b[0])
    requires forall i :: 0 <= i < |a| - 1 ==> SameKey(a[1..][i], (b[..j] + b[j + 1..])[i])
    ensures forall i :: 0 <= i < |a| ==> SameKey(a[i], b[i])
  {
    var b' := b[..j] + b[j + 1..];
    forall i | 0 < i < |a| ensures SameKey(a[i], b[i]) {
      assert a[i] == a[1..][i - 1];
      if i <= j {
        assert b'[i - 1] == b[i - 1];
      } else {
        assert b'[i - 1] == b[i];
      }
    }
  }

  /**
    Two exports of the same tables hold the same records and agree on the
    (revision, prefix) of every position; only records tied on both keys may
    come in another order.
  */
  lemma {:induction false} ExportKeysDetermined(a: seq<Record>, b: seq<Record>)
    requires Sorted(a) && Sorted(b) && multiset(a) == multiset(b)
    ensures |a| == |b|
    ensures forall i :: 0 <= i < |a| ==> SameKey(a[i], b[i])
    decreases |a|
  {
    assert |a| == |multiset(a)| == |multiset(b)| == |b|;
    if a != [] {
      HeadsSameKey(a, b);
      assert a[0] in multiset(b);
      var j :| 0 <= j < |b| && b[j] == a[0];
      PrefixSameKey(b, j);
      RemoveAt(b, j);
      assert a == [a[0]] + a[1..];
      assert multiset(a[1..]) == multiset(a) - multiset{a[0]};
      ExportKeysDetermined(a[1..], b[..j] + b[j + 1..]);
      KeysAfterRemoval(a, b, j);
    }
  }

  /**
    The ORDER BY does not fix the order of records that tie on (revision,
    prefix): two milestones that resolve to the same snapshot may come in
    either order, so byte-identical exports are not guaranteed by the query.
  */
  lemma TiesMayComeInEitherOrder()
    ensures var t := Tables({Snapshot("linux", 10)}, map[1 := 20, 2 := 30], map[]);
      && IsExport([Record(1, "linux", 10), Record(2, "linux", 10)], t.snapshots, t.milestones)
      && IsExport([Record(2, "linux", 10), Record(1, "linux", 10)], t.snapshots, t.milestones)
  {
    var r1: Record := Record(1, "linux", 10);
    var r2: Record := Record(2, "linux", 10);
    var resolved := Resolved({Snapshot("linux", 10)}, map[1 := 20, 2 := 30]);
    TiesExampleResolved();
    assert multiset(resolved) == multiset{r1, r2};
    TextLeTotal("linux", "linux");
    assert Sorted([r1, r2]) && Sorted([r2, r1]);
  }

  /** Both milestones of the tie example resolve to the single snapshot (linux, 10). */
  lemma TiesExampleResolved()
    ensures Resolved({Snapshot("linux", 10)}, map[1 := 20, 2 := 30]) == {Record(1, "linux", 10), Record(2, "linux", 10)}
  {
    var snapshots := {Snapshot("linux", 10)};
    var milestones := map[1 := 20, 2 := 30];
    ResolvedIff(snapshots, milestones, Record(1, "linux", 10));
    ResolvedIff(snapshots, milestones, Record(2, "linux", 10));
    forall rec | rec in Resolved(snapshots, milestones)
      ensures rec == Record(1, "linux", 10) || rec == Record(2, "linux", 10)
    {
      ResolvedIff(snapshots, milestones, rec);
    }
  }
}
