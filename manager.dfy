/** The sweep of `SnapshotManager.remove_old_snapshots`: list the cluster's
    snapshots, sort them, record the health gauge, run the three retention
    stages and delete what the last stage returns. The snapshot store is a
    field holding the cluster's listing, and every outward effect (a gauge
    value sent, a delete request) is appended to a log. */
module Manager {
  import opened Snapshots
  import opened Retention
  import opened Health

  /** An effect on the outside world, in the order it happens. */
  datatype Effect =
    | MissingGaugeRecorded(value: int)   // gauge `mongodb.backups.missing`
    | SnapshotDeleted(id: string)        // delete request for one snapshot

  /** The entries of `s` whose identifier is not in `ids`, in order. */
  function WithoutIds(s: seq<Snapshot>, ids: set<string>): seq<Snapshot> {
    if s == [] then []
    else WithoutIds(s[..|s| - 1], ids) + (if s[|s| - 1].id in ids then [] else [s[|s| - 1]])
  }

  /** A snapshot remains exactly when it was there and its identifier was
      not deleted. */
  lemma {:induction false} WithoutIdsMembers(s: seq<Snapshot>, ids: set<string>)
    ensures forall x :: x in WithoutIds(s, ids) <==> x in s && x.id !in ids
  {
    if s != [] {
      var init, last := s[..|s| - 1], s[|s| - 1];
      WithoutIdsMembers(init, ids);
      assert s == init + [last];
    }
  }

  function IdSet(s: seq<Snapshot>): set<string> {
    set x | x in s :: x.id
  }

  /** One delete request per entry of `s`, in the order of `s`. */
  function DeleteEffects(s: seq<Snapshot>): (r: seq<Effect>)
    ensures |r| == |s|
    ensures forall i | 0 <= i < |s| :: r[i] == SnapshotDeleted(s[i].id)
  {
    if s == [] then [] else DeleteEffects(s[..|s| - 1]) + [SnapshotDeleted(s[|s| - 1].id)]
  }

  /** The gauge is sent only when a statsd client was configured. */
  function GaugeEffects(hasStatsd: bool, now: Time, sorted: seq<Snapshot>): seq<Effect> {
    if hasStatsd then [MissingGaugeRecorded(MissingBackups(now, sorted))] else []
  }

  /** Removing one set of identifiers and then another removes their union. */
  lemma {:induction false} WithoutIdsTwice(s: seq<Snapshot>, a: set<string>, b: set<string>)
    ensures WithoutIds(WithoutIds(s, a), b) == WithoutIds(s, a + b)
  {
    if s != [] {
      var init, last := s[..|s| - 1], s[|s| - 1];
      WithoutIdsTwice(init, a, b);
      var once := WithoutIds(init, a);
      assert WithoutIds(s, a + b)
        == WithoutIds(init, a + b) + (if last.id in a + b then [] else [last]);
      if last.id in a {
        assert WithoutIds(s, a) == once;
      } else {
        var t := once + [last];
        assert WithoutIds(s, a) == t;
        assert t[..|t| - 1] == once;
        assert WithoutIds(t, b) == WithoutIds(once, b) + (if last.id in b then [] else [last]);
      }
    }
  }

  lemma IdSetSnoc(s: seq<Snapshot>, x: Snapshot)
    ensures IdSet(s + [x]) == IdSet(s) + {x.id}
  {
    forall id | id in IdSet(s + [x])
      ensures id in IdSet(s) || id == x.id
    {
      var y :| y in s + [x] && id == y.id;
      if y != x {
        assert y in s;
      }
    }
  }

  /** Extending a prefix by one entry adds that entry's identifier and its
      delete request. */
  lemma PrefixStep(s: seq<Snapshot>, i: int)
    requires 0 <= i < |s|
    ensures IdSet(s[..i + 1]) == IdSet(s[..i]) + {s[i].id}
    ensures DeleteEffects(s[..i + 1]) == DeleteEffects(s[..i]) + [SnapshotDeleted(s[i].id)]
  {
    assert s[..i + 1] == s[..i] + [s[i]];
    IdSetSnoc(s[..i], s[i]);
  }

  lemma {:induction false} WithoutNoIds(s: seq<Snapshot>)
    ensures WithoutIds(s, {}) == s
  {
    if s != [] {
      WithoutNoIds(s[..|s| - 1]);
      assert s[..|s| - 1] + [s[|s| - 1]] == s;
    }
  }

  lemma DistinctIdsMembers(s: seq<Snapshot>)
    requires DistinctIds(s)
    ensures forall x, y | x in s && y in s && x != y :: x.id != y.id
  {
    forall x, y | x in s && y in s && x != y
      ensures x.id != y.id
    {
      var i :| 0 <= i < |s| && s[i] == x;
      var j :| 0 <= j < |s| && s[j] == y;
      assert i != j;
    }
  }

  /** After a sweep over a listing whose identifiers are distinct, every
      snapshot that started within the last 180 minutes is still in the
      store. */
  lemma SweepKeepsRecent(now: Time, hourlySnapshots: int, dailySnapshots: int, listing: seq<Snapshot>)
    requires DistinctIds(listing)
    ensures forall x | x in listing && SubHourlyCutoff(now) <= x.start ::
      x in WithoutIds(listing, IdSet(DeletionPlan(now, hourlySnapshots, dailySnapshots, SortByStart(listing))))
  {
    var sorted := SortByStart(listing);
    var plan := DeletionPlan(now, hourlySnapshots, dailySnapshots, sorted);
    PlanSparesRecent(now, hourlySnapshots, dailySnapshots, sorted);
    DistinctIdsMembers(listing);
    WithoutIdsMembers(listing, IdSet(plan));
    forall x | x in listing && SubHourlyCutoff(now) <= x.start
      ensures x.id !in IdSet(plan)
    {
      forall y | y in plan
        ensures y.id != x.id
      {
        assert y in multiset(sorted);
        assert y in listing;
      }
    }
  }

  class SnapshotManager {
    const clusterName: string
    const hasStatsd: bool
    /** The cluster's snapshots as the store currently lists them. */
    var snapshots: seq<Snapshot>
    /** Gauge values sent and delete requests issued, oldest first. */
    var effects: seq<Effect>

    constructor (clusterName: string, hasStatsd: bool, listing: seq<Snapshot>)
      ensures this.clusterName == clusterName && this.hasStatsd == hasStatsd
      ensures snapshots == listing && effects == []
    {
      this.clusterName := clusterName;
      this.hasStatsd := hasStatsd;
      snapshots := listing;
      effects := [];
    }

    /** `get_sorted_snapshots`: the listing in ascending start order, ties
        in listing order. */
    method GetSortedSnapshots() returns (sorted: seq<Snapshot>)
      ensures SortedByStart(sorted) && multiset(sorted) == multiset(snapshots)
      ensures forall t :: WithStart(sorted, t) == WithStart(snapshots, t)
      ensures sorted == SortByStart(snapshots)
    {
      sorted := SortByStart(snapshots);
      forall t
        ensures WithStart(sorted, t) == WithStart(snapshots, t)
      {
        SortByStartIsStable(snapshots, t);
      }
    }

    /** `delete_snapshot`: the store drops the snapshot with this
        identifier and nothing else. */
    method DeleteSnapshot(snapshotId: string)
      modifies this`snapshots, this`effects
      ensures snapshots == WithoutIds(old(snapshots), {snapshotId})
      ensures effects == old(effects) + [SnapshotDeleted(snapshotId)]
    {
      snapshots := WithoutIds(snapshots, {snapshotId});
      effects := effects + [SnapshotDeleted(snapshotId)];
    }

    /** `_record_backup_metrics`: computes the missing-backup count and
        sends it to the gauge when statsd is configured. */
    method RecordBackupMetrics(now: Time, sorted: seq<Snapshot>)
      modifies this`effects
      ensures effects == old(effects) + GaugeEffects(hasStatsd, now, sorted)
    {
      var missing := CountMissingBackups(now, sorted);
      if hasStatsd {
        effects := effects + [MissingGaugeRecorded(missing)];
      }
    }

    /** `remove_old_snapshots`: the gauge is recorded on the full sorted
        listing before any stage runs; then exactly the pipeline's output
        is deleted, one request per entry, in ascending start order. */
    method RemoveOldSnapshots(now: Time, hourlySnapshots: int, dailySnapshots: int)
      modifies this`snapshots, this`effects
      ensures effects == old(effects)
        + GaugeEffects(hasStatsd, now, SortByStart(old(snapshots)))
        + DeleteEffects(DeletionPlan(now, hourlySnapshots, dailySnapshots, SortByStart(old(snapshots))))
      ensures snapshots
        == WithoutIds(old(snapshots), IdSet(DeletionPlan(now, hourlySnapshots, dailySnapshots, SortByStart(old(snapshots)))))
    {
      var sorted := GetSortedSnapshots();
      RecordBackupMetrics(now, sorted);

      var candidates := RemoveSubHourly(now, sorted);
      candidates := RemoveHourly(now, hourlySnapshots, candidates);
      candidates := RemoveDaily(now, dailySnapshots, candidates);

      DeleteSnapshots(candidates);
    }

    /** The deleting loop of `remove_old_snapshots`: one delete request per
        entry of `toDelete`, in its order, and the store loses exactly the
        snapshots carrying those identifiers. */
    method DeleteSnapshots(toDelete: seq<Snapshot>)
      modifies this`snapshots, this`effects
      ensures snapshots == WithoutIds(old(snapshots), IdSet(toDelete))
      ensures effects == old(effects) + DeleteEffects(toDelete)
    {
      ghost var listed := snapshots;
      ghost var before := effects;
      WithoutNoIds(listed);
      assert IdSet(toDelete[..0]) == {};
      for i := 0 to |toDelete|
        invariant snapshots == WithoutIds(listed, IdSet(toDelete[..i]))
        invariant effects == before + DeleteEffects(toDelete[..i])
      {
        PrefixStep(toDelete, i);
        WithoutIdsTwice(listed, IdSet(toDelete[..i]), {toDelete[i].id});
        DeleteSnapshot(toDelete[i].id);
      }
      assert toDelete[..|toDelete|] == toDelete;
    }
  }
}
