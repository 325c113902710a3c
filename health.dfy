/** The backup-health gauge: how many of the snapshots expected in the last
    hour are missing. */
module Health {
  import opened Snapshots
  import Retention

  /** With a snapshot every ten minutes, at least this many should have
      started within the last hour. */
  const EXPECTED_SNAPSHOTS: int := 5
  const LOOKBACK_MINUTES: int := 60

  /** `now - timedelta(minutes=60)`: in the past, and inside the
      sub-hourly window that no stage ever deletes from. */
  function LookbackCutoff(now: Time): (r: Time)
    ensures Retention.SubHourlyCutoff(now) < r < now
  {
    now - LOOKBACK_MINUTES * MICROS_PER_MINUTE
  }

  /** How many entries of `s` started at or after `cutoff`. */
  function CountSince(cutoff: Time, s: seq<Snapshot>): nat {
    if s == [] then 0
    else CountSince(cutoff, s[..|s| - 1]) + (if s[|s| - 1].start >= cutoff then 1 else 0)
  }

  /** The gauge value: the shortfall below the expected count, never
      negative. */
  function MissingBackups(now: Time, s: seq<Snapshot>): (r: int)
    ensures 0 <= r <= EXPECTED_SNAPSHOTS
    ensures r == 0 <==> CountSince(LookbackCutoff(now), s) >= EXPECTED_SNAPSHOTS
    ensures 0 < r ==> r + CountSince(LookbackCutoff(now), s) == EXPECTED_SNAPSHOTS
    ensures r == EXPECTED_SNAPSHOTS <==> CountSince(LookbackCutoff(now), s) == 0
  {
    var missing := EXPECTED_SNAPSHOTS - CountSince(LookbackCutoff(now), s);
    if missing < 0 then 0 else missing
  }

  /** The loop of `_record_backup_metrics`: counts the snapshots of the last
      hour (the bound is inclusive) and clamps the shortfall at zero. */
  method CountMissingBackups(now: Time, snapshots: seq<Snapshot>) returns (missing: int)
    ensures missing == MissingBackups(now, snapshots)
    ensures 0 <= missing <= EXPECTED_SNAPSHOTS
    ensures missing == 0 <==> CountSince(LookbackCutoff(now), snapshots) >= EXPECTED_SNAPSHOTS
    ensures snapshots == [] ==> missing == EXPECTED_SNAPSHOTS
  {
    var lastHour := LookbackCutoff(now);
    var snapshotCount := 0;
    for i := 0 to |snapshots|
      invariant snapshotCount == CountSince(lastHour, snapshots[..i])
    {
      assert snapshots[..i + 1][..i] == snapshots[..i];
      if snapshots[i].start >= lastHour {
        snapshotCount := snapshotCount + 1;
      }
    }
    assert snapshots[..|snapshots|] == snapshots;
    missing := EXPECTED_SNAPSHOTS - snapshotCount;
    if missing < 0 {
      missing := 0;
    }
  }

  /** Every snapshot the gauge counts as recent is spared by the sweep:
      the plan only holds snapshots older than the lookback cutoff. */
  lemma PlanSparesCounted(now: Time, hourlySnapshots: int, dailySnapshots: int, sorted: seq<Snapshot>)
    ensures forall x | x in Retention.DeletionPlan(now, hourlySnapshots, dailySnapshots, sorted) ::
      x.start < LookbackCutoff(now)
  {
    Retention.PlanSparesRecent(now, hourlySnapshots, dailySnapshots, sorted);
  }

  /** At any cutoff, the recent count and the sub-hourly-style filter of
      strictly older entries split the list between them. */
  lemma {:induction false} RecentAndOlderSplit(cutoff: Time, s: seq<Snapshot>)
    ensures CountSince(cutoff, s) + |Retention.OlderThan(cutoff, s)| == |s|
  {
    if s != [] {
      RecentAndOlderSplit(cutoff, s[..|s| - 1]);
    }
  }

  /** The gauge does not depend on the order of the list it is computed on,
      so computing it on the sorted listing gives the same value as on the
      listing itself. */
  lemma {:induction false} CountSinceIgnoresOrder(cutoff: Time, a: seq<Snapshot>, b: seq<Snapshot>)
    requires multiset(a) == multiset(b)
    ensures CountSince(cutoff, a) == CountSince(cutoff, b)
    decreases |a|
  {
    if a != [] {
      var init, last := a[..|a| - 1], a[|a| - 1];
      assert a == init + [last];
      assert last in multiset(b);
      var k :| 0 <= k < |b| && b[k] == last;
      var rest := b[..k] + b[k + 1..];
      assert b == b[..k] + [last] + b[k + 1..];
      assert multiset(b) == multiset(b[..k]) + multiset{last} + multiset(b[k + 1..]);
      assert multiset(b) == multiset(rest) + multiset{last};
      assert multiset(a) == multiset(init) + multiset{last};
      assert multiset(init) == multiset(a) - multiset{last};
      assert multiset(rest) == multiset(b) - multiset{last};
      CountSinceIgnoresOrder(cutoff, init, rest);
      CountSinceRemove(cutoff, b, k);
    }
  }

  lemma {:induction false} CountSinceRemove(cutoff: Time, s: seq<Snapshot>, k: int)
    requires 0 <= k < |s|
    ensures CountSince(cutoff, s)
      == CountSince(cutoff, s[..k] + s[k + 1..]) + (if s[k].start >= cutoff then 1 else 0)
    decreases |s|
  {
    var n := |s|;
    if k == n - 1 {
      assert s[..k] + s[k + 1..] == s[..n - 1];
    } else {
      CountSinceRemove(cutoff, s[..n - 1], k);
      assert s[..n - 1][..k] == s[..k];
      assert s[..n - 1][k + 1..] == s[k + 1..n - 1];
      var t := s[..k] + s[k + 1..];
      assert t[..|t| - 1] == s[..k] + s[k + 1..n - 1];
      assert t[|t| - 1] == s[n - 1];
    }
  }
}
