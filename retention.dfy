/** The retention decision engine: the sub-hourly, hourly and daily stages
    and the pipeline that chains them over the listing sorted by start time.
    Each stage takes a candidate list and returns the entries it marks for
    deletion, in input order. */
module Retention {
  import opened Snapshots

  /** Snapshots newer than this many minutes are never candidates. */
  const SUB_HOURLY_SNAPSHOTS_MINUTES: int := 180

  /** The `strftime` patterns that name a snapshot's bucket: "%Y%m%d%H"
      (one bucket per clock hour) and "%Y%m%d" (one per calendar day). */
  datatype BucketFormat = YearMonthDayHour | YearMonthDay

  function BucketWidth(format: BucketFormat): int {
    match format
    case YearMonthDayHour => MICROS_PER_HOUR
    case YearMonthDay => MICROS_PER_DAY
  }

  /** The bucket of instant `t`: the number of the UTC clock hour (or day)
      that contains it, counted from the epoch. For years 1900 to 9999 two
      instants get the same formatted key exactly when they get the same
      number. */
  function BucketKey(format: BucketFormat, t: Time): int {
    match format
    case YearMonthDayHour => t / MICROS_PER_HOUR
    case YearMonthDay => t / MICROS_PER_DAY
  }

  /** The key of `t` numbers the interval of the bucket's width that
      contains `t`, so two instants share a key exactly when they lie in
      the same clock hour (or day). */
  lemma BucketKeyContains(format: BucketFormat, t: Time)
    ensures BucketWidth(format) * BucketKey(format, t) <= t
      < BucketWidth(format) * (BucketKey(format, t) + 1)
  {
  }

  /** `now - timedelta(hours=hourlySnapshots)`: the hourly stage keeps
      what started at or after it. It lies in the past exactly when the
      count is not negative. */
  function HourlyCutoff(now: Time, hourlySnapshots: int): (r: Time)
    ensures r <= now <==> 0 <= hourlySnapshots
    ensures r < now <==> 0 < hourlySnapshots
  {
    now - hourlySnapshots * MICROS_PER_HOUR
  }

  /** `now - timedelta(minutes=180)`: three hours back, strictly in the
      past. */
  function SubHourlyCutoff(now: Time): (r: Time)
    ensures r == HourlyCutoff(now, 3)
    ensures r < now
  {
    now - SUB_HOURLY_SNAPSHOTS_MINUTES * MICROS_PER_MINUTE
  }

  /** `now - timedelta(days=dailySnapshots)`: a day is 24 clock hours. */
  function DailyCutoff(now: Time, dailySnapshots: int): (r: Time)
    ensures r == HourlyCutoff(now, 24 * dailySnapshots)
    ensures r <= now <==> 0 <= dailySnapshots
  {
    now - dailySnapshots * MICROS_PER_DAY
  }

  /** The entries of `s` that started strictly before `cutoff`, in order. */
  function OlderThan(cutoff: Time, s: seq<Snapshot>): seq<Snapshot> {
    if s == [] then []
    else OlderThan(cutoff, s[..|s| - 1]) + (if s[|s| - 1].start < cutoff then [s[|s| - 1]] else [])
  }

  /** A snapshot is passed on exactly when it is in the input and started
      strictly before the cutoff; one exactly at the cutoff is kept. */
  lemma {:induction false} OlderThanMembers(cutoff: Time, s: seq<Snapshot>)
    ensures forall x :: x in OlderThan(cutoff, s) <==> x in s && x.start < cutoff
  {
    if s != [] {
      var init, last := s[..|s| - 1], s[|s| - 1];
      OlderThanMembers(cutoff, init);
      assert s == init + [last];
    }
  }

  /** Entry `i` is in the window and an earlier in-window entry has the
      same bucket key. */
  predicate IsRepeat(keepSince: Time, format: BucketFormat, s: seq<Snapshot>, i: int)
    requires 0 <= i < |s|
  {
    exists j :: 0 <= j < i && keepSince <= s[j].start
      && BucketKey(format, s[j].start) == BucketKey(format, s[i].start)
  }

  /** The bucketed stage's decision for entry `i`: it is deleted when it is
      older than `keepSince` or repeats a bucket already kept. */
  predicate DeletedAt(keepSince: Time, format: BucketFormat, s: seq<Snapshot>, i: int)
    requires 0 <= i < |s|
  {
    s[i].start < keepSince || IsRepeat(keepSince, format, s, i)
  }

  /** The bucketed stage's output: the deleted entries, in order. */
  function Deletions(keepSince: Time, format: BucketFormat, s: seq<Snapshot>): seq<Snapshot>
  {
    if s == [] then []
    else
      Deletions(keepSince, format, s[..|s| - 1])
        + (if DeletedAt(keepSince, format, s, |s| - 1) then [s[|s| - 1]] else [])
  }

  /** What the bucketed stage keeps: the other entries, in order. */
  function Survivors(keepSince: Time, format: BucketFormat, s: seq<Snapshot>): seq<Snapshot>
  {
    if s == [] then []
    else
      Survivors(keepSince, format, s[..|s| - 1])
        + (if DeletedAt(keepSince, format, s, |s| - 1) then [] else [s[|s| - 1]])
  }

  /** The bucket keys of the entries in the window. */
  function WindowKeys(keepSince: Time, format: BucketFormat, s: seq<Snapshot>): set<int> {
    set x | x in s && keepSince <= x.start :: BucketKey(format, x.start)
  }

  function Keys(format: BucketFormat, s: seq<Snapshot>): set<int> {
    set x | x in s :: BucketKey(format, x.start)
  }

  lemma WindowKeysSnoc(keepSince: Time, format: BucketFormat, s: seq<Snapshot>, x: Snapshot)
    ensures WindowKeys(keepSince, format, s + [x])
      == WindowKeys(keepSince, format, s)
         + (if keepSince <= x.start then {BucketKey(format, x.start)} else {})
  {
    var l, r := WindowKeys(keepSince, format, s + [x]), WindowKeys(keepSince, format, s);
    forall k | k in l
      ensures k in r || (keepSince <= x.start && k == BucketKey(format, x.start))
    {
      var y :| y in s + [x] && keepSince <= y.start && k == BucketKey(format, y.start);
      if y != x {
        assert y in s;
      }
    }
  }

  /** Entry `i` repeats a bucket exactly when its key is among the window
      keys of the entries before it. */
  lemma RepeatIffSeen(keepSince: Time, format: BucketFormat, s: seq<Snapshot>, i: int)
    requires 0 <= i < |s|
    ensures IsRepeat(keepSince, format, s, i)
      <==> BucketKey(format, s[i].start) in WindowKeys(keepSince, format, s[..i])
  {
    var key := BucketKey(format, s[i].start);
    if IsRepeat(keepSince, format, s, i) {
      var j :| 0 <= j < i && keepSince <= s[j].start && BucketKey(format, s[j].start) == key;
      assert s[..i][j] == s[j];
    }
    if key in WindowKeys(keepSince, format, s[..i]) {
      var y :| y in s[..i] && keepSince <= y.start && BucketKey(format, y.start) == key;
      var j :| 0 <= j < i && s[..i][j] == y;
      assert s[j] == y;
    }
  }

  /** Appending `x` to the input appends it to the output exactly when it
      is old or its bucket is already taken by an earlier in-window entry. */
  lemma DeletionsSnoc(keepSince: Time, format: BucketFormat, s: seq<Snapshot>, x: Snapshot)
    ensures Deletions(keepSince, format, s + [x])
      == Deletions(keepSince, format, s)
         + (if x.start < keepSince || BucketKey(format, x.start) in WindowKeys(keepSince, format, s)
            then [x] else [])
  {
    var t := s + [x];
    assert t[..|t| - 1] == s;
    RepeatIffSeen(keepSince, format, t, |s|);
  }

  /** One more loop iteration: the output and the window keys of the
      prefix up to `i` grow by entry `i` as the dictionary loop decides. */
  lemma BucketedStep(keepSince: Time, format: BucketFormat, s: seq<Snapshot>, i: int)
    requires 0 <= i < |s|
    ensures Deletions(keepSince, format, s[..i + 1])
      == Deletions(keepSince, format, s[..i])
         + (if s[i].start < keepSince || BucketKey(format, s[i].start) in WindowKeys(keepSince, format, s[..i])
            then [s[i]] else [])
    ensures WindowKeys(keepSince, format, s[..i + 1])
      == WindowKeys(keepSince, format, s[..i])
         + (if keepSince <= s[i].start then {BucketKey(format, s[i].start)} else {})
  {
    assert s[..i + 1] == s[..i] + [s[i]];
    DeletionsSnoc(keepSince, format, s[..i], s[i]);
    WindowKeysSnoc(keepSince, format, s[..i], s[i]);
  }

  /** A decision depends only on the entries up to and including it. */
  lemma DeletedAtPrefix(keepSince: Time, format: BucketFormat, s: seq<Snapshot>, n: int, i: int)
    requires 0 <= i < n <= |s|
    ensures DeletedAt(keepSince, format, s[..n], i) == DeletedAt(keepSince, format, s, i)
  {
    if IsRepeat(keepSince, format, s, i) {
      var j :| 0 <= j < i && keepSince <= s[j].start
        && BucketKey(format, s[j].start) == BucketKey(format, s[i].start);
      assert s[..n][j] == s[j];
    }
  }

  /** `_remove_sub_hourly_snapshots`: passes on exactly the snapshots that
      started strictly before `now` minus 180 minutes. */
  method RemoveSubHourly(now: Time, snapshots: seq<Snapshot>) returns (toDelete: seq<Snapshot>)
    ensures toDelete == OlderThan(SubHourlyCutoff(now), snapshots)
  {
    toDelete := [];
    var keepSinceTime := SubHourlyCutoff(now);
    for i := 0 to |snapshots|
      invariant toDelete == OlderThan(keepSinceTime, snapshots[..i])
    {
      assert snapshots[..i + 1][..i] == snapshots[..i];
      if snapshots[i].start < keepSinceTime {
        toDelete := toDelete + [snapshots[i]];
      }
    }
    assert snapshots[..|snapshots|] == snapshots;
  }

  /** `_remove_bucketed_snapshots`: one pass with a dictionary from bucket
      key to the first in-window snapshot seen for it. */
  method RemoveBucketed(keepSinceTime: Time, format: BucketFormat, snapshots: seq<Snapshot>)
    returns (toDelete: seq<Snapshot>)
    ensures toDelete == Deletions(keepSinceTime, format, snapshots)
  {
    toDelete := [];
    var bucket: map<int, Snapshot> := map[];
    for i := 0 to |snapshots|
      invariant toDelete == Deletions(keepSinceTime, format, snapshots[..i])
      invariant bucket.Keys == WindowKeys(keepSinceTime, format, snapshots[..i])
    {
      BucketedStep(keepSinceTime, format, snapshots, i);
      var start := snapshots[i].start;
      if start < keepSinceTime {
        toDelete := toDelete + [snapshots[i]];
      } else {
        var key := BucketKey(format, start);
        if key in bucket {
          toDelete := toDelete + [snapshots[i]];
        } else {
          bucket := bucket[key := snapshots[i]];
        }
      }
    }
    assert snapshots[..|snapshots|] == snapshots;
  }

  /** `_remove_hourly_snapshots`: the bucketed stage over clock hours,
      keeping the last `hourlySnapshots` hours. */
  method RemoveHourly(now: Time, hourlySnapshots: int, snapshots: seq<Snapshot>)
    returns (toDelete: seq<Snapshot>)
    ensures toDelete == Deletions(HourlyCutoff(now, hourlySnapshots), YearMonthDayHour, snapshots)
  {
    toDelete := RemoveBucketed(HourlyCutoff(now, hourlySnapshots), YearMonthDayHour, snapshots);
  }

  /** `_remove_daily_snapshots`: the bucketed stage over calendar days,
      keeping the last `dailySnapshots` days. */
  method RemoveDaily(now: Time, dailySnapshots: int, snapshots: seq<Snapshot>)
    returns (toDelete: seq<Snapshot>)
    ensures toDelete == Deletions(DailyCutoff(now, dailySnapshots), YearMonthDay, snapshots)
  {
    toDelete := RemoveBucketed(DailyCutoff(now, dailySnapshots), YearMonthDay, snapshots);
  }

  /** The pipeline of `remove_old_snapshots`: each stage gets the previous
      stage's whole output; what the daily stage returns is deleted. */
  function DeletionPlan(now: Time, hourlySnapshots: int, dailySnapshots: int, sorted: seq<Snapshot>)
    : (r: seq<Snapshot>)
    ensures |r| <= |OlderThan(SubHourlyCutoff(now), sorted)|
  {
    var subHourly := OlderThan(SubHourlyCutoff(now), sorted);
    var hourly := Deletions(HourlyCutoff(now, hourlySnapshots), YearMonthDayHour, subHourly);
    BucketedPartition(HourlyCutoff(now, hourlySnapshots), YearMonthDayHour, subHourly);
    BucketedPartition(DailyCutoff(now, dailySnapshots), YearMonthDay, hourly);
    Deletions(DailyCutoff(now, dailySnapshots), YearMonthDay, hourly)
  }

  /** Appending one entry to the supersequence, and optionally the same
      entry to the subsequence, keeps the relation. */
  lemma SnocSubsequence(a: seq<Snapshot>, b: seq<Snapshot>, x: Snapshot, keep: bool)
    requires IsSubsequenceOf(a, b)
    ensures IsSubsequenceOf(a + (if keep then [x] else []), b + [x])
  {
    var b' := b + [x];
    assert b'[..|b'| - 1] == b;
    if keep {
      var a' := a + [x];
      assert a'[..|a'| - 1] == a;
    } else {
      assert a + [] == a;
    }
  }

  /** The sub-hourly stage keeps input order and only drops entries. */
  lemma {:induction false} OlderThanIsSubsequence(cutoff: Time, s: seq<Snapshot>)
    ensures IsSubsequenceOf(OlderThan(cutoff, s), s)
  {
    if s != [] {
      var init, last := s[..|s| - 1], s[|s| - 1];
      OlderThanIsSubsequence(cutoff, init);
      SnocSubsequence(OlderThan(cutoff, init), init, last, last.start < cutoff);
      assert init + [last] == s;
    }
  }

  /** When every entry is older than the cutoff, the sub-hourly stage
      passes them all on. */
  lemma {:induction false} OlderThanAll(cutoff: Time, s: seq<Snapshot>)
    requires forall i | 0 <= i < |s| :: s[i].start < cutoff
    ensures OlderThan(cutoff, s) == s
  {
    if s != [] {
      OlderThanAll(cutoff, s[..|s| - 1]);
      assert s[..|s| - 1] + [s[|s| - 1]] == s;
    }
  }

  /** Both halves of the bucketed stage's split keep input order. */
  lemma {:induction false} BucketedIsSubsequence(keepSince: Time, format: BucketFormat, s: seq<Snapshot>)
    ensures IsSubsequenceOf(Deletions(keepSince, format, s), s)
    ensures IsSubsequenceOf(Survivors(keepSince, format, s), s)
  {
    if s != [] {
      var init, last := s[..|s| - 1], s[|s| - 1];
      var deleted := DeletedAt(keepSince, format, s, |s| - 1);
      BucketedIsSubsequence(keepSince, format, init);
      SnocSubsequence(Deletions(keepSince, format, init), init, last, deleted);
      SnocSubsequence(Survivors(keepSince, format, init), init, last, !deleted);
      assert init + [last] == s;
    }
  }

  /** Every entry lands on the side its decision names: old entries and
      repeats of an in-window bucket in the output, the first in-window
      entry of each bucket among the survivors. */
  lemma {:induction false} BucketedDecisions(keepSince: Time, format: BucketFormat, s: seq<Snapshot>)
    ensures forall i | 0 <= i < |s| ::
      if DeletedAt(keepSince, format, s, i) then s[i] in Deletions(keepSince, format, s)
      else s[i] in Survivors(keepSince, format, s)
  {
    if s != [] {
      var n := |s|;
      var init := s[..n - 1];
      BucketedDecisions(keepSince, format, init);
      forall i | 0 <= i < n
        ensures if DeletedAt(keepSince, format, s, i) then s[i] in Deletions(keepSince, format, s)
                else s[i] in Survivors(keepSince, format, s)
      {
        if i < n - 1 {
          DeletedAtPrefix(keepSince, format, s, n - 1, i);
          assert init[i] == s[i];
        }
      }
    }
  }

  /** The output and the survivors split the input: together they hold
      every entry exactly as often as the input does. */
  lemma {:induction false} BucketedPartition(keepSince: Time, format: BucketFormat, s: seq<Snapshot>)
    ensures multiset(Deletions(keepSince, format, s)) + multiset(Survivors(keepSince, format, s))
      == multiset(s)
    ensures |Deletions(keepSince, format, s)| + |Survivors(keepSince, format, s)| == |s|
  {
    if s != [] {
      var init, last := s[..|s| - 1], s[|s| - 1];
      BucketedPartition(keepSince, format, init);
      assert multiset(s) == multiset(init) + multiset{last} by {
        assert init + [last] == s;
      }
      SplitOne(Deletions(keepSince, format, init), Survivors(keepSince, format, init), last,
        DeletedAt(keepSince, format, s, |s| - 1));
    }
  }

  /** Sending one entry to exactly one of two sides adds it once to their
      union. */
  lemma SplitOne(deleted: seq<Snapshot>, kept: seq<Snapshot>, x: Snapshot, toDeleted: bool)
    ensures multiset(deleted + (if toDeleted then [x] else []))
        + multiset(kept + (if toDeleted then [] else [x]))
      == multiset(deleted) + multiset(kept) + multiset{x}
    ensures |deleted + (if toDeleted then [x] else [])| + |kept + (if toDeleted then [] else [x])|
      == |deleted| + |kept| + 1
  {
    if toDeleted {
      assert kept + [] == kept;
    } else {
      assert deleted + [] == deleted;
    }
  }

  lemma KeysSnoc(format: BucketFormat, s: seq<Snapshot>, x: Snapshot)
    ensures Keys(format, s + [x]) == Keys(format, s) + {BucketKey(format, x.start)}
  {
    forall k | k in Keys(format, s + [x])
      ensures k in Keys(format, s) || k == BucketKey(format, x.start)
    {
      var y :| y in s + [x] && k == BucketKey(format, y.start);
      if y != x {
        assert y in s;
      }
    }
  }

  /** What the bucketed stage keeps lies in the window. */
  lemma {:induction false} SurvivorsInWindow(keepSince: Time, format: BucketFormat, s: seq<Snapshot>)
    ensures forall x | x in Survivors(keepSince, format, s) :: keepSince <= x.start
  {
    if s != [] {
      SurvivorsInWindow(keepSince, format, s[..|s| - 1]);
    }
  }

  /** The survivors' bucket keys are exactly the window's keys. */
  lemma {:induction false} SurvivorKeys(keepSince: Time, format: BucketFormat, s: seq<Snapshot>)
    ensures Keys(format, Survivors(keepSince, format, s)) == WindowKeys(keepSince, format, s)
  {
    if s != [] {
      var n := |s|;
      var init, last := s[..n - 1], s[n - 1];
      SurvivorKeys(keepSince, format, init);
      assert init + [last] == s;
      WindowKeysSnoc(keepSince, format, init, last);
      RepeatIffSeen(keepSince, format, s, n - 1);
      if !DeletedAt(keepSince, format, s, n - 1) {
        KeysSnoc(format, Survivors(keepSince, format, init), last);
      }
    }
  }

  /** No two snapshots kept by the bucketed stage share a bucket key. */
  lemma {:induction false} SurvivorKeysDistinct(keepSince: Time, format: BucketFormat, s: seq<Snapshot>)
    ensures forall i, j | 0 <= i < j < |Survivors(keepSince, format, s)| ::
      BucketKey(format, Survivors(keepSince, format, s)[i].start)
        != BucketKey(format, Survivors(keepSince, format, s)[j].start)
  {
    if s != [] {
      var n := |s|;
      var init, last := s[..n - 1], s[n - 1];
      var kept := Survivors(keepSince, format, init);
      var key := BucketKey(format, last.start);
      SurvivorKeysDistinct(keepSince, format, init);
      if !DeletedAt(keepSince, format, s, n - 1) {
        SurvivorKeys(keepSince, format, init);
        RepeatIffSeen(keepSince, format, s, n - 1);
        assert key !in Keys(format, kept);
        var kept' := kept + [last];
        assert Survivors(keepSince, format, s) == kept';
        forall i, j | 0 <= i < j < |kept'|
          ensures BucketKey(format, kept'[i].start) != BucketKey(format, kept'[j].start)
        {
          if j == |kept| {
            assert kept'[i] == kept[i];
            assert BucketKey(format, kept[i].start) in Keys(format, kept);
          } else {
            assert kept'[i] == kept[i] && kept'[j] == kept[j];
          }
        }
      }
    }
  }

  /** The bucketed stage keeps exactly one snapshot per in-window bucket:
      as many survivors as distinct in-window keys. */
  lemma {:induction false} SurvivorsOnePerBucket(keepSince: Time, format: BucketFormat, s: seq<Snapshot>)
    ensures |Survivors(keepSince, format, s)| == |WindowKeys(keepSince, format, s)|
  {
    if s != [] {
      SurvivorsOnePerBucket(keepSince, format, s[..|s| - 1]);
      SurvivorCountStep(keepSince, format, s);
    }
  }

  /** One more entry adds a survivor exactly when it adds a window key. */
  lemma SurvivorCountStep(keepSince: Time, format: BucketFormat, s: seq<Snapshot>)
    requires s != []
    requires |Survivors(keepSince, format, s[..|s| - 1])| == |WindowKeys(keepSince, format, s[..|s| - 1])|
    ensures |Survivors(keepSince, format, s)| == |WindowKeys(keepSince, format, s)|
  {
    var n := |s|;
    var init, last := s[..n - 1], s[n - 1];
    var key := BucketKey(format, last.start);
    var inWindow := keepSince <= last.start;
    WindowKeysStep(keepSince, format, s);
    RepeatIffSeen(keepSince, format, s, n - 1);
    AddKeyCardinality(WindowKeys(keepSince, format, init), key, inWindow);
  }

  lemma WindowKeysStep(keepSince: Time, format: BucketFormat, s: seq<Snapshot>)
    requires s != []
    ensures WindowKeys(keepSince, format, s)
      == WindowKeys(keepSince, format, s[..|s| - 1])
         + (if keepSince <= s[|s| - 1].start then {BucketKey(format, s[|s| - 1].start)} else {})
  {
    assert s[..|s| - 1] + [s[|s| - 1]] == s;
    WindowKeysSnoc(keepSince, format, s[..|s| - 1], s[|s| - 1]);
  }

  lemma AddKeyCardinality(keys: set<int>, k: int, add: bool)
    ensures |keys + (if add then {k} else {})| == |keys| + (if add && k !in keys then 1 else 0)
  {
    if add && k in keys {
      assert keys + {k} == keys;
    }
  }

  /** The bucketed stage's output is as long as its input minus the number
      of distinct in-window bucket keys. */
  lemma BucketedDeletionCount(keepSince: Time, format: BucketFormat, s: seq<Snapshot>)
    ensures |Deletions(keepSince, format, s)| == |s| - |WindowKeys(keepSince, format, s)|
  {
    BucketedPartition(keepSince, format, s);
    SurvivorsOnePerBucket(keepSince, format, s);
  }

  /** When every entry is older than `keepSince`, the bucketed stage
      outputs all of them. */
  lemma {:induction false} BucketedAllOld(keepSince: Time, format: BucketFormat, s: seq<Snapshot>)
    requires forall i | 0 <= i < |s| :: s[i].start < keepSince
    ensures Deletions(keepSince, format, s) == s
  {
    if s != [] {
      BucketedAllOld(keepSince, format, s[..|s| - 1]);
      assert s[..|s| - 1] + [s[|s| - 1]] == s;
    }
  }

  /** The pipeline's output keeps the order of the sorted listing, only
      drops entries, and so is itself sorted by start time. */
  lemma PlanIsOrderedSubsequence(now: Time, hourlySnapshots: int, dailySnapshots: int, sorted: seq<Snapshot>)
    ensures IsSubsequenceOf(DeletionPlan(now, hourlySnapshots, dailySnapshots, sorted), sorted)
    ensures SortedByStart(sorted) ==> SortedByStart(DeletionPlan(now, hourlySnapshots, dailySnapshots, sorted))
  {
    var subHourly := OlderThan(SubHourlyCutoff(now), sorted);
    var hourly := Deletions(HourlyCutoff(now, hourlySnapshots), YearMonthDayHour, subHourly);
    var plan := Deletions(DailyCutoff(now, dailySnapshots), YearMonthDay, hourly);
    OlderThanIsSubsequence(SubHourlyCutoff(now), sorted);
    BucketedIsSubsequence(HourlyCutoff(now, hourlySnapshots), YearMonthDayHour, subHourly);
    BucketedIsSubsequence(DailyCutoff(now, dailySnapshots), YearMonthDay, hourly);
    SubsequenceTransitive(hourly, subHourly, sorted);
    SubsequenceTransitive(plan, hourly, sorted);
    if SortedByStart(sorted) {
      SubsequenceSorted(plan, sorted);
    }
  }

  /** The pipeline never deletes a snapshot from the last 180 minutes: every
      entry of its output started strictly before the sub-hourly cutoff. */
  lemma PlanSparesRecent(now: Time, hourlySnapshots: int, dailySnapshots: int, sorted: seq<Snapshot>)
    ensures forall x | x in DeletionPlan(now, hourlySnapshots, dailySnapshots, sorted) ::
      x in sorted && x.start < SubHourlyCutoff(now)
  {
    var subHourly := OlderThan(SubHourlyCutoff(now), sorted);
    var hourly := Deletions(HourlyCutoff(now, hourlySnapshots), YearMonthDayHour, subHourly);
    var plan := Deletions(DailyCutoff(now, dailySnapshots), YearMonthDay, hourly);
    BucketedIsSubsequence(HourlyCutoff(now, hourlySnapshots), YearMonthDayHour, subHourly);
    BucketedIsSubsequence(DailyCutoff(now, dailySnapshots), YearMonthDay, hourly);
    SubsequenceTransitive(plan, hourly, subHourly);
    SubsequenceMembers(plan, subHourly);
    OlderThanMembers(SubHourlyCutoff(now), sorted);
  }

  /** When every snapshot is older than all three cutoffs, every one of
      them is deleted, even if it is alone in its day. */
  lemma PlanDeletesAllOld(now: Time, hourlySnapshots: int, dailySnapshots: int, sorted: seq<Snapshot>)
    requires forall i | 0 <= i < |sorted| ::
      && sorted[i].start < SubHourlyCutoff(now)
      && sorted[i].start < HourlyCutoff(now, hourlySnapshots)
      && sorted[i].start < DailyCutoff(now, dailySnapshots)
    ensures DeletionPlan(now, hourlySnapshots, dailySnapshots, sorted) == sorted
  {
    OlderThanAll(SubHourlyCutoff(now), sorted);
    BucketedAllOld(HourlyCutoff(now, hourlySnapshots), YearMonthDayHour, sorted);
    BucketedAllOld(DailyCutoff(now, dailySnapshots), YearMonthDay, sorted);
  }

  /** Two snapshots in one clock hour, inside the hourly window but past the
      sub-hourly one: the hourly stage outputs the later one, and the daily
      stage then keeps it as the first candidate of its day, so the
      pipeline deletes neither. */
  lemma SameHourDuplicateSurvives(now: Time, hourlySnapshots: int, dailySnapshots: int, a: Snapshot, b: Snapshot)
    requires a.start <= b.start < SubHourlyCutoff(now)
    requires HourlyCutoff(now, hourlySnapshots) <= a.start
    requires DailyCutoff(now, dailySnapshots) <= b.start
    requires BucketKey(YearMonthDayHour, a.start) == BucketKey(YearMonthDayHour, b.start)
    ensures Deletions(HourlyCutoff(now, hourlySnapshots), YearMonthDayHour, [a, b]) == [b]
    ensures DeletionPlan(now, hourlySnapshots, dailySnapshots, [a, b]) == []
  {
    var s := [a, b];
    assert s[..1] == [a];
    assert [a][..0] == [];
    assert [b][..0] == [];
    OlderThanAll(SubHourlyCutoff(now), s);
    assert IsRepeat(HourlyCutoff(now, hourlySnapshots), YearMonthDayHour, s, 1);
    assert Deletions(HourlyCutoff(now, hourlySnapshots), YearMonthDayHour, [a]) == [];
    assert Deletions(DailyCutoff(now, dailySnapshots), YearMonthDay, [b]) == [];
  }
}
