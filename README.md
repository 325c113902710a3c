# MongoDB snapshot retention, modelled in Dafny

This project models the retention engine of `SnapshotManager` in
`snapshots/mongodb/snapshotmanager.py`. The manager keeps EBS snapshots of
a MongoDB cluster's data volume and prunes them in one sweep,
`remove_old_snapshots(now, hourly_snapshots, daily_snapshots)`:

1. It lists the cluster's snapshots and sorts them by start time,
   ascending. Python's `sorted` is stable.
2. It computes the `mongodb.backups.missing` value, logs it, and sends it
   to the gauge when statsd is configured. The value is 5 minus the
   number of snapshots that started at or after `now - 60 min`, and never
   less than 0.
3. It runs three filter stages. Each stage takes the previous stage's
   to-delete list and returns its own.
   - The sub-hourly stage passes on the snapshots older than
     `now - 180 min`.
   - The hourly stage uses `now - hourly_snapshots hours` and the bucket
     key `%Y%m%d%H`.
   - The daily stage uses `now - daily_snapshots days` and the bucket key
     `%Y%m%d`.
   - Each bucketed stage outputs every snapshot older than its cutoff. Of
     the rest, it keeps the first snapshot seen for each bucket key and
     outputs every later one with the same key.
4. It deletes every snapshot the daily stage returns.

Modules, one per component:

- `Snapshots` (`snapshots.dfy`): the snapshot record, the time units and
  the stable sort by start time. It proves that the sort is stable and that
  a stable ascending sort has exactly one result. It also defines
  order-preserving subsequences.
- `Retention` (`retention.dfy`): the three stages as loop methods. Each is
  proved against a specification function: `OlderThan` for the sub-hourly
  stage, and `Deletions`/`Survivors` for the bucketed one, defined
  entry by entry through the predicate `DeletedAt`. `DeletionPlan` chains
  the three stages. Lemmas give the per-key, order and count properties
  and the pipeline's safety.
- `Health` (`health.dfy`): the gauge loop and its relation to the
  sub-hourly filter.
- `Manager` (`manager.dfy`): the `SnapshotManager` class. The store is a
  field holding the cluster's listing. Every outward effect (a gauge value
  sent, a delete request) is appended, in order, to the `effects` log.

Time is an integer count of microseconds since the epoch, in UTC. The
listing localises every start time to UTC, and Python's `datetime` keeps
microseconds. For an instant `t`, the hour bucket is `t / MICROS_PER_HOUR`
and the day bucket is `t / MICROS_PER_DAY` (floor division). For years 1900
to 9999 these numbers are in one-to-one correspondence with the
`strftime` keys `%Y%m%d%H` and `%Y%m%d` of a UTC instant.

Three behaviours of the code are worth stating on their own:

- A snapshot that started exactly at `now - 180 min` is kept, because the
  sub-hourly test at `snapshotmanager.py:113` is a strict `<`.
- Snapshots with equal start times keep their listing order. `sorted` at
  `snapshotmanager.py:53` is stable and has no tie-break by identifier.
- The hourly stage's output, same-hour duplicates included, all goes to
  the daily stage (`snapshotmanager.py:74-75`). A same-hour duplicate can
  therefore survive as the first candidate of its day
  (`SameHourDuplicateSurvives`).

## Model

| member | source | states |
|---|---|---|
| Snapshots.SortByStart | snapshots/mongodb/snapshotmanager.py:51-53 | the result is sorted ascending by start time and is a permutation of the listing |
| Snapshots.SortByStartIsStable | snapshots/mongodb/snapshotmanager.py:53 | for every start time, the snapshots with that start keep their listing order after sorting |
| Snapshots.StableSortIsUnique | snapshots/mongodb/snapshotmanager.py:53 | two sequences sorted by start time that agree on every equal-start group are equal |
| Snapshots.SortByStartIsTheStableSort | snapshots/mongodb/snapshotmanager.py:53 | any stable ascending rearrangement of the listing equals `SortByStart`, whatever algorithm `sorted` uses |
| Retention.BucketKeyContains | snapshots/mongodb/snapshotmanager.py:98 | the key of an instant is the number of the UTC hour (or day) interval that contains it |
| Retention.HourlyCutoff | snapshots/mongodb/snapshotmanager.py:87 | the hourly cutoff `now - h hours` lies at or before `now` exactly when `h` is not negative, strictly before exactly when `h` is positive |
| Retention.SubHourlyCutoff | snapshots/mongodb/snapshotmanager.py:109-110 | the sub-hourly cutoff is the hourly cutoff for three hours, strictly before `now` |
| Retention.DailyCutoff | snapshots/mongodb/snapshotmanager.py:83 | the daily cutoff for `d` days is the hourly cutoff for `24 * d` hours, and lies at or before `now` exactly when `d` is not negative |
| Retention.OlderThanMembers | snapshots/mongodb/snapshotmanager.py:108-116 | a snapshot is in the sub-hourly output iff it is in the input and started strictly before the cutoff, so one exactly at the cutoff is kept |
| Retention.RemoveSubHourly | snapshots/mongodb/snapshotmanager.py:108-116 | the loop returns exactly the input snapshots older than `now - 180 min`, in input order |
| Retention.RemoveBucketed | snapshots/mongodb/snapshotmanager.py:90-106 | the loop with its dictionary of seen keys returns exactly `Deletions`: every entry that is old or repeats an in-window bucket, in input order |
| Retention.RemoveHourly | snapshots/mongodb/snapshotmanager.py:86-88 | the hourly stage is the bucketed stage with cutoff `now - h hours` and the clock-hour key |
| Retention.RemoveDaily | snapshots/mongodb/snapshotmanager.py:82-84 | the daily stage is the bucketed stage with cutoff `now - d days` and the calendar-day key |
| Retention.RepeatIffSeen | snapshots/mongodb/snapshotmanager.py:99-104 | the dictionary lookup `bucket_key in snapshot_bucket` is true exactly when an earlier in-window snapshot has the same key |
| Retention.DeletionsSnoc | snapshots/mongodb/snapshotmanager.py:93-104 | one more input snapshot is appended to the output exactly when it is old or its key was already seen in the window |
| Retention.OlderThanIsSubsequence | snapshots/mongodb/snapshotmanager.py:111-114 | the sub-hourly output is an order-preserving subsequence of its input |
| Retention.BucketedIsSubsequence | snapshots/mongodb/snapshotmanager.py:93-106 | both the bucketed output and the kept snapshots are order-preserving subsequences of the input |
| Retention.BucketedDecisions | snapshots/mongodb/snapshotmanager.py:93-104 | every old entry and every later in-window entry of a bucket is in the output, and the first in-window entry of each bucket is kept |
| Retention.BucketedPartition | snapshots/mongodb/snapshotmanager.py:93-106 | the output and the kept snapshots together hold each input entry exactly as often as the input |
| Retention.SurvivorsInWindow | snapshots/mongodb/snapshotmanager.py:95-104 | every snapshot the bucketed stage keeps started at or after its cutoff |
| Retention.SurvivorKeys | snapshots/mongodb/snapshotmanager.py:97-104 | the keys of the kept snapshots are exactly the keys of the in-window input snapshots |
| Retention.SurvivorKeysDistinct | snapshots/mongodb/snapshotmanager.py:99-104 | no two kept snapshots share a bucket key |
| Retention.SurvivorsOnePerBucket | snapshots/mongodb/snapshotmanager.py:97-104 | the number of kept snapshots equals the number of distinct in-window keys |
| Retention.BucketedDeletionCount | snapshots/mongodb/snapshotmanager.py:90-106 | the output's length is the input's length minus the number of distinct in-window keys |
| Retention.DeletionPlan | snapshots/mongodb/snapshotmanager.py:73-75 | each stage gets the previous stage's whole output; the plan is never longer than the sub-hourly candidates; its order, safety and completeness are in `PlanIsOrderedSubsequence`, `PlanSparesRecent` and `PlanDeletesAllOld` |
| Retention.PlanIsOrderedSubsequence | snapshots/mongodb/snapshotmanager.py:70-75 | the final delete list is an order-preserving subsequence of the sorted listing, and so is sorted by start time |
| Retention.PlanSparesRecent | snapshots/mongodb/snapshotmanager.py:73-75 | every snapshot in the final delete list is in the listing and started strictly before `now - 180 min` |
| Retention.PlanDeletesAllOld | snapshots/mongodb/snapshotmanager.py:73-75 | when every snapshot is older than all three cutoffs, all are deleted, even one alone in its day |
| Retention.SameHourDuplicateSurvives | snapshots/mongodb/snapshotmanager.py:74-75 | for two snapshots in one clock hour past the sub-hourly window and inside the hourly window, the hourly stage outputs the later one, and the daily stage, given that output, keeps it, so neither is deleted |
| Health.LookbackCutoff | snapshots/mongodb/snapshotmanager.py:122 | the gauge's cutoff `now - 60 min` lies strictly between the sub-hourly cutoff and `now` |
| Health.MissingBackups | snapshots/mongodb/snapshotmanager.py:124-131 | the gauge value is in 0..5; it is 0 iff at least five snapshots are recent, 5 iff none is, and otherwise it adds up with the recent count to 5 |
| Health.PlanSparesCounted | snapshots/mongodb/snapshotmanager.py:70-75 | no snapshot the gauge counts as recent is in the sweep's delete list |
| Health.CountMissingBackups | snapshots/mongodb/snapshotmanager.py:119-131 | the gauge value is `max(0, 5 - #{s : start >= now - 60 min})`, always in 0..5, 0 iff at least five recent snapshots, 5 on an empty list |
| Health.RecentAndOlderSplit | snapshots/mongodb/snapshotmanager.py:124-127 | at any cutoff, the inclusive recent count plus the length of the strictly-older filter equals the list's length |
| Health.CountSinceIgnoresOrder | snapshots/mongodb/snapshotmanager.py:70-71 | the recent count is the same for any permutation, so counting the sorted listing equals counting the raw one |
| Manager.WithoutIdsMembers | snapshots/mongodb/snapshotmanager.py:65-66 | a snapshot remains in the store iff it was there and its identifier was not deleted |
| Manager.SweepKeepsRecent | snapshots/mongodb/snapshotmanager.py:68-80 | with distinct identifiers, every snapshot from the last 180 minutes is still in the store after the sweep |
| Manager.SnapshotManager.constructor | snapshots/mongodb/snapshotmanager.py:30-35 | a manager holds its cluster name, whether statsd is configured, the store's listing and an empty effect log |
| Manager.SnapshotManager.GetSortedSnapshots | snapshots/mongodb/snapshotmanager.py:51-53 | returns the listing sorted ascending by start time, a permutation of it, with equal-start groups in listing order |
| Manager.SnapshotManager.DeleteSnapshot | snapshots/mongodb/snapshotmanager.py:65-66 | the store loses exactly the snapshots with that identifier and one delete request is logged |
| Manager.SnapshotManager.RecordBackupMetrics | snapshots/mongodb/snapshotmanager.py:119-134 | the gauge value for the given list is appended to the effect log when statsd is configured, and the effect log is unchanged otherwise |
| Manager.SnapshotManager.DeleteSnapshots | snapshots/mongodb/snapshotmanager.py:77-80 | one delete request per entry, in list order, and the store loses exactly the snapshots with those identifiers |
| Manager.SnapshotManager.RemoveOldSnapshots | snapshots/mongodb/snapshotmanager.py:68-80 | the log gains the gauge of the full sorted listing first, then one delete per entry of the three-stage pipeline's output, in ascending start order; the store loses exactly those snapshots |

## Left out

- EC2 access is not modelled: the client, `get_snapshots` and the `_ec2_*` wrappers. The listing is the `snapshots` field, already restricted to the cluster and localised to UTC.
- Manager.SnapshotManager.RemoveOldSnapshots: assumes a working listing. In the source, `get_snapshots` (`snapshotmanager.py:57`) calls `self._ec2_describe_snapshots`, which the class never defines (its only `_ec2_*` methods are `_ec2_create_tags`, `_ec2_create_snapshot` and `_ec2_describe_volumes`). As written, every `remove_old_snapshots` call therefore raises `AttributeError` before the gauge is recorded and before any delete. The model takes the listing as the `snapshots` field instead.
- Snapshot creation is not modelled: `create_snapshot`, `create_snapshot_for_instance`, `create_snapshot_for_volume`, the tags, and the name built from the wall clock. Looking up the instance id through the metadata service is left out too. These are network calls, except the snapshot name, which reads the wall clock (`datetime.now()`).
- The `@retry` decorators, `_is_retryable_exception` and their back-off timing are left out. They belong to an outside library and depend on the clock.
- Logging and the statsd transport are left out. Only the gauge's value and its place in the effect log are modelled.
- Manager.SnapshotManager.DeleteSnapshot: a delete request never fails in the model. In the source, an exception raised by EC2 leaves the loop, so later entries are not deleted in that sweep.
- Retention.BucketKey: does not model Python 2 `strftime` refusing years before 1900, nor a key format above year 9999.
- Retention.RemoveHourly, Retention.RemoveDaily: the retention counts are integers. A `timedelta` built from a fractional count is not modelled. Each cutoff (`snapshotmanager.py:83`, `:87`, `:110`, `:122`, and so `Retention.SubHourlyCutoff`, `Retention.HourlyCutoff`, `Retention.DailyCutoff` and `Health.LookbackCutoff`) is computed as `now - timedelta(...)`. In the source, that raises `OverflowError` when a count is over `timedelta`'s limit of 999999999 days or the result falls outside years 1 to 9999 (a negative count can push it past year 9999). The model returns a cutoff for every integer and does not model this error path.
- Time zones other than UTC, naive timestamps and the calendar machinery of `strftime` are replaced by integer UTC microseconds and floor division.
