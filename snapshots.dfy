/** Snapshot records of one cluster, time units, the stable ascending sort
    by start time that the retention engine relies on, and order-preserving
    subsequences. */
module Snapshots {

  /** Instants are microseconds since the Unix epoch in UTC: the listing
      localises every start time to UTC and Python's datetime keeps
      microseconds. */
  type Time = int

  const MICROS_PER_MINUTE: int := 60_000_000
  const MICROS_PER_HOUR: int := 3_600_000_000
  const MICROS_PER_DAY: int := 86_400_000_000

  /** One block-storage snapshot as listed for the cluster. */
  datatype Snapshot = Snapshot(id: string, start: Time)

  ghost predicate SortedByStart(s: seq<Snapshot>) {
    forall i, j | 0 <= i < j < |s| :: s[i].start <= s[j].start
  }

  /** The snapshots of `s` that started exactly at `t`, in the order of `s`.
      A sort is stable when it keeps every such group unchanged. */
  function WithStart(s: seq<Snapshot>, t: Time): seq<Snapshot> {
    if s == [] then []
    else (if s[0].start == t then [s[0]] else []) + WithStart(s[1..], t)
  }

  /** Every entry of `s` starts at or after `m`. */
  ghost predicate StartsFrom(s: seq<Snapshot>, m: Time) {
    forall i | 0 <= i < |s| :: m <= s[i].start
  }

  /** Places `x` after every snapshot of `r` that does not start later. */
  function Insert(x: Snapshot, r: seq<Snapshot>): (r': seq<Snapshot>)
    ensures |r'| == |r| + 1
  {
    if r == [] then [x]
    else if x.start < r[0].start then [x] + r
    else [r[0]] + Insert(x, r[1..])
  }

  lemma {:induction false} InsertMultiset(x: Snapshot, r: seq<Snapshot>)
    ensures multiset(Insert(x, r)) == multiset(r) + multiset{x}
  {
    if r != [] && x.start >= r[0].start {
      InsertMultiset(x, r[1..]);
      assert r == [r[0]] + r[1..];
    }
  }

  lemma {:induction false} InsertStartsFrom(x: Snapshot, r: seq<Snapshot>, m: Time)
    requires StartsFrom(r, m) && m <= x.start
    ensures StartsFrom(Insert(x, r), m)
  {
    if r != [] && x.start >= r[0].start {
      InsertStartsFrom(x, r[1..], m);
      var r' := Insert(x, r);
      assert r' == [r[0]] + Insert(x, r[1..]);
      forall i | 0 <= i < |r'|
        ensures m <= r'[i].start
      {
        if i > 0 {
          assert r'[i] == Insert(x, r[1..])[i - 1];
        }
      }
    }
  }

  lemma {:induction false} InsertSorted(x: Snapshot, r: seq<Snapshot>)
    requires SortedByStart(r)
    ensures SortedByStart(Insert(x, r))
  {
    if r == [] {
    } else if x.start < r[0].start {
      var r' := [x] + r;
      forall i, j | 0 <= i < j < |r'|
        ensures r'[i].start <= r'[j].start
      {
        if i == 0 {
          assert r'[j] == r[j - 1];
          assert r[0].start <= r[j - 1].start;
        } else {
          assert r'[i] == r[i - 1] && r'[j] == r[j - 1];
        }
      }
    } else {
      var tail := r[1..];
      assert SortedByStart(tail);
      InsertSorted(x, tail);
      assert StartsFrom(tail, r[0].start) by {
        forall i | 0 <= i < |tail|
          ensures r[0].start <= tail[i].start
        {
          assert tail[i] == r[i + 1];
        }
      }
      InsertStartsFrom(x, tail, r[0].start);
      var rest := Insert(x, tail);
      var r' := [r[0]] + rest;
      forall i, j | 0 <= i < j < |r'|
        ensures r'[i].start <= r'[j].start
      {
        assert r'[j] == rest[j - 1];
        if i > 0 {
          assert r'[i] == rest[i - 1];
        }
      }
    }
  }

  /** `sorted(snapshots, key=lambda s: s.start_time)`: insertion of each
      snapshot, first to last, behind the ones already placed. */
  function SortByStart(s: seq<Snapshot>): (r: seq<Snapshot>)
    ensures SortedByStart(r)
    ensures multiset(r) == multiset(s)
  {
    if s == [] then []
    else
      var init, last := s[..|s| - 1], s[|s| - 1];
      assert s == init + [last];
      var sortedInit := SortByStart(init);
      InsertSorted(last, sortedInit);
      InsertMultiset(last, sortedInit);
      Insert(last, sortedInit)
  }

  lemma {:induction false} WithStartMembers(s: seq<Snapshot>, t: Time)
    ensures forall x | x in WithStart(s, t) :: x in s && x.start == t
  {
    if s != [] {
      WithStartMembers(s[1..], t);
    }
  }

  lemma {:induction false} WithStartAppend(a: seq<Snapshot>, b: seq<Snapshot>, t: Time)
    ensures WithStart(a + b, t) == WithStart(a, t) + WithStart(b, t)
  {
    if a == [] {
      assert a + b == b;
    } else {
      var head := if a[0].start == t then [a[0]] else [];
      assert (a + b)[0] == a[0];
      assert (a + b)[1..] == a[1..] + b;
      WithStartAppend(a[1..], b, t);
      assert WithStart(a + b, t) == head + WithStart(a[1..] + b, t);
      assert WithStart(a, t) == head + WithStart(a[1..], t);
    }
  }

  lemma {:induction false} WithStartNone(r: seq<Snapshot>, t: Time)
    requires forall i | 0 <= i < |r| :: r[i].start != t
    ensures WithStart(r, t) == []
  {
    if r != [] {
      WithStartNone(r[1..], t);
    }
  }

  lemma GroupsDecideEmptiness(a: seq<Snapshot>, b: seq<Snapshot>)
    requires forall t :: WithStart(a, t) == WithStart(b, t)
    ensures a == [] <==> b == []
  {
    if a != [] {
      assert a[0] in WithStart(a, a[0].start);
    }
    if b != [] {
      assert b[0] in WithStart(b, b[0].start);
    }
  }

  /** Inserting `x` adds it at the end of its own start-time group and
      leaves every other group alone. */
  lemma {:induction false} InsertGroups(x: Snapshot, r: seq<Snapshot>, t: Time)
    requires SortedByStart(r)
    ensures WithStart(Insert(x, r), t) == WithStart(r, t) + (if x.start == t then [x] else [])
  {
    var group := if x.start == t then [x] else [];
    if r == [] {
      assert [x][1..] == [];
      assert WithStart([x], t) == group + WithStart([], t);
    } else if x.start < r[0].start {
      assert Insert(x, r) == [x] + r;
      assert ([x] + r)[1..] == r;
      assert WithStart([x] + r, t) == group + WithStart(r, t);
      if x.start == t {
        WithStartNone(r, t);
        assert group + [] == [] + group;
      } else {
        assert group == [];
        assert [] + WithStart(r, t) == WithStart(r, t) + [];
      }
    } else {
      var head := if r[0].start == t then [r[0]] else [];
      var rest := Insert(x, r[1..]);
      assert SortedByStart(r[1..]);
      InsertGroups(x, r[1..], t);
      assert ([r[0]] + rest)[1..] == rest;
      assert WithStart(Insert(x, r), t) == head + WithStart(rest, t);
      assert WithStart(r, t) == head + WithStart(r[1..], t);
      assert head + (WithStart(r[1..], t) + group) == (head + WithStart(r[1..], t)) + group;
    }
  }

  /** The sort is stable: snapshots with equal start times keep their
      listing order. */
  lemma {:induction false} SortByStartIsStable(s: seq<Snapshot>, t: Time)
    ensures WithStart(SortByStart(s), t) == WithStart(s, t)
  {
    if s != [] {
      var init, last := s[..|s| - 1], s[|s| - 1];
      assert s == init + [last];
      var group := if last.start == t then [last] else [];
      calc {
        WithStart(SortByStart(s), t);
        WithStart(Insert(last, SortByStart(init)), t);
        { InsertGroups(last, SortByStart(init), t); }
        WithStart(SortByStart(init), t) + group;
        { SortByStartIsStable(init, t); }
        WithStart(init, t) + group;
        { assert WithStart([last], t) == group + WithStart([], t); }
        WithStart(init, t) + WithStart([last], t);
        { WithStartAppend(init, [last], t); }
        WithStart(s, t);
      }
    }
  }

  /** Two sequences sorted by start time that agree on every start-time
      group are equal: a stable ascending sort has exactly one result. */
  lemma {:induction false} StableSortIsUnique(a: seq<Snapshot>, b: seq<Snapshot>)
    requires SortedByStart(a) && SortedByStart(b)
    requires forall t :: WithStart(a, t) == WithStart(b, t)
    ensures a == b
  {
    GroupsDecideEmptiness(a, b);
    if a != [] {
      var m := a[0].start;
      WithStartMembers(a, m);
      WithStartMembers(b, m);
      WithStartMembers(b, b[0].start);
      WithStartMembers(a, b[0].start);
      assert a[0] in WithStart(a, m);
      assert a[0] in b;
      assert b[0] in WithStart(b, b[0].start);
      assert b[0] in a;
      assert b[0].start == m;
      assert WithStart(a, m)[0] == a[0];
      assert WithStart(b, m)[0] == b[0];
      assert a[0] == b[0];
      forall t
        ensures WithStart(a[1..], t) == WithStart(b[1..], t)
      {
        var head := if m == t then [a[0]] else [];
        assert WithStart(a, t) == head + WithStart(a[1..], t);
        assert WithStart(b, t) == head + WithStart(b[1..], t);
        assert WithStart(a[1..], t) == WithStart(a, t)[|head|..];
        assert WithStart(b[1..], t) == WithStart(b, t)[|head|..];
      }
      StableSortIsUnique(a[1..], b[1..]);
      assert a == [a[0]] + a[1..];
      assert b == [b[0]] + b[1..];
    }
  }

  /** Whatever algorithm `sorted` uses, its result is `SortByStart`: any
      stable ascending rearrangement of the listing equals it. */
  lemma SortByStartIsTheStableSort(s: seq<Snapshot>, r: seq<Snapshot>)
    requires SortedByStart(r)
    requires forall t :: WithStart(r, t) == WithStart(s, t)
    ensures r == SortByStart(s)
  {
    forall t
      ensures WithStart(r, t) == WithStart(SortByStart(s), t)
    {
      SortByStartIsStable(s, t);
    }
    StableSortIsUnique(r, SortByStart(s));
  }

  /** `a` is `b` with some entries dropped and the rest in order. */
  ghost predicate IsSubsequenceOf(a: seq<Snapshot>, b: seq<Snapshot>)
    decreases |b|
  {
    if a == [] then true
    else if b == [] then false
    else
      (a[|a| - 1] == b[|b| - 1] && IsSubsequenceOf(a[..|a| - 1], b[..|b| - 1]))
      || IsSubsequenceOf(a, b[..|b| - 1])
  }

  lemma {:induction false} SubsequenceMembers(a: seq<Snapshot>, b: seq<Snapshot>)
    requires IsSubsequenceOf(a, b)
    ensures forall x | x in a :: x in b
    decreases |b|
  {
    if a != [] {
      var a', b' := a[..|a| - 1], b[..|b| - 1];
      if a[|a| - 1] == b[|b| - 1] && IsSubsequenceOf(a', b') {
        SubsequenceMembers(a', b');
        assert a == a' + [a[|a| - 1]];
        assert b == b' + [b[|b| - 1]];
      } else {
        SubsequenceMembers(a, b');
        assert b == b' + [b[|b| - 1]];
      }
    }
  }

  lemma {:induction false} SubsequenceTransitive(a: seq<Snapshot>, b: seq<Snapshot>, c: seq<Snapshot>)
    requires IsSubsequenceOf(a, b) && IsSubsequenceOf(b, c)
    ensures IsSubsequenceOf(a, c)
    decreases |c|
  {
    if a != [] {
      var a', b', c' := a[..|a| - 1], b[..|b| - 1], c[..|c| - 1];
      if b[|b| - 1] == c[|c| - 1] && IsSubsequenceOf(b', c') {
        if a[|a| - 1] == b[|b| - 1] && IsSubsequenceOf(a', b') {
          SubsequenceTransitive(a', b', c');
        } else {
          SubsequenceTransitive(a, b', c');
        }
      } else {
        SubsequenceTransitive(a, b, c');
      }
    }
  }

  /** Dropping entries from a sequence sorted by start time leaves it
      sorted. */
  lemma {:induction false} SubsequenceSorted(a: seq<Snapshot>, b: seq<Snapshot>)
    requires IsSubsequenceOf(a, b) && SortedByStart(b)
    ensures SortedByStart(a)
    decreases |b|
  {
    if a != [] {
      var a', b' := a[..|a| - 1], b[..|b| - 1];
      if a[|a| - 1] == b[|b| - 1] && IsSubsequenceOf(a', b') {
        SubsequenceSorted(a', b');
        SubsequenceMembers(a', b');
        forall i | 0 <= i < |a'|
          ensures a'[i].start <= a[|a| - 1].start
        {
          assert a'[i] in b';
        }
        assert a == a' + [a[|a| - 1]];
      } else {
        SubsequenceSorted(a, b');
      }
    }
  }

  /** No two entries share an identifier, as in one cluster's listing. */
  ghost predicate DistinctIds(s: seq<Snapshot>) {
    forall i, j | 0 <= i < j < |s| :: s[i].id != s[j].id
  }
}
