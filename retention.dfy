/**
 * The version manager: the retention pass that deletes snapshot
 * directories older than their type's retention span, the size and count
 * statistics over the backup root, and the approximate chain of snapshots
 * created after a full backup.
 */
module Retention {
  import opened Fs

  // ---------------------------------------------------------------------
  // The retention policy
  // ---------------------------------------------------------------------

  /** Days each type is kept, and the monthly retention, which no operation reads. */
  datatype Policy = Policy(fullDays: int, incrementalDays: int, differentialDays: int, monthlyMonths: int)

  /** The policy used when the caller gives none (or an empty one). */
  const DefaultPolicy: Policy := Policy(7, 1, 3, 12)

  function KeepDays(p: Policy, t: BackupType): int {
    match t
    case Full => p.fullDays
    case Incremental => p.incrementalDays
    case Differential => p.differentialDays
  }

  /** The cutoff instant of type `t`: `now` minus the days that type is kept. */
  function Cutoff(p: Policy, t: BackupType, now: int): int {
    now - KeepDays(p, t) * DaySeconds
  }

  /** An entry the policy removes: a snapshot directory created strictly before its type's cutoff. */
  predicate Expired(p: Policy, k: Key, e: Entry, now: int) {
    e.Snapshot? && e.ctime < Cutoff(p, k.btype, now)
  }

  /**
   * Under the default policy an entry is removed iff it is a snapshot
   * directory more than 7 (full), 1 (incremental) or 3 (differential)
   * whole days old, counted in seconds: one exactly that old is kept.
   */
  lemma DefaultPolicyBoundaries(k: Key, e: Entry, now: int)
    ensures Expired(DefaultPolicy, k, e, now) <==>
      e.Snapshot? && now - e.ctime > (match k.btype case Full => 7 case Incremental => 1 case Differential => 3) * DaySeconds
  {
  }

  /** A snapshot older than an expired one of the same type is expired as well. */
  lemma ExpiryMonotone(p: Policy, k: Key, older: int, newer: int, files: Dir, now: int)
    requires older <= newer
    requires Expired(p, k, Snapshot(newer, files), now)
    ensures Expired(p, k, Snapshot(older, files), now)
  {
  }

  /** Keeping a type longer never removes more. */
  lemma LongerRetentionKeeps(p: Policy, q: Policy, k: Key, e: Entry, now: int)
    requires KeepDays(p, k.btype) <= KeepDays(q, k.btype)
    requires Expired(q, k, e, now)
    ensures Expired(p, k, e, now)
  {
  }

  // ---------------------------------------------------------------------
  // What a retention pass removes
  // ---------------------------------------------------------------------

  /** The entries of type `t` a pass over that type removes: expired snapshots whose removal succeeds. */
  ghost function Pruned(snaps: map<Key, Entry>, t: BackupType, cutoff: int, locked: set<Key>): set<Key> {
    set k | k in snaps && k.btype == t && snaps[k].Snapshot? && snaps[k].ctime < cutoff && k !in locked
  }

  lemma InPruned(snaps: map<Key, Entry>, t: BackupType, cutoff: int, locked: set<Key>, k: Key)
    requires k in snaps && k.btype == t
    ensures k in Pruned(snaps, t, cutoff, locked) <==> snaps[k].Snapshot? && snaps[k].ctime < cutoff && k !in locked
  {
  }

  /** The bytes held by the snapshot directories among `ks`. */
  ghost function SizeOfEntries(snaps: map<Key, Entry>, ks: set<Key>): nat {
    SumOf(EntrySizes(snaps, ks))
  }

  /** The size of each snapshot directory among `ks`. */
  ghost function EntrySizes(snaps: map<Key, Entry>, ks: set<Key>): (m: map<Key, nat>)
    ensures forall j :: j in m <==> j in ks && j in snaps && snaps[j].Snapshot?
    ensures forall j :: j in m ==> m[j] == SizeOf(snaps[j].files)
  {
    map k | k in ks && k in snaps && snaps[k].Snapshot? :: SizeOf(snaps[k].files)
  }

  /** Everything the three passes remove together. */
  ghost function Doomed(snaps: map<Key, Entry>, p: Policy, now: int, locked: set<Key>): set<Key> {
    Pruned(snaps, Full, Cutoff(p, Full, now), locked)
      + Pruned(snaps, Incremental, Cutoff(p, Incremental, now), locked)
      + Pruned(snaps, Differential, Cutoff(p, Differential, now), locked)
  }

  /** An entry is removed iff it is expired under the policy and its removal does not fail. */
  lemma DoomedIffExpired(snaps: map<Key, Entry>, p: Policy, now: int, locked: set<Key>, k: Key)
    ensures k in Doomed(snaps, p, now, locked) <==> k in snaps && Expired(p, k, snaps[k], now) && k !in locked
  {
    match k.btype
    case Full =>
    case Incremental =>
    case Differential =>
  }

  lemma SizeOfDisjoint(snaps: map<Key, Entry>, xs: set<Key>, ys: set<Key>)
    requires xs !! ys
    ensures SizeOfEntries(snaps, xs + ys) == SizeOfEntries(snaps, xs) + SizeOfEntries(snaps, ys)
  {
    assert EntrySizes(snaps, xs + ys) == EntrySizes(snaps, xs) + EntrySizes(snaps, ys);
    SumOfDisjoint(EntrySizes(snaps, xs), EntrySizes(snaps, ys));
  }

  /** Removing entries of other types changes neither what a pass over `t` removes nor their sizes. */
  lemma PrunedIgnoresOthers(snaps: map<Key, Entry>, gone: set<Key>, t: BackupType, cutoff: int, locked: set<Key>)
    requires forall k :: k in gone ==> k.btype != t
    ensures Pruned(snaps - gone, t, cutoff, locked) == Pruned(snaps, t, cutoff, locked)
    ensures SizeOfEntries(snaps - gone, Pruned(snaps, t, cutoff, locked)) == SizeOfEntries(snaps, Pruned(snaps, t, cutoff, locked))
  {
    var ks := Pruned(snaps, t, cutoff, locked);
    assert EntrySizes(snaps - gone, ks) == EntrySizes(snaps, ks);
  }

  /**
   * Running the three passes one after the other removes `Doomed`: each
   * pass sees the entries of its own type as they were before any pass.
   */
  lemma ThreePasses(s0: map<Key, Entry>, p: Policy, now: int, locked: set<Key>)
    ensures var pf := Pruned(s0, Full, Cutoff(p, Full, now), locked);
      var pi := Pruned(s0, Incremental, Cutoff(p, Incremental, now), locked);
      var pd := Pruned(s0, Differential, Cutoff(p, Differential, now), locked);
      && Pruned(s0 - pf, Incremental, Cutoff(p, Incremental, now), locked) == pi
      && SizeOfEntries(s0 - pf, pi) == SizeOfEntries(s0, pi)
      && Pruned(s0 - pf - pi, Differential, Cutoff(p, Differential, now), locked) == pd
      && SizeOfEntries(s0 - pf - pi, pd) == SizeOfEntries(s0, pd)
      && s0 - pf - pi - pd == s0 - Doomed(s0, p, now, locked)
      && SizeOfEntries(s0, pf) + SizeOfEntries(s0, pi) + SizeOfEntries(s0, pd) == SizeOfEntries(s0, Doomed(s0, p, now, locked))
  {
    var pf := Pruned(s0, Full, Cutoff(p, Full, now), locked);
    var pi := Pruned(s0, Incremental, Cutoff(p, Incremental, now), locked);
    var pd := Pruned(s0, Differential, Cutoff(p, Differential, now), locked);
    PrunedIgnoresOthers(s0, pf, Incremental, Cutoff(p, Incremental, now), locked);
    PrunedIgnoresOthers(s0, pf, Differential, Cutoff(p, Differential, now), locked);
    PrunedIgnoresOthers(s0 - pf, pi, Differential, Cutoff(p, Differential, now), locked);
    assert s0 - pf - pi - pd == s0 - (pf + pi + pd);
    SizeOfDisjoint(s0, pf, pi);
    SizeOfDisjoint(s0, pf + pi, pd);
  }

  /** The counters a retention pass reports. */
  datatype RetentionResult = RetentionResult(fullDeleted: nat, incrementalDeleted: nat, differentialDeleted: nat, freedBytes: nat)

  // ---------------------------------------------------------------------
  // Statistics
  // ---------------------------------------------------------------------

  /** The snapshot directories (not stray files) of type `t`. */
  ghost function SnapshotsOf(snaps: map<Key, Entry>, t: BackupType): set<Key> {
    set k | k in snaps && k.btype == t && snaps[k].Snapshot?
  }

  ghost function AllSnapshots(snaps: map<Key, Entry>): set<Key> {
    set k | k in snaps && snaps[k].Snapshot?
  }

  /** Every snapshot directory is counted under exactly one type. */
  lemma SnapshotsByType(snaps: map<Key, Entry>)
    ensures AllSnapshots(snaps) == SnapshotsOf(snaps, Full) + SnapshotsOf(snaps, Incremental) + SnapshotsOf(snaps, Differential)
    ensures |AllSnapshots(snaps)| == |SnapshotsOf(snaps, Full)| + |SnapshotsOf(snaps, Incremental)| + |SnapshotsOf(snaps, Differential)|
  {
    forall k | k in AllSnapshots(snaps)
      ensures k in SnapshotsOf(snaps, k.btype)
    {
    }
    assert SnapshotsOf(snaps, Full) !! SnapshotsOf(snaps, Incremental);
    assert (SnapshotsOf(snaps, Full) + SnapshotsOf(snaps, Incremental)) !! SnapshotsOf(snaps, Differential);
  }

  lemma SizeOfOne(snaps: map<Key, Entry>, k: Key)
    requires k in snaps && snaps[k].Snapshot?
    ensures SizeOfEntries(snaps, {k}) == SizeOf(snaps[k].files)
  {
    var empty: map<Key, nat> := map[];
    assert EntrySizes(snaps, {k}) == empty[k := SizeOf(snaps[k].files)];
    SumOfAdd(empty, k, SizeOf(snaps[k].files));
    assert SumOf(empty) == 0;
  }

  /** Visiting one more snapshot updates the oldest and newest marks by a minimum and a maximum. */
  lemma ExtremesStep(snaps: map<Key, Entry>, seen: set<Key>, oldest: Option<int>, newest: Option<int>, k: Key)
    requires forall j :: j in seen ==> j in snaps
    requires k in snaps
    requires IsOldest(snaps, seen, oldest) && IsNewest(snaps, seen, newest)
    ensures IsOldest(snaps, seen + {k}, Some(Min(oldest, snaps[k].Ctime())))
    ensures IsNewest(snaps, seen + {k}, Some(Max(newest, snaps[k].Ctime())))
  {
    var c := snaps[k].Ctime();
    if oldest.Some? && oldest.value <= c {
      var j :| j in seen && snaps[j].Ctime() == oldest.value;
      assert j in seen + {k};
    } else {
      assert k in seen + {k};
    }
    if newest.Some? && c <= newest.value {
      var j :| j in seen && snaps[j].Ctime() == newest.value;
      assert j in seen + {k};
    } else {
      assert k in seen + {k};
    }
  }

  /** The statistics: counts per type, their total, the total size, and the oldest and newest creation times. */
  datatype Stats = Stats(total: nat, full: nat, incremental: nat, differential: nat, totalBytes: nat,
                         oldest: Option<int>, newest: Option<int>)

  /** What the statistics loop holds as its oldest/newest marks: nothing yet, or the ISO text of an instant. */
  datatype Mark = Unset | IsoText(seconds: int)

  datatype StatsError = CompareTimeWithText

  /** `oldest` is the least creation time among `ks`, or None when `ks` holds no snapshot. */
  ghost predicate IsOldest(snaps: map<Key, Entry>, ks: set<Key>, oldest: Option<int>)
    requires forall k :: k in ks ==> k in snaps
  {
    && (oldest.None? <==> ks == {})
    && (oldest.Some? ==>
          (exists k :: k in ks && snaps[k].Ctime() == oldest.value)
          && (forall k :: k in ks ==> oldest.value <= snaps[k].Ctime()))
  }

  ghost predicate IsNewest(snaps: map<Key, Entry>, ks: set<Key>, newest: Option<int>)
    requires forall k :: k in ks ==> k in snaps
  {
    && (newest.None? <==> ks == {})
    && (newest.Some? ==>
          (exists k :: k in ks && snaps[k].Ctime() == newest.value)
          && (forall k :: k in ks ==> snaps[k].Ctime() <= newest.value))
  }

  /** One snapshot directory of type `t`, created at `ctime` and holding `size` bytes, counted in. */
  function Count(st: Stats, t: BackupType, ctime: int, size: nat): Stats {
    Stats(st.total + 1,
          st.full + (if t == Full then 1 else 0),
          st.incremental + (if t == Incremental then 1 else 0),
          st.differential + (if t == Differential then 1 else 0),
          st.totalBytes + size,
          Some(Min(st.oldest, ctime)),
          Some(Max(st.newest, ctime)))
  }

  /**
   * The statistics loop's invariant: `seen` holds the snapshot directories
   * visited so far, `full`, `inc` and `diff` split them by type, and `st`
   * counts and measures exactly those.
   */
  ghost predicate Counted(snaps: map<Key, Entry>, todo: set<Key>, seen: set<Key>,
                          full: set<Key>, inc: set<Key>, diff: set<Key>, st: Stats) {
    && todo <= snaps.Keys
    && (forall j :: j in seen <==> j in AllSnapshots(snaps) && j !in todo)
    && (forall j :: j in full <==> j in seen && j.btype == Full)
    && (forall j :: j in inc <==> j in seen && j.btype == Incremental)
    && (forall j :: j in diff <==> j in seen && j.btype == Differential)
    && st.full == |full| && st.incremental == |inc| && st.differential == |diff|
    && st.total == st.full + st.incremental + st.differential
    && st.totalBytes == SizeOfEntries(snaps, seen)
    && IsOldest(snaps, seen, st.oldest) && IsNewest(snaps, seen, st.newest)
  }

  /** The visited set of one type grows by `k` exactly when `k` has that type. */
  function Grow(s: set<Key>, t: BackupType, k: Key): set<Key> {
    if k.btype == t then s + {k} else s
  }

  lemma GrowStep(s: set<Key>, seen: set<Key>, t: BackupType, k: Key, n: nat)
    requires forall j :: j in s <==> j in seen && j.btype == t
    requires k !in seen && n == |s|
    ensures forall j :: j in Grow(s, t, k) <==> j in seen + {k} && j.btype == t
    ensures |Grow(s, t, k)| == n + (if k.btype == t then 1 else 0)
  {
    if k.btype == t {
      AddFresh(s, k);
    }
  }

  lemma CountStep(snaps: map<Key, Entry>, todo: set<Key>, seen: set<Key>, full: set<Key>, inc: set<Key>, diff: set<Key>,
                  st: Stats, k: Key)
    requires Counted(snaps, todo, seen, full, inc, diff, st) && k in todo && snaps[k].Snapshot?
    ensures Counted(snaps, todo - {k}, seen + {k}, Grow(full, Full, k), Grow(inc, Incremental, k), Grow(diff, Differential, k),
                    Count(st, k.btype, snaps[k].ctime, SizeOf(snaps[k].files)))
  {
    SplitStep(snaps, todo, seen, full, inc, diff, st, k);
    MeasureStep(snaps, seen, st, k);
    var st' := Count(st, k.btype, snaps[k].ctime, SizeOf(snaps[k].files));
    assert st'.total == st'.full + st'.incremental + st'.differential;
    CountedIntro(snaps, todo - {k}, seen + {k}, Grow(full, Full, k), Grow(inc, Incremental, k), Grow(diff, Differential, k), st');
  }

  lemma CountedIntro(snaps: map<Key, Entry>, todo: set<Key>, seen: set<Key>,
                     full: set<Key>, inc: set<Key>, diff: set<Key>, st: Stats)
    requires todo <= snaps.Keys
    requires forall j :: j in seen <==> j in AllSnapshots(snaps) && j !in todo
    requires forall j :: j in full <==> j in seen && j.btype == Full
    requires forall j :: j in inc <==> j in seen && j.btype == Incremental
    requires forall j :: j in diff <==> j in seen && j.btype == Differential
    requires st.full == |full| && st.incremental == |inc| && st.differential == |diff|
    requires st.total == st.full + st.incremental + st.differential
    requires st.totalBytes == SizeOfEntries(snaps, seen)
    requires IsOldest(snaps, seen, st.oldest) && IsNewest(snaps, seen, st.newest)
    ensures Counted(snaps, todo, seen, full, inc, diff, st)
  {
  }

  /** Visiting one more snapshot directory moves it from `todo` to `seen` and to the set of its type. */
  lemma SplitStep(snaps: map<Key, Entry>, todo: set<Key>, seen: set<Key>, full: set<Key>, inc: set<Key>, diff: set<Key>,
                  st: Stats, k: Key)
    requires Counted(snaps, todo, seen, full, inc, diff, st) && k in todo && snaps[k].Snapshot?
    ensures k !in seen && forall j :: j in seen ==> j in snaps
    ensures todo - {k} <= snaps.Keys && st.total == st.full + st.incremental + st.differential
    ensures st.totalBytes == SizeOfEntries(snaps, seen)
    ensures IsOldest(snaps, seen, st.oldest) && IsNewest(snaps, seen, st.newest)
    ensures forall j :: j in seen + {k} <==> j in AllSnapshots(snaps) && j !in todo - {k}
    ensures forall j :: j in Grow(full, Full, k) <==> j in seen + {k} && j.btype == Full
    ensures forall j :: j in Grow(inc, Incremental, k) <==> j in seen + {k} && j.btype == Incremental
    ensures forall j :: j in Grow(diff, Differential, k) <==> j in seen + {k} && j.btype == Differential
    ensures |Grow(full, Full, k)| == st.full + (if k.btype == Full then 1 else 0)
    ensures |Grow(inc, Incremental, k)| == st.incremental + (if k.btype == Incremental then 1 else 0)
    ensures |Grow(diff, Differential, k)| == st.differential + (if k.btype == Differential then 1 else 0)
  {
    assert k !in seen;
    GrowStep(full, seen, Full, k, st.full);
    GrowStep(inc, seen, Incremental, k, st.incremental);
    GrowStep(diff, seen, Differential, k, st.differential);
  }

  /** Counting one more snapshot directory adds its size and moves the oldest and newest marks. */
  lemma MeasureStep(snaps: map<Key, Entry>, seen: set<Key>, st: Stats, k: Key)
    requires forall j :: j in seen ==> j in snaps
    requires k in snaps && snaps[k].Snapshot? && k !in seen
    requires st.totalBytes == SizeOfEntries(snaps, seen)
    requires IsOldest(snaps, seen, st.oldest) && IsNewest(snaps, seen, st.newest)
    ensures var st' := Count(st, k.btype, snaps[k].ctime, SizeOf(snaps[k].files));
      && st'.totalBytes == SizeOfEntries(snaps, seen + {k})
      && IsOldest(snaps, seen + {k}, st'.oldest)
      && IsNewest(snaps, seen + {k}, st'.newest)
  {
    SizeOfDisjoint(snaps, seen, {k});
    SizeOfOne(snaps, k);
    ExtremesStep(snaps, seen, st.oldest, st.newest, k);
  }

  lemma SkipStep(snaps: map<Key, Entry>, todo: set<Key>, seen: set<Key>, full: set<Key>, inc: set<Key>, diff: set<Key>,
                 st: Stats, k: Key)
    requires Counted(snaps, todo, seen, full, inc, diff, st) && k in todo && !snaps[k].Snapshot?
    ensures Counted(snaps, todo - {k}, seen, full, inc, diff, st)
  {
  }

  lemma CountDone(snaps: map<Key, Entry>, seen: set<Key>, full: set<Key>, inc: set<Key>, diff: set<Key>, st: Stats)
    requires Counted(snaps, {}, seen, full, inc, diff, st)
    ensures st.full == |SnapshotsOf(snaps, Full)|
    ensures st.incremental == |SnapshotsOf(snaps, Incremental)|
    ensures st.differential == |SnapshotsOf(snaps, Differential)|
    ensures st.total == st.full + st.incremental + st.differential == |AllSnapshots(snaps)|
    ensures st.totalBytes == SizeOfEntries(snaps, AllSnapshots(snaps))
    ensures IsOldest(snaps, AllSnapshots(snaps), st.oldest)
    ensures IsNewest(snaps, AllSnapshots(snaps), st.newest)
  {
    assert seen == AllSnapshots(snaps);
    assert full == SnapshotsOf(snaps, Full);
    assert inc == SnapshotsOf(snaps, Incremental);
    assert diff == SnapshotsOf(snaps, Differential);
    SnapshotsByType(snaps);
  }

  function Min(a: Option<int>, c: int): int {
    if a.Some? && a.value <= c then a.value else c
  }

  function Max(a: Option<int>, c: int): int {
    if a.Some? && c <= a.value then a.value else c
  }

  // ---------------------------------------------------------------------
  // String order and sorted id lists
  // ---------------------------------------------------------------------

  /** Python's `<` on strings: code point by code point, a proper prefix first. */
  predicate Below(a: string, b: string)
    decreases |a|
  {
    |b| > 0 && (|a| == 0 || a[0] < b[0] || (a[0] == b[0] && Below(a[1..], b[1..])))
  }

  lemma {:induction false} BelowIrreflexive(a: string)
    ensures !Below(a, a)
    decreases |a|
  {
    if |a| > 0 {
      BelowIrreflexive(a[1..]);
    }
  }

  lemma {:induction false} BelowTransitive(a: string, b: string, c: string)
    requires Below(a, b) && Below(b, c)
    ensures Below(a, c)
    decreases |a|
  {
    if |a| > 0 && a[0] == b[0] && b[0] == c[0] {
      BelowTransitive(a[1..], b[1..], c[1..]);
    }
  }

  lemma {:induction false} BelowTotal(a: string, b: string)
    requires a != b
    ensures Below(a, b) || Below(b, a)
    decreases |a|
  {
    if |a| > 0 && |b| > 0 && a[0] == b[0] {
      assert a == [a[0]] + a[1..] && b == [b[0]] + b[1..];
      BelowTotal(a[1..], b[1..]);
    }
  }

  /** Strictly ascending in Python's string order (listing names are distinct). */
  predicate Ascending(ids: seq<string>) {
    forall i, j :: 0 <= i < j < |ids| ==> Below(ids[i], ids[j])
  }

  /** There is exactly one ascending listing of a set of names. */
  lemma {:induction false} AscendingUnique(a: seq<string>, b: seq<string>)
    requires Ascending(a) && Ascending(b)
    requires forall x :: x in a <==> x in b
    ensures a == b
    decreases |a|
  {
    if a == [] {
      FirstIsMember(b);
    } else {
      assert a[0] in a;
      assert b != [];
      assert b[0] in b;
      if a[0] != b[0] {
        var i :| 0 <= i < |b| && b[i] == a[0];
        var j :| 0 <= j < |a| && a[j] == b[0];
        assert Below(b[0], a[0]) && Below(a[0], b[0]);
        BelowTransitive(a[0], b[0], a[0]);
        BelowIrreflexive(a[0]);
        assert false;
      }
      forall x
        ensures x in a[1..] <==> x in b[1..]
      {
        if x in a[1..] {
          var j :| 1 <= j < |a| && a[j] == x;
          BelowIrreflexive(a[0]);
          assert x in b && x != b[0];
          var i :| 0 <= i < |b| && b[i] == x;
          assert x in b[1..] by { assert b[1..][i - 1] == x; }
        }
        if x in b[1..] {
          var j :| 1 <= j < |b| && b[j] == x;
          BelowIrreflexive(b[0]);
          assert x in a && x != a[0];
          var i :| 0 <= i < |a| && a[i] == x;
          assert x in a[1..] by { assert a[1..][i - 1] == x; }
        }
      }
      AscendingUnique(a[1..], b[1..]);
      assert a == [a[0]] + a[1..] && b == [b[0]] + b[1..];
    }
  }

  lemma FirstIsMember<T>(b: seq<T>)
    ensures b != [] ==> b[0] in b
  {
  }

  /** Inserts a new name at its place in an ascending listing. */
  method InsertName(ids: seq<string>, x: string) returns (r: seq<string>)
    requires Ascending(ids) && x !in ids
    ensures Ascending(r)
    ensures forall y :: y in r <==> y in ids || y == x
  {
    var i := 0;
    while i < |ids| && Below(ids[i], x)
      invariant 0 <= i <= |ids|
      invariant forall j :: 0 <= j < i ==> Below(ids[j], x)
    {
      i := i + 1;
    }
    if i < |ids| {
      assert ids[i] in ids;
      BelowTotal(ids[i], x);
      forall j | i <= j < |ids|
        ensures Below(x, ids[j])
      {
        if j > i {
          BelowTransitive(x, ids[i], ids[j]);
        }
      }
    }
    r := ids[..i] + [x] + ids[i..];
    forall a, b | 0 <= a < b < |r|
      ensures Below(r[a], r[b])
    {
      if a < i && b > i {
        assert r[a] == ids[a] && r[b] == ids[b - 1];
      } else if a > i {
        assert r[a] == ids[a - 1] && r[b] == ids[b - 1];
      }
    }
    assert ids == ids[..i] + ids[i..];
  }

  /** `sorted(...)` of the names listed in a directory. */
  method SortNames(names: set<string>) returns (ids: seq<string>)
    ensures Ascending(ids)
    ensures forall y :: y in ids <==> y in names
  {
    ids := [];
    var todo := names;
    while todo != {}
      invariant todo <= names
      invariant Ascending(ids)
      invariant forall y :: y in ids <==> y in names && y !in todo
      decreases |todo|
    {
      var x :| x in todo;
      todo := todo - {x};
      ids := InsertName(ids, x);
    }
  }

  // ---------------------------------------------------------------------
  // The backup chain
  // ---------------------------------------------------------------------

  /** One chain element: id, type and creation time. */
  datatype Link = Link(id: string, btype: BackupType, timestamp: int)

  function IdsOf(part: seq<Link>): (ids: seq<string>)
    ensures |ids| == |part|
    ensures forall j :: 0 <= j < |part| ==> ids[j] == part[j].id
  {
    if part == [] then [] else IdsOf(part[..|part| - 1]) + [part[|part| - 1].id]
  }

  /**
   * The segment of the chain for type `t`: every entry of that type (a
   * snapshot or a stray file) created strictly after `after`, ascending
   * by id, each with its own creation time.
   */
  ghost predicate IsSegment(part: seq<Link>, snaps: map<Key, Entry>, t: BackupType, after: int) {
    && (forall j :: 0 <= j < |part| ==>
          part[j].btype == t && Key(t, part[j].id) in snaps
          && part[j].timestamp == snaps[Key(t, part[j].id)].Ctime())
    && Ascending(IdsOf(part))
    && (forall x :: x in IdsOf(part) <==> Key(t, x) in snaps && snaps[Key(t, x)].Ctime() > after)
  }

  /** A segment is determined by the entries: there is only one. */
  lemma SegmentUnique(p: seq<Link>, q: seq<Link>, snaps: map<Key, Entry>, t: BackupType, after: int)
    requires IsSegment(p, snaps, t, after) && IsSegment(q, snaps, t, after)
    ensures p == q
  {
    AscendingUnique(IdsOf(p), IdsOf(q));
    assert |p| == |q|;
    forall j | 0 <= j < |p|
      ensures p[j] == q[j]
    {
      assert p[j].id == IdsOf(p)[j] == IdsOf(q)[j] == q[j].id;
    }
  }

  /**
   * The chain loop's invariant over the ascending listing `ids` of type
   * `t`: `part` holds, in order, the entries among the first `i` names
   * created after `after`, each below every name still to come.
   */
  ghost predicate SegmentSoFar(part: seq<Link>, snaps: map<Key, Entry>, t: BackupType, after: int, ids: seq<string>, i: nat)
    requires i <= |ids|
  {
    && (forall j :: 0 <= j < |part| ==>
          part[j].btype == t && Key(t, part[j].id) in snaps
          && part[j].timestamp == snaps[Key(t, part[j].id)].Ctime())
    && (forall j, m :: 0 <= j < |part| && i <= m < |ids| ==> Below(part[j].id, ids[m]))
    && Ascending(IdsOf(part))
    && (forall x :: x in IdsOf(part) <==> x in ids[..i] && Key(t, x) in snaps && snaps[Key(t, x)].Ctime() > after)
  }

  /** An entry of the listing created after `after` is appended. */
  lemma SegmentAppend(part: seq<Link>, snaps: map<Key, Entry>, t: BackupType, after: int, ids: seq<string>, i: nat)
    requires i < |ids| && Ascending(ids) && Key(t, ids[i]) in snaps
    requires snaps[Key(t, ids[i])].Ctime() > after
    requires SegmentSoFar(part, snaps, t, after, ids, i)
    ensures SegmentSoFar(part + [Link(ids[i], t, snaps[Key(t, ids[i])].Ctime())], snaps, t, after, ids, i + 1)
  {
    var part' := part + [Link(ids[i], t, snaps[Key(t, ids[i])].Ctime())];
    assert forall j :: 0 <= j < |part| ==> part'[j] == part[j];
    assert IdsOf(part') == IdsOf(part) + [ids[i]] by {
      assert part'[..|part|] == part;
    }
    assert Ascending(IdsOf(part')) by {
      forall j | 0 <= j < |IdsOf(part)|
        ensures Below(IdsOf(part)[j], ids[i])
      {
        assert IdsOf(part)[j] == part[j].id;
      }
      AscendingAppend(IdsOf(part), ids[i]);
    }
    forall j, m | 0 <= j < |part'| && i + 1 <= m < |ids|
      ensures Below(part'[j].id, ids[m])
    {
      if j == |part| {
        assert part'[j].id == ids[i];
      }
    }
    assert ids[..i + 1] == ids[..i] + [ids[i]];
  }

  lemma AscendingAppend(s: seq<string>, x: string)
    requires Ascending(s) && forall j :: 0 <= j < |s| ==> Below(s[j], x)
    ensures Ascending(s + [x])
  {
  }

  /** An entry of the listing created at or before `after` is passed over. */
  lemma SegmentSkip(part: seq<Link>, snaps: map<Key, Entry>, t: BackupType, after: int, ids: seq<string>, i: nat)
    requires i < |ids| && Key(t, ids[i]) in snaps
    requires snaps[Key(t, ids[i])].Ctime() <= after
    requires SegmentSoFar(part, snaps, t, after, ids, i)
    ensures SegmentSoFar(part, snaps, t, after, ids, i + 1)
  {
    assert ids[..i + 1] == ids[..i] + [ids[i]];
  }

  lemma SegmentDone(part: seq<Link>, snaps: map<Key, Entry>, t: BackupType, after: int, ids: seq<string>)
    requires SegmentSoFar(part, snaps, t, after, ids, |ids|)
    requires forall y :: y in ids <==> y in (set k | k in snaps && k.btype == t :: k.id)
    ensures IsSegment(part, snaps, t, after)
  {
    assert ids[..|ids|] == ids;
    forall x | Key(t, x) in snaps
      ensures x in ids
    {
      assert x in (set k | k in snaps && k.btype == t :: k.id) by {
        var k := Key(t, x);
        assert k in snaps && k.btype == t && k.id == x;
      }
    }
  }

  /** After the full entry: the incremental segment, then the differential one. */
  ghost predicate ChainTail(rest: seq<Link>, snaps: map<Key, Entry>, after: int) {
    exists m :: 0 <= m <= |rest| && IsSegment(rest[..m], snaps, Incremental, after) && IsSegment(rest[m..], snaps, Differential, after)
  }

  /** The chain after the full entry is fully determined by the backup root. */
  lemma ChainTailUnique(r: seq<Link>, s: seq<Link>, snaps: map<Key, Entry>, after: int)
    requires ChainTail(r, snaps, after) && ChainTail(s, snaps, after)
    ensures r == s
  {
    var m :| 0 <= m <= |r| && IsSegment(r[..m], snaps, Incremental, after) && IsSegment(r[m..], snaps, Differential, after);
    var n :| 0 <= n <= |s| && IsSegment(s[..n], snaps, Incremental, after) && IsSegment(s[n..], snaps, Differential, after);
    SegmentUnique(r[..m], s[..n], snaps, Incremental, after);
    SegmentUnique(r[m..], s[n..], snaps, Differential, after);
    JoinEqual(r, s, m, n);
  }

  lemma JoinEqual<T>(r: seq<T>, s: seq<T>, m: nat, n: nat)
    requires m <= |r| && n <= |s| && r[..m] == s[..n] && r[m..] == s[n..]
    ensures r == s
  {
    assert r == r[..m] + r[m..] && s == s[..n] + s[n..];
  }

  // ---------------------------------------------------------------------
  // The manager
  // ---------------------------------------------------------------------

  class VersionManager {
    const disk: Disk
    const policy: Policy

    /** A missing (or empty) policy falls back to the defaults. */
    constructor (disk: Disk, policy: Option<Policy>)
      ensures this.disk == disk
      ensures this.policy == if policy.Some? then policy.value else DefaultPolicy
    {
      this.disk := disk;
      this.policy := if policy.Some? then policy.value else DefaultPolicy;
    }

    /** `_get_directory_size`: the sum of the sizes of all files beneath a directory. */
    static method DirectorySize(d: Dir) returns (total: nat)
      ensures total == SizeOf(d)
    {
      total := 0;
      var todo := d.Keys;
      while todo != {}
        invariant todo <= d.Keys
        invariant total == SumOf(map p | p in d.Keys - todo :: d[p].size)
        decreases |todo|
      {
        var p :| p in todo;
        ghost var before := map q | q in d.Keys - todo :: d[q].size;
        todo := todo - {p};
        assert (map q | q in d.Keys - todo :: d[q].size) == before[p := d[p].size];
        SumOfAdd(before, p, d[p].size);
        total := total + d[p].size;
      }
      assert (map p | p in d.Keys - todo :: d[p].size) == (map p | p in d :: d[p].size);
    }

    /**
     * One type's pass of `apply_retention_policy`: every snapshot directory
     * of type `t` created before `cutoff` is measured and removed; stray
     * files are skipped, and a removal that fails (a key in `locked`)
     * leaves the entry and both counters as they were.
     */
    method PruneType(t: BackupType, cutoff: int, locked: set<Key>) returns (deleted: nat, freed: nat)
      modifies disk
      ensures disk.trees == old(disk.trees) && disk.history == old(disk.history)
      ensures disk.snapshots == old(disk.snapshots) - Pruned(old(disk.snapshots), t, cutoff, locked)
      ensures deleted == |Pruned(old(disk.snapshots), t, cutoff, locked)|
      ensures freed == SizeOfEntries(old(disk.snapshots), Pruned(old(disk.snapshots), t, cutoff, locked))
    {
      ghost var snaps := disk.snapshots;
      ghost var pruned := Pruned(snaps, t, cutoff, locked);
      ghost var removed: set<Key> := {};
      deleted, freed := 0, 0;
      var todo := set k | k in disk.snapshots && k.btype == t;
      while todo != {}
        invariant disk.trees == old(disk.trees) && disk.history == old(disk.history)
        invariant todo <= snaps.Keys
        invariant forall j :: j in todo ==> j.btype == t
        invariant forall j :: j in removed <==> j in pruned && j !in todo
        invariant disk.snapshots == snaps - removed
        invariant deleted == |removed|
        invariant freed == SizeOfEntries(snaps, removed)
        decreases |todo|
      {
        var k :| k in todo;
        InPruned(snaps, t, cutoff, locked, k);
        var e := disk.snapshots[k];
        if e.Snapshot? && e.ctime < cutoff {
          var size := DirectorySize(e.files);
          if k !in locked {
            PruneStep(snaps, removed, k);
            disk.snapshots := disk.snapshots - {k};
            removed := removed + {k};
            deleted := deleted + 1;
            freed := freed + size;
          }
        }
        todo := todo - {k};
      }
      assert removed == pruned;
    }

    /**
     * `apply_retention_policy`: the full, incremental and differential
     * passes in that order, each against its own cutoff, reporting the
     * removals per type and the bytes freed by all of them.
     */
    method ApplyRetentionPolicy(now: int, locked: set<Key>) returns (res: RetentionResult)
      modifies disk
      ensures disk.trees == old(disk.trees) && disk.history == old(disk.history)
      ensures disk.snapshots == old(disk.snapshots) - Doomed(old(disk.snapshots), policy, now, locked)
      ensures res.fullDeleted == |Pruned(old(disk.snapshots), Full, Cutoff(policy, Full, now), locked)|
      ensures res.incrementalDeleted == |Pruned(old(disk.snapshots), Incremental, Cutoff(policy, Incremental, now), locked)|
      ensures res.differentialDeleted == |Pruned(old(disk.snapshots), Differential, Cutoff(policy, Differential, now), locked)|
      ensures res.freedBytes == SizeOfEntries(old(disk.snapshots), Doomed(old(disk.snapshots), policy, now, locked))
    {
      ThreePasses(disk.snapshots, policy, now, locked);
      var fullDeleted, fullFreed := PruneType(Full, Cutoff(policy, Full, now), locked);
      var incDeleted, incFreed := PruneType(Incremental, Cutoff(policy, Incremental, now), locked);
      var diffDeleted, diffFreed := PruneType(Differential, Cutoff(policy, Differential, now), locked);
      res := RetentionResult(fullDeleted, incDeleted, diffDeleted, fullFreed + incFreed + diffFreed);
    }

    /**
     * `get_version_statistics`, counts and sizes, with the oldest and
     * newest creation times tracked as instants: every snapshot directory
     * is counted under its type and measured; stray files are skipped.
     */
    method GetVersionStatistics() returns (st: Stats)
      ensures st.full == |SnapshotsOf(disk.snapshots, Full)|
      ensures st.incremental == |SnapshotsOf(disk.snapshots, Incremental)|
      ensures st.differential == |SnapshotsOf(disk.snapshots, Differential)|
      ensures st.total == st.full + st.incremental + st.differential == |AllSnapshots(disk.snapshots)|
      ensures st.totalBytes == SizeOfEntries(disk.snapshots, AllSnapshots(disk.snapshots))
      ensures IsOldest(disk.snapshots, AllSnapshots(disk.snapshots), st.oldest)
      ensures IsNewest(disk.snapshots, AllSnapshots(disk.snapshots), st.newest)
    {
      var snaps := disk.snapshots;
      ghost var seen: set<Key> := {};
      ghost var full, inc, diff: set<Key> := {}, {}, {};
      st := Stats(0, 0, 0, 0, 0, None, None);
      var todo := snaps.Keys;
      while todo != {}
        invariant Counted(snaps, todo, seen, full, inc, diff, st)
        decreases |todo|
      {
        var k :| k in todo;
        var e := snaps[k];
        if e.Snapshot? {
          var size := DirectorySize(e.files);
          CountStep(snaps, todo, seen, full, inc, diff, st, k);
          seen, full, inc, diff := seen + {k}, Grow(full, Full, k), Grow(inc, Incremental, k), Grow(diff, Differential, k);
          st := Count(st, k.btype, e.ctime, size);
        } else {
          SkipStep(snaps, todo, seen, full, inc, diff, st, k);
        }
        todo := todo - {k};
      }
      CountDone(snaps, seen, full, inc, diff, st);
    }

    /**
     * `get_version_statistics` as written: the first snapshot directory
     * stores the ISO text of its creation time as both marks, and the
     * next one compares its creation time (an instant) with that text,
     * which raises; so the call fails exactly when there are two or more
     * snapshot directories.
     */
    method GetVersionStatisticsAsWritten() returns (r: Result<nat, StatsError>)
      ensures r.Err? <==> |AllSnapshots(disk.snapshots)| >= 2
      ensures r.Ok? ==> r.value == |AllSnapshots(disk.snapshots)|
    {
      var snaps := disk.snapshots;
      ghost var seen: set<Key> := {};
      var total := 0;
      var oldest: Mark := Unset;
      var todo := snaps.Keys;
      while todo != {}
        invariant todo <= snaps.Keys
        invariant seen == AllSnapshots(snaps) - todo
        invariant total == |seen| <= 1
        invariant oldest.Unset? <==> seen == {}
        decreases |todo|
      {
        var k :| k in todo;
        todo := todo - {k};
        var e := snaps[k];
        if e.Snapshot? {
          if oldest.IsoText? {
            assert seen + {k} <= AllSnapshots(snaps) && k !in seen;
            assert |seen + {k}| == 2;
            SubsetCardinality(seen + {k}, AllSnapshots(snaps));
            return Err(CompareTimeWithText);
          }
          total := total + 1;
          oldest := IsoText(e.ctime);
          seen := seen + {k};
        }
      }
      r := Ok(total);
    }

    /**
     * `get_backup_chain`'s loop over one type: the listing sorted by name,
     * each entry created after `after` appended with its creation time.
     * Entries are not checked to be directories.
     */
    method ChainSegment(t: BackupType, after: int) returns (part: seq<Link>)
      ensures IsSegment(part, disk.snapshots, t, after)
    {
      var snaps := disk.snapshots;
      var ids := SortNames(set k | k in snaps && k.btype == t :: k.id);
      part := [];
      var i := 0;
      while i < |ids|
        invariant 0 <= i <= |ids|
        invariant SegmentSoFar(part, snaps, t, after, ids, i)
      {
        var id := ids[i];
        assert id in ids;
        assert Key(t, id) in snaps;
        var c := snaps[Key(t, id)].Ctime();
        if c > after {
          SegmentAppend(part, snaps, t, after, ids, i);
          part := part + [Link(id, t, c)];
        } else {
          SegmentSkip(part, snaps, t, after, ids, i);
        }
        i := i + 1;
      }
      SegmentDone(part, snaps, t, after, ids);
    }

    /**
     * `get_backup_chain`: empty when the full entry is missing; otherwise
     * the full entry first, then the incremental and differential segments
     * of entries created strictly after it.
     */
    method GetBackupChain(fullId: string) returns (chain: seq<Link>)
      ensures Key(Full, fullId) !in disk.snapshots ==> chain == []
      ensures Key(Full, fullId) in disk.snapshots ==>
        var after := disk.snapshots[Key(Full, fullId)].Ctime();
        && |chain| >= 1
        && chain[0] == Link(fullId, Full, after)
        && ChainTail(chain[1..], disk.snapshots, after)
    {
      if Key(Full, fullId) !in disk.snapshots {
        return [];
      }
      var after := disk.snapshots[Key(Full, fullId)].Ctime();
      var inc := ChainSegment(Incremental, after);
      var diff := ChainSegment(Differential, after);
      chain := [Link(fullId, Full, after)] + inc + diff;
      assert chain[1..][..|inc|] == inc && chain[1..][|inc|..] == diff;
    }
  }

  /** One removal of the pruning loop: the removed entries grow by `k`. */
  lemma PruneStep(snaps: map<Key, Entry>, removed: set<Key>, k: Key)
    requires k !in removed
    requires k in snaps && snaps[k].Snapshot?
    ensures |removed + {k}| == |removed| + 1
    ensures SizeOfEntries(snaps, removed + {k}) == SizeOfEntries(snaps, removed) + SizeOf(snaps[k].files)
    ensures (snaps - removed) - {k} == snaps - (removed + {k})
  {
    AddFresh(removed, k);
    SizeOfDisjoint(snaps, removed, {k});
    SizeOfOne(snaps, k);
    RemoveOneMore(snaps, removed, k);
  }

  lemma AddFresh<T>(s: set<T>, k: T)
    requires k !in s
    ensures |s + {k}| == |s| + 1
  {
  }
}
