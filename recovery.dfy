/**
 * Disaster recovery: locating a snapshot by id, restoring it into a
 * destination directory with per-file retries, overlaying a chain of
 * increments on a full restore, recovery drills, and the recovery point
 * and recovery time metrics derived from the history document.
 */
module Recovery {
  import opened Fs
  import opened Integrity
  import Engine

  // ---------------------------------------------------------------------
  // Locating a snapshot
  // ---------------------------------------------------------------------

  /**
   * `_find_backup_path`: probes the full, incremental and differential
   * directories in that order; anything that exists at `<type>/<id>` is
   * returned, a stray non-directory included.
   */
  function FindBackup(snaps: map<Key, Entry>, id: string): (r: Option<BackupType>)
    ensures r.Some? ==> Key(r.value, id) in snaps
    ensures r == Some(Incremental) ==> Key(Full, id) !in snaps
    ensures r == Some(Differential) ==> Key(Full, id) !in snaps && Key(Incremental, id) !in snaps
  {
    if Key(Full, id) in snaps then Some(Full)
    else if Key(Incremental, id) in snaps then Some(Incremental)
    else if Key(Differential, id) in snaps then Some(Differential)
    else None
  }

  /** Nothing is found exactly when no type directory holds the id. */
  lemma FindBackupNone(snaps: map<Key, Entry>, id: string)
    ensures FindBackup(snaps, id).None? <==> forall t: BackupType :: Key(t, id) !in snaps
  {
    if FindBackup(snaps, id).None? {
      forall t: BackupType ensures Key(t, id) !in snaps {
        BackupTypeCases(t);
      }
    }
  }

  lemma BackupTypeCases(t: BackupType)
    ensures t == Full || t == Incremental || t == Differential
  {
  }

  /** The files `os.walk` finds under an entry: none under a stray non-directory. */
  function EntryFiles(e: Entry): Dir {
    match e
    case Snapshot(_, files) => files
    case Stray(_) => map[]
  }

  /** The files of the snapshot an id resolves to (none when it resolves to nothing). */
  function FilesOf(snaps: map<Key, Entry>, id: string): Dir {
    match FindBackup(snaps, id)
    case None => map[]
    case Some(t) => EntryFiles(snaps[Key(t, id)])
  }

  // ---------------------------------------------------------------------
  // Restoring one snapshot
  // ---------------------------------------------------------------------

  /** Copy attempts per file. */
  const MaxAttempts: nat := 3

  /**
   * The copy faults of the environment: `faults(p, k)` says whether attempt
   * `k` (from 0) to copy the file at `p` raises for a transient reason.
   */
  type Faults = (Path, nat) -> bool

  /** Some attempt out of three succeeds: the file is readable and not every attempt faults. */
  predicate CopySucceeds(f: FileRec, p: Path, faults: Faults) {
    Readable(f.content) && exists k :: 0 <= k < MaxAttempts && !faults(p, k)
  }

  /** Files named `MANIFEST.json`, in any directory, are not restored. */
  predicate Restorable(p: Path) {
    BaseName(p) != ManifestName
  }

  /** The destination tree a restore leaves: every restorable file whose copy succeeded. */
  function RestoredTree(files: Dir, faults: Faults, now: int): Dir
  {
    map p | p in files && Restorable(p) && CopySucceeds(files[p], p, faults) :: Copied(files[p], now)
  }

  /** The files a restore reports as failed after the last attempt. */
  function RestoreErrors(files: Dir, faults: Faults): set<Path>
  {
    set p | p in files && Restorable(p) && !CopySucceeds(files[p], p, faults)
  }

  /** A restored file is always readable, so verifying a restored tree never raises. */
  lemma RestoredReadable(files: Dir, faults: Faults, now: int)
    ensures AllReadable(RestoredTree(files, faults, now))
  {
  }

  /** Every restorable file is either restored or reported, never both. */
  lemma RestorePartitions(files: Dir, faults: Faults, now: int)
    ensures RestoredTree(files, faults, now).Keys !! RestoreErrors(files, faults)
    ensures RestoredTree(files, faults, now).Keys + RestoreErrors(files, faults) == set p | p in files && Restorable(p)
    ensures |RestoredTree(files, faults, now)| + |RestoreErrors(files, faults)| == |set p | p in files && Restorable(p)|
  {
    var r := RestoredTree(files, faults, now).Keys;
    var e := RestoreErrors(files, faults);
    assert r + e == set p | p in files && Restorable(p);
    DisjointUnionCardinality(r, e);
  }

  /**
   * The retry loop around one `copy2`: up to three attempts, stopping at
   * the first that succeeds. `attempts` is the number of attempts made.
   */
  method CopyWithRetry(f: FileRec, p: Path, faults: Faults) returns (ok: bool, attempts: nat)
    ensures 1 <= attempts <= MaxAttempts
    ensures ok <==> CopySucceeds(f, p, faults)
    ensures ok ==> !faults(p, attempts - 1) && forall k :: 0 <= k < attempts - 1 ==> faults(p, k)
    ensures !ok ==> attempts == MaxAttempts
  {
    var retry := 0;
    while retry < MaxAttempts
      invariant 0 <= retry <= MaxAttempts
      invariant forall k :: 0 <= k < retry ==> !Readable(f.content) || faults(p, k)
    {
      if Readable(f.content) && !faults(p, retry) {
        return true, retry + 1;
      }
      retry := retry + 1;
    }
    return false, MaxAttempts;
  }

  /** The copy loop of `restore_from_backup`. */
  method CopySnapshot(files: Dir, faults: Faults, now: int) returns (restored: Dir, errors: set<Path>, count: nat)
    ensures restored == RestoredTree(files, faults, now)
    ensures errors == RestoreErrors(files, faults)
    ensures count == |restored|
  {
    restored, errors, count := map[], {}, 0;
    var todo := files.Keys;
    while todo != {}
      invariant todo <= files.Keys
      invariant forall p :: p in restored <==> p in files && p !in todo && Restorable(p) && CopySucceeds(files[p], p, faults)
      invariant forall p :: p in restored ==> restored[p] == Copied(files[p], now)
      invariant forall p :: p in errors <==> p in files && p !in todo && Restorable(p) && !CopySucceeds(files[p], p, faults)
      invariant count == |restored|
      decreases |todo|
    {
      var p :| p in todo;
      todo := todo - {p};
      if BaseName(p) == ManifestName {
        continue;
      }
      var ok, attempts := CopyWithRetry(files[p], p, faults);
      if ok {
        assert p !in restored;
        restored := restored[p := Copied(files[p], now)];
        count := count + 1;
      } else {
        errors := errors + {p};
      }
    }
  }

  /**
   * Whether the integrity step of a restore lets it pass: it only runs with
   * a checker and a `MANIFEST.json` at the top of the snapshot, and then
   * checks the snapshot itself against that manifest.
   */
  ghost predicate SnapshotVerifies(checker: Option<Checker>, files: Dir) {
    checker.None? || ManifestPath !in files ||
    (ManifestOfDir(files).Some? && Intact(checker.value, files, ManifestOfDir(files).value.files))
  }

  /** A restore of `id` reports success: found, at least one file copied, and the snapshot verifies. */
  ghost predicate RestoreSucceeds(snaps: map<Key, Entry>, id: string, checker: Option<Checker>, faults: Faults, now: int) {
    && FindBackup(snaps, id).Some?
    && |RestoredTree(FilesOf(snaps, id), faults, now)| > 0
    && SnapshotVerifies(checker, FilesOf(snaps, id))
  }

  /** The recovery record. */
  datatype RecoveryMeta = RecoveryMeta(
    recoveryId: string,
    backupId: string,
    destination: string,
    status: Status,
    fileCount: nat,
    duration: real,
    errors: set<Path>,
    error: Option<Failure>)

  // ---------------------------------------------------------------------
  // Increment chains
  // ---------------------------------------------------------------------

  /**
   * The increment copy faults: `incFaults(id, p)` says whether copying the
   * file at `p` of increment `id` raises. There is no retry.
   */
  type IncFaults = (string, Path) -> bool

  /** What one increment writes over the destination: its restorable files whose single copy succeeded. */
  function Layer(files: Dir, id: string, incFaults: IncFaults, now: int): Dir
  {
    map p | p in files && Restorable(p) && Readable(files[p].content) && !incFaults(id, p) :: Copied(files[p], now)
  }

  /** The layers of a list of increments, in the caller's order. */
  function Layers(snaps: map<Key, Entry>, ids: seq<string>, incFaults: IncFaults, now: int): (ls: seq<Dir>)
    ensures |ls| == |ids|
    ensures forall i :: 0 <= i < |ids| ==> ls[i] == Layer(FilesOf(snaps, ids[i]), ids[i], incFaults, now)
  {
    seq(|ids|, i requires 0 <= i < |ids| => Layer(FilesOf(snaps, ids[i]), ids[i], incFaults, now))
  }

  /** Every id of the list resolves to a snapshot. */
  ghost predicate AllFound(snaps: map<Key, Entry>, ids: seq<string>) {
    forall j :: 0 <= j < |ids| ==> FindBackup(snaps, ids[j]).Some?
  }

  /** Layers written one after the other over a base tree: each copy overwrites. */
  function Overlay(base: Dir, layers: seq<Dir>): Dir
    decreases |layers|
  {
    if layers == [] then base else Overlay(base, layers[..|layers| - 1]) + layers[|layers| - 1]
  }

  /** The number of copies the layers make, counted per write. */
  function Writes(layers: seq<Dir>): nat
    decreases |layers|
  {
    if layers == [] then 0 else Writes(layers[..|layers| - 1]) + |layers[|layers| - 1]|
  }

  /**
   * The last writer wins: a path holds what the last layer that wrote it
   * wrote, or what the base held when no layer wrote it; no other path
   * appears.
   */
  lemma {:induction false} OverlayLastWriterWins(base: Dir, layers: seq<Dir>, p: Path)
    ensures p in Overlay(base, layers) <==> p in base || exists i :: 0 <= i < |layers| && p in layers[i]
    ensures forall i :: 0 <= i < |layers| && p in layers[i] && (forall j :: i < j < |layers| ==> p !in layers[j]) ==>
      Overlay(base, layers)[p] == layers[i][p]
    ensures p in base && (forall j :: 0 <= j < |layers| ==> p !in layers[j]) ==> Overlay(base, layers)[p] == base[p]
    decreases |layers|
  {
    if layers != [] {
      var init := layers[..|layers| - 1];
      OverlayLastWriterWins(base, init, p);
      assert forall i :: 0 <= i < |init| ==> init[i] == layers[i];
    }
  }

  /** The files at the destination never outnumber the copies counted. */
  lemma {:induction false} OverlayBounded(base: Dir, layers: seq<Dir>)
    ensures |Overlay(base, layers)| <= |base| + Writes(layers)
    decreases |layers|
  {
    if layers != [] {
      var init := layers[..|layers| - 1];
      var last := layers[|layers| - 1];
      OverlayBounded(base, init);
      var o := Overlay(base, init);
      assert (o + last).Keys == o.Keys + last.Keys;
      SubsetCardinality((o + last).Keys, o.Keys + last.Keys);
      assert |o.Keys + last.Keys| <= |o.Keys| + |last.Keys| by {
        UnionCardinality(o.Keys, last.Keys);
      }
    }
  }

  /** The chain recovery record. */
  datatype ChainMeta = ChainMeta(
    recoveryId: string,
    fullBackupId: string,
    incrementalCount: nat,
    destination: string,
    status: Status,
    fileCount: nat,
    duration: real,
    error: Option<Failure>)

  // ---------------------------------------------------------------------
  // Recovery drills
  // ---------------------------------------------------------------------

  datatype DrillStatus = Passed | DrillFailed

  /** The integrity block of a drill result. */
  datatype IntegrityCheck = IntegrityCheck(valid: bool, verifiedFiles: nat, corruptedFiles: nat)

  datatype DrillResult = DrillResult(
    backupId: string,
    status: DrillStatus,
    recoverySuccessful: bool,
    fileCount: nat,
    duration: real,
    integrityCheck: Option<IntegrityCheck>)

  // ---------------------------------------------------------------------
  // Listing and metrics over the history document
  // ---------------------------------------------------------------------

  /** The completed records, in the order of the history. */
  function CompletedOf(h: seq<Record>): (c: seq<Record>)
    ensures forall r :: r in c <==> r in h && r.status == Completed
    ensures |c| <= |h|
    decreases |h|
  {
    if h == [] then []
    else
      assert h == h[..|h| - 1] + [h[|h| - 1]];
      CompletedOf(h[..|h| - 1]) + (if h[|h| - 1].status == Completed then [h[|h| - 1]] else [])
  }

  /**
   * The record the recovery point is measured from (the last completed one
   * in list order) is the record the incremental baseline scan finds.
   */
  lemma {:induction false} LatestCompletedIsBaseline(h: seq<Record>)
    ensures CompletedOf(h) == [] <==> Engine.LastQualifying(h, false).None?
    ensures CompletedOf(h) != [] ==> CompletedOf(h)[|CompletedOf(h)| - 1] == h[Engine.LastQualifying(h, false).value]
    decreases |h|
  {
    if h != [] {
      LatestCompletedIsBaseline(h[..|h| - 1]);
    }
  }

  /** One line of `list_available_backups` (the timestamp as stored). */
  datatype Listing = Listing(id: string, btype: BackupType, timestamp: Stamp, files: nat, sizeBytes: nat, source: string)

  function ListingOf(r: Record): Listing {
    Listing(r.id, r.btype, r.timestamp, r.fileCount, r.sizeBytes, r.source)
  }

  /**
   * `list_available_backups`: one listing per completed record of the
   * history document, in its order; nothing when the document is absent,
   * or when it cannot be read (the error is caught).
   */
  function ListAvailable(doc: HistoryDoc): (ls: seq<Listing>)
    ensures !doc.Doc? ==> ls == []
    ensures doc.Doc? ==> |ls| == |CompletedOf(doc.records)|
    ensures doc.Doc? ==> forall i :: 0 <= i < |ls| ==> ls[i] == ListingOf(CompletedOf(doc.records)[i])
  {
    match doc
    case Absent => []
    case Corrupt => []
    case Doc(h) =>
      var c := CompletedOf(h);
      seq(|c|, i requires 0 <= i < |c| => ListingOf(c[i]))
  }

  /** Every completed record is listed, and every listing is that of a completed record. */
  lemma ListedIffCompleted(h: seq<Record>)
    ensures forall r :: r in h && r.status == Completed ==> ListingOf(r) in ListAvailable(Doc(h))
    ensures forall l :: l in ListAvailable(Doc(h)) ==> exists q :: q in h && q.status == Completed && l == ListingOf(q)
  {
    var c := CompletedOf(h);
    var ls := ListAvailable(Doc(h));
    forall r | r in h && r.status == Completed ensures ListingOf(r) in ls {
      assert r in c;
      var i :| 0 <= i < |c| && c[i] == r;
      assert ls[i] == ListingOf(r);
    }
    forall l | l in ls ensures exists q :: q in h && q.status == Completed && l == ListingOf(q) {
      var i :| 0 <= i < |ls| && ls[i] == l;
      assert c[i] in c;
    }
  }

  /** The summary of the latest completed record. */
  datatype Analysis = Analysis(totalCompleted: nat, latestType: BackupType, latestId: string, latestFiles: nat, latestSizeBytes: nat)

  /** `calculate_rpo_rto`'s result, in minutes. */
  datatype Metrics = Metrics(
    rtoMinutes: real,
    rpoMinutes: real,
    latestAgeMinutes: real,
    frequencyMinutes: real,
    analysis: Option<Analysis>)

  const NoMetrics: Metrics := Metrics(0.0, 0.0, 0.0, 0.0, None)

  function Max0(x: real): (r: real)
    ensures r >= 0.0 && r >= x
    ensures r == x || r == 0.0
  {
    if x > 0.0 then x else 0.0
  }

  /** A stored timestamp in seconds, with `fallback` for one that does not parse. */
  function StampOr(s: Stamp, fallback: int): int {
    match s
    case At(t) => t
    case Garbled => fallback
  }

  /** A record whose stored duration is a positive number. */
  predicate HasPositiveDuration(r: Record) {
    r.duration.Some? && r.duration.value > 0.0
  }

  /** The positions of the records with a positive duration. */
  ghost function PositivePositions(rs: seq<Record>): set<int> {
    set i | 0 <= i < |rs| && HasPositiveDuration(rs[i])
  }

  /** The recorded durations that are positive numbers, in order. */
  function PositiveDurations(rs: seq<Record>): (ds: seq<real>)
    ensures |ds| <= |rs|
    ensures forall i :: 0 <= i < |ds| ==> ds[i] > 0.0
    ensures forall r :: r in rs && HasPositiveDuration(r) ==> r.duration.value in ds
    decreases |rs|
  {
    if rs == [] then []
    else
      var last := rs[|rs| - 1];
      assert rs == rs[..|rs| - 1] + [last];
      PositiveDurations(rs[..|rs| - 1]) + (if HasPositiveDuration(last) then [last.duration.value] else [])
  }

  /** The last record adds its position exactly when its duration is positive. */
  lemma PositivePositionsStep(rs: seq<Record>)
    requires rs != []
    ensures var n := |rs| - 1;
      PositivePositions(rs) == PositivePositions(rs[..n]) + (if HasPositiveDuration(rs[n]) then {n} else {})
    ensures |rs| - 1 !in PositivePositions(rs[..|rs| - 1])
  {
    var n := |rs| - 1;
    forall i | 0 <= i < n ensures rs[..n][i] == rs[i] {
    }
  }

  /** One value is kept per record with a positive duration. */
  lemma {:induction false} PositiveDurationsCount(rs: seq<Record>)
    ensures |PositiveDurations(rs)| == |PositivePositions(rs)|
    decreases |rs|
  {
    if rs == [] {
      assert PositivePositions(rs) == {};
    } else {
      var n := |rs| - 1;
      PositiveDurationsCount(rs[..n]);
      PositivePositionsStep(rs);
    }
  }

  /** Every kept value is the duration of some record. */
  lemma {:induction false} PositiveDurationsFromRecords(rs: seq<Record>)
    ensures forall d :: d in PositiveDurations(rs) ==> exists r :: r in rs && r.duration == Some(d)
    decreases |rs|
  {
    if rs != [] {
      var n := |rs| - 1;
      var front := rs[..n];
      PositiveDurationsFromRecords(front);
      var tail := if HasPositiveDuration(rs[n]) then [rs[n].duration.value] else [];
      assert PositiveDurations(rs) == PositiveDurations(front) + tail;
      forall d | d in PositiveDurations(rs) ensures exists r :: r in rs && r.duration == Some(d) {
        if d in PositiveDurations(front) {
          var r :| r in front && r.duration == Some(d);
          assert r in rs;
        } else {
          assert d in tail;
          assert rs[n] in rs && rs[n].duration == Some(d);
        }
      }
    }
  }

  /**
   * Keeping the positive durations commutes with concatenation: the values
   * kept from a list are those kept from its first part followed by those
   * kept from the rest, so order and repetitions are those of the records.
   */
  lemma {:induction false} PositiveDurationsAppend(a: seq<Record>, b: seq<Record>)
    ensures PositiveDurations(a + b) == PositiveDurations(a) + PositiveDurations(b)
    decreases |b|
  {
    if b == [] {
      assert a + b == a;
    } else {
      var b' := b[..|b| - 1];
      assert (a + b)[..|a + b| - 1] == a + b';
      PositiveDurationsAppend(a, b');
    }
  }

  /** A single record contributes its duration exactly when it is positive. */
  lemma PositiveDurationsOne(r: Record)
    ensures PositiveDurations([r]) == if HasPositiveDuration(r) then [r.duration.value] else []
  {
    assert [r][..0] == [];
  }

  function Sum(ds: seq<real>): real
    decreases |ds|
  {
    if ds == [] then 0.0 else Sum(ds[..|ds| - 1]) + ds[|ds| - 1]
  }

  /** The mean of a non-empty list lies between any lower and any upper bound of its elements. */
  lemma {:induction false} SumBounds(ds: seq<real>, lo: real, hi: real)
    requires forall i :: 0 <= i < |ds| ==> lo <= ds[i] <= hi
    ensures |ds| as real * lo <= Sum(ds) <= |ds| as real * hi
    decreases |ds|
  {
    if ds != [] {
      SumBounds(ds[..|ds| - 1], lo, hi);
    }
  }

  /** The last `n` elements (all of them when there are fewer). */
  function LastN(rs: seq<Record>, n: nat): (t: seq<Record>)
    ensures |t| == if |rs| < n then |rs| else n
    ensures t == rs[|rs| - |t|..]
  {
    if |rs| <= n then rs else rs[|rs| - n..]
  }

  /** Mean positive duration of the last five completed records, in minutes (0 when there is none). */
  function RtoMinutes(completed: seq<Record>): real {
    var ds := PositiveDurations(LastN(completed, 5));
    if ds == [] then 0.0 else Sum(ds) / (|ds| as real) / 60.0
  }

  /** The age of the latest completed record, in minutes, never negative. */
  function RpoMinutes(latest: Record, now: int): real {
    Max0((now - StampOr(latest.timestamp, now)) as real / 60.0)
  }

  /** The gap between the last two completed records, in minutes, never negative (0 with fewer than two). */
  function FrequencyMinutes(c: seq<Record>, now: int): real
    requires c != []
  {
    if |c| < 2 then 0.0
    else
      var latestTs := StampOr(c[|c| - 1].timestamp, now);
      Max0((latestTs - StampOr(c[|c| - 2].timestamp, latestTs)) as real / 60.0)
  }

  /**
   * `calculate_rpo_rto`. The recovery point is the age of the last
   * completed record in list order (a timestamp that does not parse counts
   * as `now`); the recovery time is the mean positive duration of the last
   * five completed records; the frequency is the gap between the last two
   * completed records (a previous timestamp that does not parse counts as
   * the latest). No document, one that cannot be read (the error is
   * caught), or no completed record, gives all zeros.
   */
  function CalculateRpoRto(doc: HistoryDoc, now: int): (m: Metrics)
    ensures m.rpoMinutes >= 0.0 && m.rtoMinutes >= 0.0 && m.frequencyMinutes >= 0.0
    ensures m.latestAgeMinutes == m.rpoMinutes
    ensures !doc.Doc? || CompletedOf(doc.records) == [] <==> m == NoMetrics
    ensures doc.Doc? && CompletedOf(doc.records) != [] ==>
      var c := CompletedOf(doc.records);
      var latest := c[|c| - 1];
      && m.rpoMinutes == RpoMinutes(latest, now)
      && m.rtoMinutes == RtoMinutes(c)
      && m.frequencyMinutes == FrequencyMinutes(c, now)
      && m.analysis == Some(Analysis(|c|, latest.btype, latest.id, latest.fileCount, latest.sizeBytes))
  {
    match doc
    case Absent => NoMetrics
    case Corrupt => NoMetrics
    case Doc(h) =>
      var c := CompletedOf(h);
      if c == [] then NoMetrics
      else
        var latest := c[|c| - 1];
        var rpo := RpoMinutes(latest, now);
        RtoNonNegative(c);
        Metrics(RtoMinutes(c), rpo, rpo, FrequencyMinutes(c, now),
                Some(Analysis(|c|, latest.btype, latest.id, latest.fileCount, latest.sizeBytes)))
  }

  /** The mean of one to five values lies between any bounds of them. */
  lemma MeanBetween(ds: seq<real>, lo: real, hi: real)
    requires 0 < |ds| <= 5
    requires forall i :: 0 <= i < |ds| ==> lo <= ds[i] <= hi
    ensures lo <= Sum(ds) / (|ds| as real) <= hi
  {
    SumBounds(ds, lo, hi);
    var n := |ds|;
    if n == 1 {
    } else if n == 2 {
    } else if n == 3 {
    } else if n == 4 {
    } else {
    }
  }

  lemma RtoNonNegative(completed: seq<Record>)
    ensures RtoMinutes(completed) >= 0.0
  {
    var ds := PositiveDurations(LastN(completed, 5));
    if ds != [] {
      MeanBetween(ds, 0.0, MaxOf(ds));
    }
  }

  function MaxOf(ds: seq<real>): (m: real)
    requires ds != []
    ensures forall i :: 0 <= i < |ds| ==> ds[i] <= m
    ensures m in ds
    decreases |ds|
  {
    if |ds| == 1 then ds[0]
    else
      var m := MaxOf(ds[..|ds| - 1]);
      assert forall i :: 0 <= i < |ds| - 1 ==> ds[..|ds| - 1][i] == ds[i];
      if ds[|ds| - 1] > m then ds[|ds| - 1] else m
  }

  /**
   * The recovery time objective lies between the shortest and the longest
   * positive duration among the last five completed records.
   */
  lemma RtoWithinRecentDurations(completed: seq<Record>, lo: real, hi: real)
    requires PositiveDurations(LastN(completed, 5)) != []
    requires forall d :: d in PositiveDurations(LastN(completed, 5)) ==> lo <= d <= hi
    ensures lo / 60.0 <= RtoMinutes(completed) <= hi / 60.0
  {
    var ds := PositiveDurations(LastN(completed, 5));
    assert forall i :: 0 <= i < |ds| ==> ds[i] in ds;
    MeanBetween(ds, lo, hi);
  }

  /** Records appended after the history that are not completed leave the completed list as it was. */
  lemma {:induction false} CompletedSkipsOthers(h: seq<Record>, s: seq<Record>)
    requires forall j :: 0 <= j < |s| ==> s[j].status != Completed
    ensures CompletedOf(h + s) == CompletedOf(h)
    decreases |s|
  {
    if s == [] {
      assert h + s == h;
    } else {
      var s' := s[..|s| - 1];
      assert (h + s)[..|h + s| - 1] == h + s';
      CompletedSkipsOthers(h, s');
    }
  }

  /**
   * The recovery point follows list order: a completed record followed only
   * by records that are not completed is the one measured from, whatever
   * comes before it, newer records included.
   */
  lemma RpoFollowsListOrder(h: seq<Record>, r: Record, s: seq<Record>, t: int, now: int)
    requires r.status == Completed && r.timestamp == At(t)
    requires forall j :: 0 <= j < |s| ==> s[j].status != Completed
    ensures CalculateRpoRto(Doc(h + [r] + s), now).rpoMinutes == Max0((now - t) as real / 60.0)
  {
    CompletedSkipsOthers(h + [r], s);
    assert (h + [r])[..|h|] == h;
  }

  // ---------------------------------------------------------------------
  // The manager
  // ---------------------------------------------------------------------

  /** The id a restore gets when the caller names none, built from the formatted wall clock. */
  function DefaultRecoveryId(clock: string): string {
    "recovery_" + clock
  }

  /** The id a chain restore gets when the caller names none. */
  function DefaultChainId(clock: string): string {
    "recovery_chain_" + clock
  }

  class DisasterRecoveryManager {
    const disk: Disk
    const checker: Option<Checker>

    constructor (disk: Disk, checker: Option<Checker>)
      ensures this.disk == disk && this.checker == checker
    {
      this.disk := disk;
      this.checker := checker;
    }

    /**
     * `restore_from_backup`. An unknown id fails and touches nothing.
     * Otherwise the destination is replaced by the restored files; the
     * restore succeeds iff at least one file was copied and the snapshot
     * (not the destination) passes its integrity check; otherwise it ends
     * `CompletedWithWarnings`.
     */
    method RestoreFromBackup(backupId: string, dest: string, recoveryId: Option<string>, clock: string,
                             faults: Faults, now: int, duration: real)
      returns (ok: bool, meta: RecoveryMeta)
      modifies disk
      ensures disk.snapshots == old(disk.snapshots) && disk.history == old(disk.history)
      ensures meta.recoveryId == (if recoveryId.Some? then recoveryId.value else DefaultRecoveryId(clock))
      ensures meta.backupId == backupId && meta.destination == dest
      ensures meta.duration == duration
      ensures ok <==> meta.status == Completed
      ensures FindBackup(old(disk.snapshots), backupId).None? ==>
        !ok && meta.status == Failed && meta.error == Some(BackupNotFound(backupId))
        && meta.fileCount == 0 && disk.trees == old(disk.trees)
      ensures FindBackup(old(disk.snapshots), backupId).Some? ==>
        var files := FilesOf(old(disk.snapshots), backupId);
        && disk.trees == old(disk.trees)[dest := RestoredTree(files, faults, now)]
        && meta.fileCount == |RestoredTree(files, faults, now)|
        && meta.errors == RestoreErrors(files, faults)
        && meta.error.None?
        && (ok <==> RestoreSucceeds(old(disk.snapshots), backupId, checker, faults, now))
        && (!ok ==> meta.status == CompletedWithWarnings)
    {
      var rid := if recoveryId.Some? then recoveryId.value else DefaultRecoveryId(clock);
      meta := RecoveryMeta(rid, backupId, dest, InProgress, 0, duration, {}, None);
      var found := FindBackup(disk.snapshots, backupId);
      if found.None? {
        ok, meta := false, meta.(status := Failed, error := Some(BackupNotFound(backupId)));
        return;
      }
      var files := EntryFiles(disk.snapshots[Key(found.value, backupId)]);
      var restored, errors, count := CopySnapshot(files, faults, now);
      disk.trees := disk.trees[dest := restored];
      var passed := true;
      if checker.Some? && count > 0 && ManifestPath in files {
        var valid, report := VerifyBackupIntegrity(checker.value, files, ManifestOfDir(files));
        if !valid {
          passed := false;
        }
      }
      ok := passed && count > 0;
      meta := meta.(status := if ok then Completed else CompletedWithWarnings, fileCount := count, errors := errors);
    }

    /** The copy loop of one increment: each restorable file is copied once over the destination. */
    method ApplyLayer(dest: string, files: Dir, id: string, incFaults: IncFaults, now: int) returns (copied: nat)
      modifies disk
      ensures disk.snapshots == old(disk.snapshots) && disk.history == old(disk.history)
      ensures disk.trees == old(disk.trees)[dest := TreeAt(old(disk.trees), dest) + Layer(files, id, incFaults, now)]
      ensures copied == |Layer(files, id, incFaults, now)|
    {
      var layer := Layer(files, id, incFaults, now);
      var written: Dir := map[];
      copied := 0;
      var todo := files.Keys;
      while todo != {}
        invariant todo <= files.Keys
        invariant forall p :: p in written <==> p in layer && p !in todo
        invariant forall p :: p in written ==> written[p] == layer[p]
        invariant copied == |written|
        decreases |todo|
      {
        var p :| p in todo;
        todo := todo - {p};
        if BaseName(p) == ManifestName {
          continue;
        }
        if Readable(files[p].content) && !incFaults(id, p) {
          assert p !in written;
          written := written[p := Copied(files[p], now)];
          copied := copied + 1;
        }
      }
      assert written == layer;
      disk.trees := disk.trees[dest := TreeAt(disk.trees, dest) + written];
    }

    /**
     * The increment loop of `restore_incremental_chain`: each id, in order,
     * is located and its layer copied over the destination; an id that
     * resolves to nothing stops the loop and is reported by its index.
     */
    method ApplyIncrements(dest: string, incIds: seq<string>, incFaults: IncFaults, now: int)
      returns (missing: Option<nat>, copies: nat)
      requires dest in disk.trees
      modifies disk
      ensures disk.snapshots == old(disk.snapshots) && disk.history == old(disk.history)
      ensures var snaps := old(disk.snapshots);
        var base := TreeAt(old(disk.trees), dest);
        && (missing.None? ==>
              AllFound(snaps, incIds)
              && disk.trees == old(disk.trees)[dest := Overlay(base, Layers(snaps, incIds, incFaults, now))]
              && copies == Writes(Layers(snaps, incIds, incFaults, now)))
        && (missing.Some? ==>
              var k := missing.value;
              && k < |incIds|
              && AllFound(snaps, incIds[..k])
              && FindBackup(snaps, incIds[k]).None?
              && disk.trees == old(disk.trees)[dest := Overlay(base, Layers(snaps, incIds[..k], incFaults, now))])
    {
      ghost var snaps := disk.snapshots;
      ghost var base := TreeAt(disk.trees, dest);
      ghost var layers: seq<Dir> := [];
      copies := 0;
      var i := 0;
      while i < |incIds|
        invariant 0 <= i <= |incIds|
        invariant disk.snapshots == snaps && disk.history == old(disk.history)
        invariant AllFound(snaps, incIds[..i])
        invariant layers == Layers(snaps, incIds[..i], incFaults, now)
        invariant disk.trees == old(disk.trees)[dest := Overlay(base, layers)]
        invariant copies == Writes(layers)
      {
        var found := FindBackup(disk.snapshots, incIds[i]);
        if found.None? {
          return Some(i), copies;
        }
        var files := EntryFiles(disk.snapshots[Key(found.value, incIds[i])]);
        assert files == FilesOf(snaps, incIds[i]);
        ghost var before := disk.trees;
        var copied := ApplyLayer(dest, files, incIds[i], incFaults, now);
        ghost var layer := Layer(files, incIds[i], incFaults, now);
        assert TreeAt(before, dest) == Overlay(base, layers);
        LayersStep(snaps, incIds, i, incFaults, now);
        AllFoundStep(snaps, incIds, i);
        OverlayStep(base, layers, layer);
        WriteTwice(old(disk.trees), dest, Overlay(base, layers), Overlay(base, layers) + layer);
        layers := layers + [layer];
        copies := copies + copied;
        i := i + 1;
      }
      assert incIds[..i] == incIds;
      missing := None;
    }

    /**
     * `restore_incremental_chain`: the full snapshot is restored into the
     * destination, then every increment, in the caller's order, is copied
     * over it. A failed full restore or an unknown increment id fails the
     * chain, leaving what was already written.
     */
    method RestoreIncrementalChain(fullId: string, incIds: seq<string>, dest: string, recoveryId: Option<string>,
                                   clock: string, faults: Faults, incFaults: IncFaults, now: int, duration: real)
      returns (ok: bool, meta: ChainMeta)
      modifies disk
      ensures disk.snapshots == old(disk.snapshots) && disk.history == old(disk.history)
      ensures meta.recoveryId == (if recoveryId.Some? then recoveryId.value else DefaultChainId(clock))
      ensures meta.fullBackupId == fullId
      ensures meta.incrementalCount == |incIds| && meta.destination == dest
      ensures meta.duration == duration
      ensures ok <==> meta.status == Completed
      ensures ok ==> meta.error.None?
      ensures !ok ==> meta.status == Failed && meta.error.Some?
      ensures !RestoreSucceeds(old(disk.snapshots), fullId, checker, faults, now) ==>
        && !ok && meta.error == Some(FullRestoreFailed)
        && disk.trees == if FindBackup(old(disk.snapshots), fullId).None? then old(disk.trees)
                         else old(disk.trees)[dest := RestoredTree(FilesOf(old(disk.snapshots), fullId), faults, now)]
      ensures RestoreSucceeds(old(disk.snapshots), fullId, checker, faults, now) && ok ==>
        var snaps := old(disk.snapshots);
        var base := RestoredTree(FilesOf(snaps, fullId), faults, now);
        && AllFound(snaps, incIds)
        && disk.trees == old(disk.trees)[dest := Overlay(base, Layers(snaps, incIds, incFaults, now))]
        && meta.fileCount == |base| + Writes(Layers(snaps, incIds, incFaults, now))
      ensures RestoreSucceeds(old(disk.snapshots), fullId, checker, faults, now) && !ok ==>
        var snaps := old(disk.snapshots);
        var base := RestoredTree(FilesOf(snaps, fullId), faults, now);
        exists k :: 0 <= k < |incIds|
          && AllFound(snaps, incIds[..k])
          && FindBackup(snaps, incIds[k]).None?
          && meta.error == Some(IncrementNotFound(incIds[k]))
          && disk.trees == old(disk.trees)[dest := Overlay(base, Layers(snaps, incIds[..k], incFaults, now))]
    {
      var rid := if recoveryId.Some? then recoveryId.value else DefaultChainId(clock);
      meta := ChainMeta(rid, fullId, |incIds|, dest, InProgress, 0, duration, None);
      ghost var snaps := disk.snapshots;
      ghost var base := RestoredTree(FilesOf(snaps, fullId), faults, now);
      var fullOk, fullMeta := RestoreFromBackup(fullId, dest, Some(rid + "_full"), clock, faults, now, duration);
      if !fullOk {
        ok, meta := false, meta.(status := Failed, error := Some(FullRestoreFailed));
        return;
      }
      assert disk.trees == old(disk.trees)[dest := base] && fullMeta.fileCount == |base|;
      assert TreeAt(disk.trees, dest) == base;
      var missing, copies := ApplyIncrements(dest, incIds, incFaults, now);
      if missing.Some? {
        var k := missing.value;
        WriteTwice(old(disk.trees), dest, base, Overlay(base, Layers(snaps, incIds[..k], incFaults, now)));
        ok, meta := false, meta.(status := Failed, error := Some(IncrementNotFound(incIds[k])));
        return;
      }
      WriteTwice(old(disk.trees), dest, base, Overlay(base, Layers(snaps, incIds, incFaults, now)));
      var total := fullMeta.fileCount + copies;
      ok, meta := true, meta.(status := Completed, fileCount := total);
    }

    /**
     * `simulate_disaster_recovery`: a restore into a scratch directory; when
     * it succeeds and a checker and the snapshot's manifest exist, the
     * scratch copy is verified against that manifest. The scratch directory
     * is always removed afterwards.
     */
    method SimulateDisasterRecovery(backupId: string, testDir: string, clock: string, faults: Faults, now: int, duration: real)
      returns (res: DrillResult)
      modifies disk
      ensures disk.snapshots == old(disk.snapshots) && disk.history == old(disk.history)
      ensures disk.trees == old(disk.trees) - {testDir}
      ensures res.backupId == backupId && res.duration == duration
      ensures res.status == (if res.recoverySuccessful then Passed else DrillFailed)
      ensures FindBackup(old(disk.snapshots), backupId).None? ==> res.fileCount == 0
      ensures var files := FilesOf(old(disk.snapshots), backupId);
        var restored := RestoredTree(files, faults, now);
        && (res.recoverySuccessful <==> RestoreSucceeds(old(disk.snapshots), backupId, checker, faults, now))
        && (FindBackup(old(disk.snapshots), backupId).Some? ==> res.fileCount == |restored|)
        && (res.integrityCheck.Some? <==> res.recoverySuccessful && checker.Some? && ManifestPath in files)
        && (res.integrityCheck.Some? ==>
              (res.integrityCheck.value.valid <==>
                 ManifestOfDir(files).Some? && Intact(checker.value, restored, ManifestOfDir(files).value.files)))
        && (res.integrityCheck.Some? && ManifestOfDir(files).None? ==>
              res.integrityCheck.value.verifiedFiles == 0 && res.integrityCheck.value.corruptedFiles == 0)
        && (res.integrityCheck.Some? && ManifestOfDir(files).Some? ==>
              var report := Classified(checker.value, restored, ManifestOfDir(files).value);
              res.integrityCheck.value.verifiedFiles == report.verified
              && res.integrityCheck.value.corruptedFiles == |report.corrupted|)
    {
      ghost var trees0 := disk.trees;
      var ok, meta := RestoreFromBackup(backupId, testDir, None, clock, faults, now, duration);
      ghost var files0 := FilesOf(disk.snapshots, backupId);
      res := DrillResult(backupId, if ok then Passed else DrillFailed, ok, meta.fileCount, meta.duration, None);
      if ok && checker.Some? {
        var found := FindBackup(disk.snapshots, backupId);
        var files := EntryFiles(disk.snapshots[Key(found.value, backupId)]);
        assert files == files0;
        if ManifestPath in files {
          RestoredReadable(files, faults, now);
          var valid, report := VerifyBackupIntegrity(checker.value, disk.trees[testDir], ManifestOfDir(files));
          res := res.(integrityCheck := Some(IntegrityCheck(valid, report.verified, |report.corrupted|)));
        }
      }
      if FindBackup(disk.snapshots, backupId).Some? {
        OthersAfterWrite(trees0, testDir, RestoredTree(files0, faults, now));
      }
      disk.trees := disk.trees - {testDir};
    }
  }

  /** One more increment: its layer goes on top and its writes add to the count. */
  lemma OverlayStep(base: Dir, layers: seq<Dir>, layer: Dir)
    ensures Overlay(base, layers + [layer]) == Overlay(base, layers) + layer
    ensures Writes(layers + [layer]) == Writes(layers) + |layer|
  {
    assert (layers + [layer])[..|layers|] == layers;
  }

  lemma AllFoundStep(snaps: map<Key, Entry>, ids: seq<string>, i: nat)
    requires i < |ids| && AllFound(snaps, ids[..i]) && FindBackup(snaps, ids[i]).Some?
    ensures AllFound(snaps, ids[..i + 1])
  {
    assert forall j :: 0 <= j < i ==> ids[..i + 1][j] == ids[..i][j];
  }

  lemma LayersStep(snaps: map<Key, Entry>, ids: seq<string>, i: nat, incFaults: IncFaults, now: int)
    requires i < |ids|
    ensures Layers(snaps, ids[..i + 1], incFaults, now) == Layers(snaps, ids[..i], incFaults, now) + [Layer(FilesOf(snaps, ids[i]), ids[i], incFaults, now)]
  {
  }

  // ---------------------------------------------------------------------
  // Restoring a sealed snapshot
  // ---------------------------------------------------------------------

  /**
   * A backup taken from readable files, none of them named `MANIFEST.json`,
   * and sealed with a manifest, restores without faults to a tree that is
   * intact against that manifest: the drill's integrity check passes.
   */
  lemma SealedSnapshotRestoresIntact(c: Checker, dir: Dir, created: int, faults: Faults, now: int)
    requires AllReadable(dir)
    requires forall p :: p in dir ==> Restorable(p)
    requires forall p :: p in dir ==> !faults(p, 0)
    ensures var m := Manifest(c.algorithm, created, EntriesOf(c, dir));
      var sealed := dir[ManifestPath := ManifestFile(c, m, created)];
      && ManifestOfDir(sealed) == Some(m)
      && SnapshotVerifies(Some(c), sealed)
      && RestoredTree(sealed, faults, now).Keys == dir.Keys
      && Intact(c, RestoredTree(sealed, faults, now), m.files)
  {
    var m := Manifest(c.algorithm, created, EntriesOf(c, dir));
    var sealed := dir[ManifestPath := ManifestFile(c, m, created)];
    assert !Restorable(ManifestPath);
    assert ManifestPath !in dir;
    ManifestRoundTrip(c, dir, created);
    var restored := RestoredTree(sealed, faults, now);
    forall p | p in dir ensures p in restored {
      assert sealed[p] == dir[p];
      assert CopySucceeds(sealed[p], p, faults) by { assert !faults(p, 0); }
    }
  }
}
