/**
 * The backup engine: full, incremental and differential capture of a
 * source tree into `root/<type>/<id>`, with an in-memory history that is
 * written back to the history document after every attempt.
 */
module Engine {
  import opened Fs
  import opened Integrity

  function TypeName(t: BackupType): string {
    match t
    case Full => "full"
    case Incremental => "incremental"
    case Differential => "differential"
  }

  /** The caller's id, or `<type>_<clock>` built from the formatted wall clock. */
  function IdOrDefault(backupId: Option<string>, t: BackupType, clock: string): string {
    match backupId
    case Some(id) => id
    case None => TypeName(t) + "_" + clock
  }

  /** Default ids carry their type as a prefix, so two types never produce the same one. */
  lemma DefaultIdsDiffer(t: BackupType, u: BackupType, a: string, b: string)
    requires t != u
    ensures IdOrDefault(None, t, a) != IdOrDefault(None, u, b)
  {
    assert IdOrDefault(None, t, a)[0] == TypeName(t)[0];
    assert IdOrDefault(None, u, b)[0] == TypeName(u)[0];
  }

  // ---------------------------------------------------------------------
  // Loading the history
  // ---------------------------------------------------------------------

  ghost predicate Parsed(h: seq<Record>) {
    forall i :: 0 <= i < |h| ==> h[i].timestamp.At?
  }

  /** A stored timestamp that does not parse is replaced by the load time. */
  function Normalized(r: Record, now: int): Record {
    if r.timestamp.Garbled? then r.(timestamp := At(now)) else r
  }

  /**
   * `_load_history`: no document gives an empty history; a document that
   * is not valid JSON makes `json.load` raise (None).
   */
  function LoadHistory(doc: HistoryDoc, now: int): (r: Option<seq<Record>>)
    ensures r.None? <==> doc.Corrupt?
    ensures r.Some? ==> Parsed(r.value)
    ensures doc.Absent? ==> r == Some([])
    ensures doc.Doc? ==> r.Some? && |r.value| == |doc.records| && forall i :: 0 <= i < |r.value| ==>
      r.value[i] == doc.records[i].(timestamp := r.value[i].timestamp) &&
      (doc.records[i].timestamp.At? ==> r.value[i] == doc.records[i]) &&
      (doc.records[i].timestamp.Garbled? ==> r.value[i].timestamp == At(now))
  {
    match doc
    case Absent => Some([])
    case Corrupt => None
    case Doc(rs) => Some(seq(|rs|, i requires 0 <= i < |rs| => Normalized(rs[i], now)))
  }

  // ---------------------------------------------------------------------
  // Baselines
  // ---------------------------------------------------------------------

  /** A record a baseline may come from: completed, and of type full when `fullOnly`. */
  predicate IsBaseline(r: Record, fullOnly: bool) {
    r.status == Completed && (!fullOnly || r.btype == Full)
  }

  /** The newest-first scan: the index of the last record that qualifies, if any. */
  function LastQualifying(h: seq<Record>, fullOnly: bool): (r: Option<nat>)
    ensures r.Some? ==> r.value < |h| && IsBaseline(h[r.value], fullOnly)
    ensures r.Some? ==> forall j :: r.value < j < |h| ==> !IsBaseline(h[j], fullOnly)
    ensures r.None? ==> forall j :: 0 <= j < |h| ==> !IsBaseline(h[j], fullOnly)
    decreases |h|
  {
    if h == [] then None
    else if IsBaseline(h[|h| - 1], fullOnly) then Some(|h| - 1)
    else LastQualifying(h[..|h| - 1], fullOnly)
  }

  /** The baseline instant: the timestamp of that record, or one year before `now`. */
  function BaselineTime(h: seq<Record>, fullOnly: bool, now: int): int
    requires Parsed(h)
  {
    match LastQualifying(h, fullOnly)
    case Some(i) => h[i].timestamp.seconds
    case None => now - YearSeconds
  }

  /**
   * `_get_last_backup_time`: the timestamp of the last completed backup of
   * any type, or one year before `now` when there is none.
   */
  function LastBackupTime(h: seq<Record>, now: int): (t: int)
    requires Parsed(h)
    ensures (forall j :: 0 <= j < |h| ==> h[j].status != Completed) ==> t == now - YearSeconds
    ensures forall i :: 0 <= i < |h| && h[i].status == Completed && (forall j :: i < j < |h| ==> h[j].status != Completed) ==>
      t == h[i].timestamp.seconds
  {
    BaselineTime(h, false, now)
  }

  /**
   * `_get_last_full_backup_time`: the timestamp of the last completed full
   * backup, or one year before `now` when there is none.
   */
  function LastFullBackupTime(h: seq<Record>, now: int): (t: int)
    requires Parsed(h)
    ensures (forall j :: 0 <= j < |h| ==> !IsBaseline(h[j], true)) ==> t == now - YearSeconds
    ensures forall i :: 0 <= i < |h| && IsBaseline(h[i], true) && (forall j :: i < j < |h| ==> !IsBaseline(h[j], true)) ==>
      t == h[i].timestamp.seconds
  {
    BaselineTime(h, true, now)
  }

  /** Records that do not qualify, appended after the history, leave the baseline where it was. */
  lemma {:induction false} BaselineSkipsNonQualifying(h: seq<Record>, s: seq<Record>, fullOnly: bool, now: int)
    requires Parsed(h) && Parsed(s)
    requires forall j :: 0 <= j < |s| ==> !IsBaseline(s[j], fullOnly)
    ensures Parsed(h + s)
    ensures BaselineTime(h + s, fullOnly, now) == BaselineTime(h, fullOnly, now)
    decreases |s|
  {
    if s != [] {
      var s' := s[..|s| - 1];
      assert (h + s)[..|h + s| - 1] == h + s';
      assert !IsBaseline((h + s)[|h + s| - 1], fullOnly);
      assert LastQualifying(h + s, fullOnly) == LastQualifying(h + s', fullOnly);
      BaselineSkipsNonQualifying(h, s', fullOnly, now);
    } else {
      assert h + s == h;
    }
  }

  /** A qualifying record appended last becomes the baseline. */
  lemma BaselineMovesToLast(h: seq<Record>, r: Record, fullOnly: bool, now: int)
    requires Parsed(h) && r.timestamp.At? && IsBaseline(r, fullOnly)
    ensures Parsed(h + [r])
    ensures BaselineTime(h + [r], fullOnly, now) == r.timestamp.seconds
  {
  }

  /**
   * Differentials are measured against the last completed full backup:
   * whatever incremental and differential records come between two
   * differentials, both see the same baseline.
   */
  lemma DifferentialsShareBaseline(h: seq<Record>, between: seq<Record>, now: int)
    requires Parsed(h) && Parsed(between)
    requires forall j :: 0 <= j < |between| ==> between[j].btype != Full
    ensures Parsed(h + between)
    ensures LastFullBackupTime(h + between, now) == LastFullBackupTime(h, now)
  {
    BaselineSkipsNonQualifying(h, between, true, now);
  }

  // ---------------------------------------------------------------------
  // Capture
  // ---------------------------------------------------------------------

  /** The files of a source tree whose mtime is strictly newer than the baseline. */
  function Changed(src: Dir, baseline: int): (d: Dir)
    ensures d.Keys == set p | p in src && src[p].mtime > baseline
    ensures forall p :: p in d ==> d[p] == src[p]
  {
    map p | p in src && src[p].mtime > baseline :: src[p]
  }

  /** The copies of a set of files as they land in the snapshot. */
  function CopiesOf(d: Dir, now: int): (c: Dir)
    ensures c.Keys == d.Keys
    ensures Inventory(c) == Inventory(d)
  {
    var c := map p | p in d :: Copied(d[p], now);
    assert Inventory(c) == Inventory(d);
    c
  }

  /**
   * The record of an attempt that raised: failed with an error, and none of
   * the counts, the duration or the inventory filled in.
   */
  ghost predicate FailedAttempt(rec: Record) {
    && rec.status == Failed && rec.error.Some?
    && rec.duration.None? && rec.fileCount == 0 && rec.sizeBytes == 0 && rec.files == map[]
  }

  /** Copies of some of the changed files, as a walk that stopped part-way leaves them. */
  ghost predicate PartialCopies(files: Dir, changed: Dir, now: int) {
    forall p :: p in files ==> p in changed && files[p] == Copied(changed[p], now)
  }

  /**
   * What a capture that met an unreadable changed file leaves: a snapshot
   * directory created `now` holding copies of some changed files, and an
   * error naming that one file.
   */
  ghost predicate StoppedCapture(e: Entry, error: Option<Failure>, changed: Dir, now: int) {
    && e.Snapshot? && e.ctime == now && PartialCopies(e.files, changed, now)
    && error.Some? && error.value.ReadErrors?
    && exists p :: p in changed && !Readable(changed[p].content) && error.value.paths == {p}
  }

  /** Under a shared baseline, a tree that only gained or touched files yields a superset. */
  lemma ChangedGrows(src: Dir, src': Dir, baseline: int)
    requires forall p :: p in src ==> p in src' && src'[p].mtime >= src[p].mtime
    ensures Changed(src, baseline).Keys <= Changed(src', baseline).Keys
  {
  }

  /** `shutil.copytree`: every readable file is copied; the unreadable ones are reported at the end. */
  function CopyTree(src: Dir, now: int): (d: Dir)
    ensures d.Keys == set p | p in src && Readable(src[p].content)
    ensures AllReadable(d)
  {
    map p | p in src && Readable(src[p].content) :: Copied(src[p], now)
  }

  function UnreadableIn(src: Dir): set<Path> {
    set p | p in src && !Readable(src[p].content)
  }

  /** A snapshot's files once the manifest (if a checker is configured) has been written. */
  ghost function Sealed(checker: Option<Checker>, files: Dir, now: int): Dir {
    match checker
    case None => files
    case Some(c) => files[ManifestPath := ManifestFile(c, Manifest(c.algorithm, now, EntriesOf(c, files)), now)]
  }

  /** `_get_file_list`: the walk that inventories a directory. */
  method GetFileList(d: Dir) returns (fl: map<Path, FileMeta>)
    ensures fl == Inventory(d)
  {
    fl := map[];
    var todo := d.Keys;
    while todo != {}
      invariant todo <= d.Keys
      invariant fl.Keys == d.Keys - todo
      invariant forall p :: p in fl ==> fl[p] == FileMeta(d[p].mtime, d[p].size)
      decreases |todo|
    {
      var p :| p in todo;
      todo := todo - {p};
      fl := fl[p := FileMeta(d[p].mtime, d[p].size)];
    }
  }

  /** `sum(info['size'] for info in file_list.values())` */
  method TotalSize(fl: map<Path, FileMeta>) returns (total: nat)
    ensures total == InventorySize(fl)
  {
    total := 0;
    var todo := fl.Keys;
    while todo != {}
      invariant todo <= fl.Keys
      invariant total == SumOf(map p | p in fl.Keys - todo :: fl[p].size)
      decreases |todo|
    {
      var p :| p in todo;
      ghost var before := map q | q in fl.Keys - todo :: fl[q].size;
      todo := todo - {p};
      assert (map q | q in fl.Keys - todo :: fl[q].size) == before[p := fl[p].size];
      SumOfAdd(before, p, fl[p].size);
      total := total + fl[p].size;
    }
    assert (map p | p in fl.Keys - todo :: fl[p].size) == (map p | p in fl :: fl[p].size);
  }

  /**
   * The copy loop shared by incremental and differential capture: every
   * source file newer than the baseline is copied to the same relative
   * path; a file that cannot be read raises and ends the walk with the
   * copies made so far left in place.
   */
  method CopyChanged(src: Dir, baseline: int, now: int)
    returns (copies: Dir, fileList: map<Path, FileMeta>, copiedCount: nat, failed: Option<Path>)
    ensures failed.None? <==> AllReadable(Changed(src, baseline))
    ensures failed.None? ==> copies == CopiesOf(Changed(src, baseline), now)
    ensures failed.None? ==> fileList == Inventory(Changed(src, baseline)) && copiedCount == |fileList|
    ensures failed.Some? ==> failed.value in Changed(src, baseline) && !Readable(src[failed.value].content)
    ensures failed.Some? ==> forall p :: p in copies ==> p in Changed(src, baseline) && copies[p] == Copied(src[p], now)
  {
    copies, fileList, copiedCount, failed := map[], map[], 0, None;
    var todo := src.Keys;
    while todo != {}
      invariant todo <= src.Keys
      invariant forall p :: p in copies <==> p in src && p !in todo && src[p].mtime > baseline
      invariant fileList.Keys == copies.Keys
      invariant copiedCount == |fileList|
      invariant forall p :: p in copies ==> copies[p] == Copied(src[p], now) && Readable(src[p].content)
      invariant forall p :: p in fileList ==> fileList[p] == FileMeta(src[p].mtime, src[p].size)
      decreases |todo|
    {
      var p :| p in todo;
      todo := todo - {p};
      if src[p].mtime > baseline {
        if !Readable(src[p].content) {
          failed := Some(p);
          return;
        }
        assert p !in fileList;
        copies := copies[p := Copied(src[p], now)];
        fileList := fileList[p := FileMeta(src[p].mtime, src[p].size)];
        copiedCount := copiedCount + 1;
      }
    }
    CopiesMatch(src, baseline, now, copies, fileList);
  }

  /** Once the walk is over, the copies and the inventory are exactly those of the changed files. */
  lemma CopiesMatch(src: Dir, baseline: int, now: int, copies: Dir, fileList: map<Path, FileMeta>)
    requires forall p :: p in copies <==> p in src && src[p].mtime > baseline
    requires fileList.Keys == copies.Keys
    requires forall p :: p in copies ==> copies[p] == Copied(src[p], now) && Readable(src[p].content)
    requires forall p :: p in fileList ==> fileList[p] == FileMeta(src[p].mtime, src[p].size)
    ensures AllReadable(Changed(src, baseline))
    ensures copies == CopiesOf(Changed(src, baseline), now)
    ensures fileList == Inventory(Changed(src, baseline))
  {
    var changed := Changed(src, baseline);
    assert copies.Keys == changed.Keys;
    assert copies == CopiesOf(changed, now);
    assert fileList == Inventory(changed);
  }

  // ---------------------------------------------------------------------
  // The summary
  // ---------------------------------------------------------------------

  datatype SummaryEntry = SummaryEntry(id: string, btype: BackupType, files: nat, sizeBytes: nat, status: Status, timestamp: int)

  datatype Summary = Summary(totalBackups: nat, totalSizeBytes: nat, backups: seq<SummaryEntry>)

  function EntryOf(r: Record): SummaryEntry
    requires r.timestamp.At?
  {
    SummaryEntry(r.id, r.btype, r.fileCount, r.sizeBytes, r.status, r.timestamp.seconds)
  }

  ghost function SummaryEntries(h: seq<Record>): seq<SummaryEntry>
    requires Parsed(h)
  {
    seq(|h|, i requires 0 <= i < |h| => EntryOf(h[i]))
  }

  /** The sum of the `size_bytes` of a list of records. */
  ghost function RecordsSize(h: seq<Record>): nat
    decreases |h|
  {
    if h == [] then 0 else RecordsSize(h[..|h| - 1]) + h[|h| - 1].sizeBytes
  }

  ghost predicate NewestFirst(s: seq<SummaryEntry>) {
    forall i, j :: 0 <= i < j < |s| ==> s[i].timestamp >= s[j].timestamp
  }

  /** No entry of `s` is newer than `t`. */
  ghost predicate NoneNewer(s: seq<SummaryEntry>, t: int) {
    forall x :: x in s ==> x.timestamp <= t
  }

  lemma ConsNewestFirst(a: SummaryEntry, s: seq<SummaryEntry>)
    requires NewestFirst(s) && NoneNewer(s, a.timestamp)
    ensures NewestFirst([a] + s)
  {
    forall i, j | 0 <= i < j < |[a] + s|
      ensures ([a] + s)[i].timestamp >= ([a] + s)[j].timestamp
    {
      assert ([a] + s)[j] == s[j - 1];
      if i > 0 {
        assert ([a] + s)[i] == s[i - 1];
      }
    }
  }

  /** Inserts `e` after every entry at least as new as it (so ties keep their order). */
  function InsertNewestFirst(sorted: seq<SummaryEntry>, e: SummaryEntry): (r: seq<SummaryEntry>)
    requires NewestFirst(sorted)
    ensures NewestFirst(r)
    ensures forall t :: NoneNewer(sorted, t) && e.timestamp <= t ==> NoneNewer(r, t)
    ensures multiset(r) == multiset(sorted) + multiset{e}
    decreases |sorted|
  {
    if sorted == [] then [e]
    else if sorted[0].timestamp < e.timestamp then
      ConsNewestFirst(e, sorted);
      [e] + sorted
    else
      assert sorted == [sorted[0]] + sorted[1..];
      var rest := InsertNewestFirst(sorted[1..], e);
      assert NoneNewer(sorted[1..], sorted[0].timestamp);
      ConsNewestFirst(sorted[0], rest);
      [sorted[0]] + rest
  }

  /** `list.sort(key=timestamp, reverse=True)` */
  function SortNewestFirst(s: seq<SummaryEntry>): (r: seq<SummaryEntry>)
    ensures NewestFirst(r)
    ensures multiset(r) == multiset(s)
    decreases |s|
  {
    if s == [] then []
    else
      assert s == s[..|s| - 1] + [s[|s| - 1]];
      InsertNewestFirst(SortNewestFirst(s[..|s| - 1]), s[|s| - 1])
  }

  datatype Area = TypeArea(t: BackupType) | MetadataArea

  /** The order in which `delete_all_backups` removes things. */
  const AreaOrder: seq<Area> := [TypeArea(Full), TypeArea(Incremental), TypeArea(Differential), MetadataArea]


  /** The type directories removed before step `k` of that order. */
  function TypesBefore(k: nat): set<BackupType> {
    if k == 0 then {}
    else if k == 1 then {Full}
    else if k == 2 then {Full, Incremental}
    else {Full, Incremental, Differential}
  }

  /** The removal at step `k` is the first that raises. */
  ghost predicate StoppedAt(k: nat, blocked: set<Area>) {
    k < |AreaOrder| && AreaOrder[k] in blocked && forall j :: 0 <= j < k ==> AreaOrder[j] !in blocked
  }

  /** The snapshots left once the type directories in `removed` are gone. */
  function Without(snaps: map<Key, Entry>, removed: set<BackupType>): (r: map<Key, Entry>)
    ensures forall k :: k in r <==> k in snaps && k.btype !in removed
  {
    map k | k in snaps && k.btype !in removed :: snaps[k]
  }

  // ---------------------------------------------------------------------
  // The engine
  // ---------------------------------------------------------------------

  class BackupEngine {
    const disk: Disk
    const checker: Option<Checker>
    /** `backup_history['backups']` */
    var history: seq<Record>

    ghost predicate Valid()
      reads this
    {
      Parsed(history)
    }

    /**
     * Reads the history document, replacing unparseable timestamps by the
     * load time. A document that does not load makes construction raise:
     * see `OpenEngine`.
     */
    constructor (disk: Disk, checker: Option<Checker>, now: int)
      requires !disk.history.Corrupt?
      ensures Valid()
      ensures this.disk == disk && this.checker == checker
      ensures history == LoadHistory(disk.history, now).value
    {
      this.disk := disk;
      this.checker := checker;
      this.history := LoadHistory(disk.history, now).value;
    }

    /** `_save_history`: the whole in-memory history replaces the document. */
    method SaveHistory()
      modifies disk
      ensures disk.history == Doc(history)
      ensures disk.snapshots == old(disk.snapshots) && disk.trees == old(disk.trees)
    {
      disk.history := Doc(history);
    }

    /** Appends the record of an attempt and saves: every attempt leaves exactly one record. */
    method Append(rec: Record)
      requires Valid() && rec.timestamp.At?
      modifies this, disk
      ensures Valid()
      ensures history == old(history) + [rec]
      ensures disk.history == Doc(history)
      ensures disk.snapshots == old(disk.snapshots) && disk.trees == old(disk.trees)
    {
      history := history + [rec];
      SaveHistory();
    }

    /**
     * Writes a captured snapshot directory, with the manifest of its files
     * added when a checker is configured.
     */
    method WriteSealed(key: Key, files: Dir, now: int)
      requires AllReadable(files)
      modifies disk
      ensures disk.snapshots == old(disk.snapshots)[key := Snapshot(now, Sealed(checker, files, now))]
      ensures disk.trees == old(disk.trees) && disk.history == old(disk.history)
    {
      if checker.Some? {
        var m, sealed := CreateBackupManifest(checker.value, files, now);
        disk.snapshots := disk.snapshots[key := Snapshot(now, sealed)];
      } else {
        disk.snapshots := disk.snapshots[key := Snapshot(now, files)];
      }
    }

    /**
     * `full_backup`. A stray non-directory at the target makes the removal
     * raise; a missing source makes `copytree` raise before anything is
     * created; unreadable source files are skipped by `copytree`, which
     * raises once the rest is copied.
     */
    method FullBackup(sourcePath: string, backupId: Option<string>, clock: string, now: int, duration: real)
      returns (ok: bool, rec: Record)
      requires Valid()
      modifies this, disk
      ensures Valid()
      ensures history == old(history) + [rec]
      ensures disk.history == Doc(history)
      ensures disk.trees == old(disk.trees)
      ensures rec.id == IdOrDefault(backupId, Full, clock) && rec.btype == Full
      ensures rec.timestamp == At(now) && rec.source == sourcePath
      ensures ok <==> rec.status == Completed
      ensures !ok ==> FailedAttempt(rec)
      ensures var key := Key(Full, rec.id);
        disk.snapshots - {key} == old(disk.snapshots) - {key}
      ensures var key := Key(Full, rec.id);
        ok <==> (!(key in old(disk.snapshots) && old(disk.snapshots)[key].Stray?)
                 && sourcePath in old(disk.trees) && AllReadable(old(disk.trees)[sourcePath]))
      ensures var key := Key(Full, rec.id);
        key in old(disk.snapshots) && old(disk.snapshots)[key].Stray? ==>
          rec.error == Some(NotADirectory(key)) && disk.snapshots == old(disk.snapshots)
      ensures var key := Key(Full, rec.id);
        !(key in old(disk.snapshots) && old(disk.snapshots)[key].Stray?) && sourcePath !in old(disk.trees) ==>
          rec.error == Some(SourceMissing(sourcePath)) && key !in disk.snapshots
      ensures var key := Key(Full, rec.id);
        !(key in old(disk.snapshots) && old(disk.snapshots)[key].Stray?) && sourcePath in old(disk.trees)
        && !AllReadable(old(disk.trees)[sourcePath]) ==>
          var src := old(disk.trees)[sourcePath];
          && rec.error == Some(ReadErrors(UnreadableIn(src)))
          && key in disk.snapshots && disk.snapshots[key] == Snapshot(now, CopyTree(src, now))
      ensures ok ==> Key(Full, rec.id) in disk.snapshots
      ensures ok ==>
        var src := old(disk.trees)[sourcePath];
        && rec.files == Inventory(src)
        && rec.fileCount == |src|
        && rec.sizeBytes == SizeOf(src)
        && rec.duration == Some(duration)
        && disk.snapshots[Key(Full, rec.id)] == Snapshot(now, Sealed(checker, CopyTree(src, now), now))
    {
      var id := IdOrDefault(backupId, Full, clock);
      var key := Key(Full, id);
      rec := Record(id, Full, At(now), sourcePath, InProgress, 0, 0, None, map[], None);
      if key in disk.snapshots && disk.snapshots[key].Stray? {
        ok, rec := false, rec.(status := Failed, error := Some(NotADirectory(key)));
      } else if sourcePath !in disk.trees {
        OthersAfterRemove(disk.snapshots, key);
        disk.snapshots := disk.snapshots - {key};
        ok, rec := false, rec.(status := Failed, error := Some(SourceMissing(sourcePath)));
      } else {
        var unreadable, fileList, size := WriteCopy(key, disk.trees[sourcePath], now);
        if unreadable != {} {
          ok, rec := false, rec.(status := Failed, error := Some(ReadErrors(unreadable)));
        } else {
          rec := rec.(fileCount := |fileList|, sizeBytes := size, duration := Some(duration),
                      status := Completed, files := fileList);
          ok := true;
        }
      }
      Append(rec);
    }

    /**
     * The copy of a full backup once the source is known to exist:
     * `copytree` copies every readable file into the target and then raises
     * if some could not be read; otherwise the snapshot is sealed and its
     * inventory and size are returned.
     */
    method WriteCopy(key: Key, src: Dir, now: int)
      returns (unreadable: set<Path>, fileList: map<Path, FileMeta>, size: nat)
      modifies disk
      ensures disk.trees == old(disk.trees) && disk.history == old(disk.history)
      ensures disk.snapshots - {key} == old(disk.snapshots) - {key}
      ensures unreadable == {} <==> AllReadable(src)
      ensures unreadable != {} ==>
        && unreadable == UnreadableIn(src)
        && key in disk.snapshots && disk.snapshots[key] == Snapshot(now, CopyTree(src, now))
      ensures unreadable == {} ==>
        && fileList == Inventory(src)
        && size == SizeOf(src)
        && key in disk.snapshots
        && disk.snapshots[key] == Snapshot(now, Sealed(checker, CopyTree(src, now), now))
    {
      var copies := CopyTree(src, now);
      unreadable := UnreadableIn(src);
      fileList, size := map[], 0;
      if unreadable != {} {
        OthersAfterWrite(disk.snapshots, key, Snapshot(now, copies));
        disk.snapshots := disk.snapshots[key := Snapshot(now, copies)];
        assert !AllReadable(src) by {
          var p :| p in unreadable;
        }
      } else {
        forall p | p in src ensures Readable(src[p].content) {
          assert p !in unreadable;
        }
        assert copies == CopiesOf(src, now);
        fileList := GetFileList(copies);
        size := TotalSize(fileList);
        InventorySizeIsSize(src);
        OthersAfterWrite(disk.snapshots, key, Snapshot(now, Sealed(checker, copies, now)));
        WriteSealed(key, copies, now);
      }
    }

    /** The capture shared by incremental and differential backup, once the baseline is known. */
    method CaptureChanged(t: BackupType, baseline: int, sourcePath: string, id: string, now: int, duration: real)
      returns (ok: bool, rec: Record)
      requires Valid()
      modifies this, disk
      ensures Valid()
      ensures history == old(history) + [rec]
      ensures disk.history == Doc(history)
      ensures disk.trees == old(disk.trees)
      ensures rec.id == id && rec.btype == t && rec.timestamp == At(now) && rec.source == sourcePath
      ensures ok <==> rec.status == Completed
      ensures !ok ==> FailedAttempt(rec)
      ensures disk.snapshots - {Key(t, id)} == old(disk.snapshots) - {Key(t, id)}
      ensures var key := Key(t, id);
        var changed := Changed(TreeAt(old(disk.trees), sourcePath), baseline);
        ok <==> !(key in old(disk.snapshots) && old(disk.snapshots)[key].Stray?) && AllReadable(changed)
      ensures var key := Key(t, id);
        key in old(disk.snapshots) && old(disk.snapshots)[key].Stray? ==>
          rec.error == Some(NotADirectory(key)) && disk.snapshots == old(disk.snapshots)
      ensures var key := Key(t, id);
        var changed := Changed(TreeAt(old(disk.trees), sourcePath), baseline);
        !(key in old(disk.snapshots) && old(disk.snapshots)[key].Stray?) && !AllReadable(changed) ==>
          key in disk.snapshots && StoppedCapture(disk.snapshots[key], rec.error, changed, now)
      ensures ok ==> Key(t, id) in disk.snapshots
      ensures ok ==>
        var changed := Changed(TreeAt(old(disk.trees), sourcePath), baseline);
        && rec.files == Inventory(changed)
        && rec.fileCount == |changed|
        && rec.sizeBytes == SizeOf(changed)
        && rec.duration == Some(duration)
        && disk.snapshots[Key(t, id)] == Snapshot(now, Sealed(checker, CopiesOf(changed, now), now))
    {
      var key := Key(t, id);
      rec := Record(id, t, At(now), sourcePath, InProgress, 0, 0, None, map[], None);
      if key in disk.snapshots && disk.snapshots[key].Stray? {
        ok, rec := false, rec.(status := Failed, error := Some(NotADirectory(key)));
      } else {
        var failed, fileList, size := WriteChanged(key, TreeAt(disk.trees, sourcePath), baseline, now);
        if failed.Some? {
          ok, rec := false, rec.(status := Failed, error := Some(ReadErrors({failed.value})));
        } else {
          rec := rec.(fileCount := |fileList|, sizeBytes := size, duration := Some(duration),
                      status := Completed, files := fileList);
          ok := true;
        }
      }
      Append(rec);
    }

    /**
     * The walk of a capture, once the target is known not to be a stray
     * file: the changed files are copied into the target; a read error
     * leaves the copies made so far, otherwise the snapshot is sealed and
     * its inventory and size are returned.
     */
    method WriteChanged(key: Key, src: Dir, baseline: int, now: int)
      returns (failed: Option<Path>, fileList: map<Path, FileMeta>, size: nat)
      modifies disk
      ensures disk.trees == old(disk.trees) && disk.history == old(disk.history)
      ensures disk.snapshots - {key} == old(disk.snapshots) - {key}
      ensures failed.None? <==> AllReadable(Changed(src, baseline))
      ensures failed.None? ==>
        && fileList == Inventory(Changed(src, baseline))
        && size == SizeOf(Changed(src, baseline))
        && key in disk.snapshots
        && disk.snapshots[key] == Snapshot(now, Sealed(checker, CopiesOf(Changed(src, baseline), now), now))
      ensures failed.Some? ==>
        key in disk.snapshots && StoppedCapture(disk.snapshots[key], Some(ReadErrors({failed.value})), Changed(src, baseline), now)
    {
      var copies, copiedCount;
      copies, fileList, copiedCount, failed := CopyChanged(src, baseline, now);
      size := 0;
      if failed.Some? {
        assert StoppedCapture(Snapshot(now, copies), Some(ReadErrors({failed.value})), Changed(src, baseline), now);
        OthersAfterWrite(disk.snapshots, key, Snapshot(now, copies));
        disk.snapshots := disk.snapshots[key := Snapshot(now, copies)];
      } else {
        size := TotalSize(fileList);
        InventorySizeIsSize(Changed(src, baseline));
        assert AllReadable(copies);
        OthersAfterWrite(disk.snapshots, key, Snapshot(now, Sealed(checker, copies, now)));
        WriteSealed(key, copies, now);
      }
    }

    /** `incremental_backup`: the baseline is the last completed backup of any type. */
    method IncrementalBackup(sourcePath: string, backupId: Option<string>, clock: string, now: int, duration: real)
      returns (ok: bool, rec: Record)
      requires Valid()
      modifies this, disk
      ensures Valid()
      ensures history == old(history) + [rec]
      ensures disk.history == Doc(history)
      ensures disk.trees == old(disk.trees)
      ensures rec.id == IdOrDefault(backupId, Incremental, clock) && rec.btype == Incremental
      ensures rec.timestamp == At(now) && rec.source == sourcePath
      ensures ok <==> rec.status == Completed
      ensures !ok ==> FailedAttempt(rec)
      ensures disk.snapshots - {Key(Incremental, rec.id)} == old(disk.snapshots) - {Key(Incremental, rec.id)}
      ensures var key := Key(Incremental, rec.id);
        var changed := Changed(TreeAt(old(disk.trees), sourcePath), LastBackupTime(old(history), now));
        ok <==> !(key in old(disk.snapshots) && old(disk.snapshots)[key].Stray?) && AllReadable(changed)
      ensures var key := Key(Incremental, rec.id);
        key in old(disk.snapshots) && old(disk.snapshots)[key].Stray? ==>
          rec.error == Some(NotADirectory(key)) && disk.snapshots == old(disk.snapshots)
      ensures var key := Key(Incremental, rec.id);
        var changed := Changed(TreeAt(old(disk.trees), sourcePath), LastBackupTime(old(history), now));
        !(key in old(disk.snapshots) && old(disk.snapshots)[key].Stray?) && !AllReadable(changed) ==>
          key in disk.snapshots && StoppedCapture(disk.snapshots[key], rec.error, changed, now)
      ensures ok ==> Key(Incremental, rec.id) in disk.snapshots
      ensures ok ==>
        var changed := Changed(TreeAt(old(disk.trees), sourcePath), LastBackupTime(old(history), now));
        && rec.files == Inventory(changed)
        && rec.fileCount == |changed|
        && rec.sizeBytes == SizeOf(changed)
        && rec.duration == Some(duration)
        && disk.snapshots[Key(Incremental, rec.id)] == Snapshot(now, Sealed(checker, CopiesOf(changed, now), now))
    {
      var baseline := LastBackupTime(history, now);
      ok, rec := CaptureChanged(Incremental, baseline, sourcePath, IdOrDefault(backupId, Incremental, clock), now, duration);
    }

    /** `differential_backup`: the baseline is the last completed full backup. */
    method DifferentialBackup(sourcePath: string, backupId: Option<string>, clock: string, now: int, duration: real)
      returns (ok: bool, rec: Record)
      requires Valid()
      modifies this, disk
      ensures Valid()
      ensures history == old(history) + [rec]
      ensures disk.history == Doc(history)
      ensures disk.trees == old(disk.trees)
      ensures rec.id == IdOrDefault(backupId, Differential, clock) && rec.btype == Differential
      ensures rec.timestamp == At(now) && rec.source == sourcePath
      ensures ok <==> rec.status == Completed
      ensures !ok ==> FailedAttempt(rec)
      ensures disk.snapshots - {Key(Differential, rec.id)} == old(disk.snapshots) - {Key(Differential, rec.id)}
      ensures var key := Key(Differential, rec.id);
        var changed := Changed(TreeAt(old(disk.trees), sourcePath), LastFullBackupTime(old(history), now));
        ok <==> !(key in old(disk.snapshots) && old(disk.snapshots)[key].Stray?) && AllReadable(changed)
      ensures var key := Key(Differential, rec.id);
        key in old(disk.snapshots) && old(disk.snapshots)[key].Stray? ==>
          rec.error == Some(NotADirectory(key)) && disk.snapshots == old(disk.snapshots)
      ensures var key := Key(Differential, rec.id);
        var changed := Changed(TreeAt(old(disk.trees), sourcePath), LastFullBackupTime(old(history), now));
        !(key in old(disk.snapshots) && old(disk.snapshots)[key].Stray?) && !AllReadable(changed) ==>
          key in disk.snapshots && StoppedCapture(disk.snapshots[key], rec.error, changed, now)
      ensures ok ==> Key(Differential, rec.id) in disk.snapshots
      ensures ok ==>
        var changed := Changed(TreeAt(old(disk.trees), sourcePath), LastFullBackupTime(old(history), now));
        && rec.files == Inventory(changed)
        && rec.fileCount == |changed|
        && rec.sizeBytes == SizeOf(changed)
        && rec.duration == Some(duration)
        && disk.snapshots[Key(Differential, rec.id)] == Snapshot(now, Sealed(checker, CopiesOf(changed, now), now))
    {
      var baseline := LastFullBackupTime(history, now);
      ok, rec := CaptureChanged(Differential, baseline, sourcePath, IdOrDefault(backupId, Differential, clock), now, duration);
    }

    /** `get_backup_summary`: counts and sizes over the whole history, listed newest first. */
    method GetBackupSummary() returns (s: Summary)
      requires Valid()
      ensures s.totalBackups == |history|
      ensures s.totalSizeBytes == RecordsSize(history)
      ensures NewestFirst(s.backups)
      ensures multiset(s.backups) == multiset(SummaryEntries(history))
    {
      var entries: seq<SummaryEntry> := [];
      var total, size := 0, 0;
      var i := 0;
      while i < |history|
        invariant 0 <= i <= |history|
        invariant total == i
        invariant size == RecordsSize(history[..i])
        invariant entries == SummaryEntries(history[..i])
      {
        assert history[..i + 1][..i] == history[..i];
        entries := entries + [EntryOf(history[i])];
        total := total + 1;
        size := size + history[i].sizeBytes;
        i := i + 1;
      }
      assert history[..i] == history;
      s := Summary(total, size, SortNewestFirst(entries));
    }

    /**
     * `delete_all_backups`: removes the three type directories, then the
     * metadata directory, and empties the in-memory history. A removal
     * that raises (an area in `blocked`) stops there and returns false,
     * leaving what was already removed removed and the history as it was.
     */
    method DeleteAllBackups(blocked: set<Area>) returns (ok: bool)
      modifies this, disk
      ensures ok <==> blocked == {}
      ensures disk.trees == old(disk.trees)
      ensures ok ==> history == [] && disk.snapshots == map[] && disk.history == Absent
      ensures !ok ==> history == old(history) && disk.history == old(disk.history)
      ensures !ok ==> exists k :: StoppedAt(k, blocked) && disk.snapshots == Without(old(disk.snapshots), TypesBefore(k))
    {
      var k := 0;
      while k < |AreaOrder|
        invariant 0 <= k <= |AreaOrder|
        invariant forall j :: 0 <= j < k ==> AreaOrder[j] !in blocked
        invariant disk.snapshots == Without(old(disk.snapshots), TypesBefore(k))
        invariant disk.history == if k == 4 then Absent else old(disk.history)
        invariant disk.trees == old(disk.trees) && history == old(history)
      {
        if AreaOrder[k] in blocked {
          assert StoppedAt(k, blocked);
          return false;
        }
        if k < 3 {
          assert TypesBefore(k + 1) == TypesBefore(k) + {TypeOrder[k]};
          disk.snapshots := Without(disk.snapshots, {TypeOrder[k]});
        } else {
          disk.history := Absent;
        }
        k := k + 1;
      }
      forall a: Area ensures a !in blocked {
        match a
        case TypeArea(Full) => assert a == AreaOrder[0];
        case TypeArea(Incremental) => assert a == AreaOrder[1];
        case TypeArea(Differential) => assert a == AreaOrder[2];
        case MetadataArea => assert a == AreaOrder[3];
      }
      forall key: Key ensures key !in disk.snapshots {
        assert TypesBefore(4) == {Full, Incremental, Differential};
        assert key.btype.Full? || key.btype.Incremental? || key.btype.Differential?;
      }
      history := [];
      ok := true;
    }
  }

  /**
   * Building an engine: the history document is loaded, and a document
   * that is not valid JSON makes construction raise, so no engine exists
   * and the document is left as it is.
   */
  method OpenEngine(disk: Disk, checker: Option<Checker>, now: int) returns (r: Option<BackupEngine>)
    ensures r.None? <==> disk.history.Corrupt?
    ensures r.Some? ==> fresh(r.value) && r.value.Valid() && r.value.disk == disk && r.value.checker == checker
    ensures r.Some? ==> r.value.history == LoadHistory(disk.history, now).value
  {
    if disk.history.Corrupt? {
      return None;
    }
    var e := new BackupEngine(disk, checker, now);
    r := Some(e);
  }
}
