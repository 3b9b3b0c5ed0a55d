/**
 * The abstract filesystem the backup system works on, and the values it
 * stores: file records, snapshot directories under the backup root, the
 * integrity manifest document and the backup history document.
 */
module Fs {

  /** A path relative to some directory, as its list of components. */
  type Path = seq<string>

  /** The last component of a path (what `os.walk` hands out as a file name). */
  function BaseName(p: Path): string {
    if p == [] then "" else p[|p| - 1]
  }

  /** Reserved name of the manifest written inside every sealed snapshot. */
  const ManifestName: string := "MANIFEST.json"
  const ManifestPath: Path := [ManifestName]

  /** Seconds in a day and in the one-year sentinel baseline. */
  const DaySeconds: int := 86400
  const YearSeconds: int := 365 * 86400

  datatype Algorithm = Md5 | Sha1 | Sha256 | Sha512

  /** One manifest entry: the content hash, size and modification time of a file. */
  datatype ManifestEntry = ManifestEntry(hash: string, size: nat, modified: int)

  /** The manifest document: algorithm, creation time and one entry per relative path. */
  datatype Manifest = Manifest(algorithm: Algorithm, created: int, files: map<Path, ManifestEntry>)

  /**
   * What reading a file yields: ordinary bytes, a permission error (the file
   * can be listed and stat-ed but not opened), or a manifest document.
   */
  datatype Content = Bytes(data: seq<bv8>) | Unreadable | ManifestDoc(manifest: Manifest)

  predicate Readable(c: Content) {
    !c.Unreadable?
  }

  /** A regular file: its content, modification time, size and change time. */
  datatype FileRec = FileRec(content: Content, mtime: int, size: nat, ctime: int)

  /** A directory tree, flattened to its regular files. */
  type Dir = map<Path, FileRec>

  /** `shutil.copy2`: content and mtime are preserved, the new inode gets ctime `now`. */
  function Copied(f: FileRec, now: int): (g: FileRec)
    ensures g.content == f.content && g.mtime == f.mtime && g.size == f.size && g.ctime == now
  {
    FileRec(f.content, f.mtime, f.size, now)
  }

  predicate AllReadable(d: Dir) {
    forall p :: p in d ==> Readable(d[p].content)
  }

  datatype BackupType = Full | Incremental | Differential

  /** The order in which the three type directories are visited everywhere in the core. */
  const TypeOrder: seq<BackupType> := [Full, Incremental, Differential]

  /** `root/<type>/<id>` */
  datatype Key = Key(btype: BackupType, id: string)

  /** What sits at `root/<type>/<id>`: a snapshot directory, or a stray non-directory. */
  datatype Entry =
    | Snapshot(ctime: int, files: Dir)
    | Stray(file: FileRec)
  {
    function Ctime(): int {
      match this
      case Snapshot(c, _) => c
      case Stray(f) => f.ctime
    }
  }

  /** A history timestamp: a parsed instant in seconds, or text that does not parse. */
  datatype Stamp = At(seconds: int) | Garbled

  datatype Status = InProgress | Completed | CompletedWithWarnings | Failed

  /** The causes of failure the core records as an error string. */
  datatype Failure =
    | SourceMissing(path: string)
    | ReadErrors(paths: set<Path>)
    | NotADirectory(key: Key)
    | BackupNotFound(id: string)
    | FullRestoreFailed
    | IncrementNotFound(id: string)
    | RemovalFailed

  /** The per-file metadata a history record keeps. */
  datatype FileMeta = FileMeta(modified: int, size: nat)

  /**
   * One backup attempt. Counts missing from the stored document read as 0,
   * as every reader in the core uses `.get(..., 0)`; `duration` is absent
   * (None) on a record that failed before its counts were filled in.
   */
  datatype Record = Record(
    id: string,
    btype: BackupType,
    timestamp: Stamp,
    source: string,
    status: Status,
    fileCount: nat,
    sizeBytes: nat,
    duration: Option<real>,
    files: map<Path, FileMeta>,
    error: Option<Failure>)

  datatype Option<+T> = None | Some(value: T)

  /**
   * The history document as found on disk: absent, present but not a
   * readable JSON document, or a document holding a list of records.
   */
  datatype HistoryDoc = Absent | Corrupt | Doc(records: seq<Record>)

  datatype Result<+T, +E> = Ok(value: T) | Err(error: E)

  /** The inventory a history record keeps of a directory: mtime and size per path. */
  function Inventory(d: Dir): (fl: map<Path, FileMeta>)
    ensures fl.Keys == d.Keys
    ensures forall p :: p in d ==> fl[p] == FileMeta(d[p].mtime, d[p].size)
  {
    map p | p in d :: FileMeta(d[p].mtime, d[p].size)
  }

  /**
   * The machine's filesystem as the core sees it: the entries under the
   * backup root, the directories outside it (sources and restore targets)
   * keyed by path, and the history document.
   */
  class Disk {
    var snapshots: map<Key, Entry>
    var trees: map<string, Dir>
    var history: HistoryDoc

    constructor (snapshots: map<Key, Entry>, trees: map<string, Dir>, history: HistoryDoc)
      ensures this.snapshots == snapshots && this.trees == trees && this.history == history
    {
      this.snapshots := snapshots;
      this.trees := trees;
      this.history := history;
    }
  }

  /**
   * The tree found at a path outside the backup root (what `os.walk` sees
   * there): nothing when the path does not exist.
   */
  function TreeAt(trees: map<string, Dir>, path: string): Dir {
    if path in trees then trees[path] else map[]
  }

  /** Writing or removing entry `k` leaves the rest of a map as it was. */
  lemma OthersAfterWrite<K, V>(m: map<K, V>, k: K, v: V)
    ensures m[k := v] - {k} == m - {k}
  {
  }

  /** Removing one more key, one at a time or together with the others. */
  lemma RemoveOneMore<K, V>(m: map<K, V>, s: set<K>, k: K)
    ensures m - s - {k} == m - (s + {k})
  {
  }

  /** A second write to the same key replaces the first. */
  lemma WriteTwice<K, V>(m: map<K, V>, k: K, v: V, w: V)
    ensures m[k := v][k := w] == m[k := w]
  {
  }

  lemma OthersAfterRemove<K, V>(m: map<K, V>, k: K)
    ensures (m - {k}) - {k} == m - {k}
  {
  }

  // ---------------------------------------------------------------------
  // Sums over finite maps (directory sizes, bytes freed, record sizes)
  // ---------------------------------------------------------------------

  /** The sum of the values of a finite map. */
  ghost function SumOf<K>(m: map<K, nat>): nat
    decreases |m|
  {
    if m == map[] then 0
    else
      var k :| k in m;
      assert |m - {k}| < |m| by { assert (m - {k}).Keys == m.Keys - {k}; }
      m[k] + SumOf(m - {k})
  }

  /** Any key can be taken out first: the sum does not depend on the order of the walk. */
  lemma {:induction false} SumOfRemove<K>(m: map<K, nat>, k: K)
    requires k in m
    ensures SumOf(m) == m[k] + SumOf(m - {k})
    decreases |m|
  {
    var j :| j in m && SumOf(m) == m[j] + SumOf(m - {j});
    if j != k {
      assert (m - {j}).Keys == m.Keys - {j};
      assert (m - {k}).Keys == m.Keys - {k};
      SumOfRemove(m - {j}, k);
      SumOfRemove(m - {k}, j);
      assert m - {j} - {k} == m - {k} - {j};
    }
  }

  /** Adding a fresh key adds its value to the sum. */
  lemma SumOfAdd<K>(m: map<K, nat>, k: K, v: nat)
    requires k !in m
    ensures SumOf(m[k := v]) == SumOf(m) + v
  {
    SumOfRemove(m[k := v], k);
    assert m[k := v] - {k} == m;
  }

  lemma RemoveShrinks<K, V>(m: map<K, V>, k: K)
    requires k in m
    ensures |m - {k}| < |m|
  {
    assert (m - {k}).Keys == m.Keys - {k};
  }

  lemma UnionMinus<K, V>(a: map<K, V>, b: map<K, V>, k: K)
    requires k !in a
    ensures (a + b) - {k} == a + (b - {k})
  {
  }

  /** Sums add up over maps with disjoint keys. */
  lemma {:induction false} SumOfDisjoint<K>(a: map<K, nat>, b: map<K, nat>)
    requires a.Keys !! b.Keys
    ensures SumOf(a + b) == SumOf(a) + SumOf(b)
    decreases |b|
  {
    if b == map[] {
      assert a + b == a;
    } else {
      var k :| k in b;
      var rest := b - {k};
      RemoveShrinks(b, k);
      UnionMinus(a, b, k);
      SumOfRemove(a + b, k);
      SumOfDisjoint(a, rest);
      SumOfRemove(b, k);
    }
  }

  /** The sum of the sizes of all files of a directory. */
  ghost function SizeOf(d: Dir): nat {
    SumOf(map p | p in d :: d[p].size)
  }

  /** The sum of the sizes kept in an inventory. */
  ghost function InventorySize(fl: map<Path, FileMeta>): nat {
    SumOf(map p | p in fl :: fl[p].size)
  }

  lemma InventorySizeIsSize(d: Dir)
    ensures InventorySize(Inventory(d)) == SizeOf(d)
  {
    assert (map p | p in Inventory(d) :: Inventory(d)[p].size) == (map p | p in d :: d[p].size);
  }

  // ---------------------------------------------------------------------
  // Cardinalities of finite sets
  // ---------------------------------------------------------------------

  lemma SubsetCardinality<T>(a: set<T>, b: set<T>)
    requires a <= b
    ensures |a| <= |b|
  {
    assert b == a + (b - a);
  }

  lemma DisjointUnionCardinality<T>(a: set<T>, b: set<T>)
    requires a !! b
    ensures |a + b| == |a| + |b|
  {
    assert (a + b) - a == b;
  }

  lemma UnionCardinality<T>(a: set<T>, b: set<T>)
    ensures |a + b| <= |a| + |b|
  {
    DisjointUnionCardinality(a, b - a);
    assert a + (b - a) == a + b;
    SubsetCardinality(b - a, b);
  }
}
