/**
 * The integrity checker: per-snapshot manifests of content hashes, and the
 * verification of a directory against such a manifest. The hash function
 * itself is uninterpreted: a checker carries it as a function of content.
 */
module Integrity {
  import opened Fs

  /** The algorithm names a checker accepts; the default is "sha256". */
  function AlgorithmName(a: Algorithm): string {
    match a
    case Md5 => "md5"
    case Sha1 => "sha1"
    case Sha256 => "sha256"
    case Sha512 => "sha512"
  }

  /** The algorithm used when none is named. */
  const DefaultAlgorithmName: string := "sha256"

  /** Looks a name up in the table of accepted algorithms. */
  function AlgorithmNamed(name: string): (r: Option<Algorithm>)
    ensures r.Some? ==> AlgorithmName(r.value) == name
    ensures r.None? <==> name !in {"md5", "sha1", "sha256", "sha512"}
  {
    if name == "md5" then Some(Md5)
    else if name == "sha1" then Some(Sha1)
    else if name == "sha256" then Some(Sha256)
    else if name == "sha512" then Some(Sha512)
    else None
  }

  lemma AlgorithmNameRoundTrip(a: Algorithm)
    ensures AlgorithmNamed(AlgorithmName(a)) == Some(a)
  {
  }

  /**
   * A configured checker: the chosen algorithm, its digest of a file's
   * content, and the byte length of a manifest's JSON rendering.
   */
  datatype Checker = Checker(algorithm: Algorithm, digest: Content -> string, encodedSize: Manifest -> nat)

  datatype ConfigError = UnknownAlgorithm(name: string)

  /**
   * Construction: no name means sha256; any name outside the four accepted
   * ones is refused.
   */
  function NewChecker(name: Option<string>, digest: Content -> string, encodedSize: Manifest -> nat): (r: Result<Checker, ConfigError>)
    ensures name.None? ==> r.Ok? && r.value.algorithm == Sha256
    ensures name.Some? ==> (r.Ok? <==> name.value in {"md5", "sha1", "sha256", "sha512"})
    ensures name.Some? && r.Ok? ==> AlgorithmName(r.value.algorithm) == name.value
    ensures r.Ok? ==> r.value.digest == digest && r.value.encodedSize == encodedSize
    ensures r.Err? ==> name.Some? && r.error == UnknownAlgorithm(name.value)
  {
    var chosen := if name.Some? then name.value else DefaultAlgorithmName;
    match AlgorithmNamed(chosen)
    case Some(a) => Ok(Checker(a, digest, encodedSize))
    case None => Err(UnknownAlgorithm(chosen))
  }

  /** The hash of one file; opening an unreadable file raises. */
  function FileHash(c: Checker, p: Path, f: FileRec): (r: Result<string, Failure>)
    ensures r.Ok? <==> Readable(f.content)
    ensures r.Ok? ==> r.value == c.digest(f.content)
    ensures r.Err? ==> r.error == ReadErrors({p})
  {
    if Readable(f.content) then Ok(c.digest(f.content)) else Err(ReadErrors({p}))
  }

  // ---------------------------------------------------------------------
  // Building a manifest
  // ---------------------------------------------------------------------

  /** The manifest entries of a directory: one per file, keyed by its relative path. */
  function EntriesOf(c: Checker, dir: Dir): (es: map<Path, ManifestEntry>)
    ensures es.Keys == dir.Keys
  {
    map p | p in dir :: ManifestEntry(c.digest(dir[p].content), dir[p].size, dir[p].mtime)
  }

  /** The manifest file as written next to the snapshot's files. */
  function ManifestFile(c: Checker, m: Manifest, now: int): FileRec {
    FileRec(ManifestDoc(m), now, c.encodedSize(m), now)
  }

  /**
   * `create_backup_manifest`: walks the directory, hashing every file, then
   * writes the manifest into it. A file that cannot be read stops the walk
   * and the error propagates; the manifest is then not written.
   */
  method CreateBackupManifest(c: Checker, dir: Dir, now: int) returns (r: Result<Manifest, Failure>, sealed: Dir)
    ensures r.Ok? <==> AllReadable(dir)
    ensures r.Ok? ==> r.value.algorithm == c.algorithm && r.value.created == now
    ensures r.Ok? ==> r.value.files.Keys == dir.Keys
    ensures r.Ok? ==> forall p :: p in dir ==>
      r.value.files[p] == ManifestEntry(c.digest(dir[p].content), dir[p].size, dir[p].mtime)
    ensures r.Ok? ==> r.value == Manifest(c.algorithm, now, EntriesOf(c, dir))
    ensures r.Ok? ==> sealed == dir[ManifestPath := ManifestFile(c, r.value, now)]
    ensures r.Err? ==> sealed == dir && r.error.ReadErrors?
    ensures r.Err? ==> exists p :: p in dir && !Readable(dir[p].content) && r.error.paths == {p}
  {
    var files: map<Path, ManifestEntry> := map[];
    var todo := dir.Keys;
    while todo != {}
      invariant todo <= dir.Keys
      invariant files.Keys == dir.Keys - todo
      invariant forall p :: p in files ==>
        (Readable(dir[p].content) && files[p] == ManifestEntry(c.digest(dir[p].content), dir[p].size, dir[p].mtime))
      decreases |todo|
    {
      var p :| p in todo;
      todo := todo - {p};
      var h := FileHash(c, p, dir[p]);
      if h.Err? {
        r, sealed := Err(h.error), dir;
        return;
      }
      files := files[p := ManifestEntry(h.value, dir[p].size, dir[p].mtime)];
    }
    assert files == EntriesOf(c, dir);
    var m := Manifest(c.algorithm, now, files);
    r, sealed := Ok(m), dir[ManifestPath := ManifestFile(c, m, now)];
  }

  /** Opening and parsing the manifest file: absent or not a manifest document gives None. */
  function ReadManifest(f: Option<FileRec>): (r: Option<Manifest>)
    ensures r.Some? <==> f.Some? && f.value.content.ManifestDoc?
    ensures r.Some? ==> r.value == f.value.content.manifest
  {
    match f
    case None => None
    case Some(g) => if g.content.ManifestDoc? then Some(g.content.manifest) else None
  }

  /** The manifest file of a directory, if it holds one. */
  function ManifestOfDir(dir: Dir): Option<Manifest> {
    ReadManifest(if ManifestPath in dir then Some(dir[ManifestPath]) else None)
  }

  // ---------------------------------------------------------------------
  // Verifying a directory against a manifest
  // ---------------------------------------------------------------------

  /** What a corrupted entry reports: both hashes cut to 16 characters, then "...". */
  function Truncated(h: string): (t: string)
    ensures |t| == (if |h| < 16 then |h| else 16) + 3
    ensures t[..|t| - 3] <= h
    ensures t[|t| - 3..] == "..."
  {
    (if |h| <= 16 then h else h[..16]) + "..."
  }

  datatype Mismatch = Mismatch(expected: string, actual: string)

  /**
   * The verification report. The lists of the source become a set of
   * missing paths and a map from corrupted path to its mismatch.
   */
  datatype Report = Report(valid: bool, total: nat, verified: nat, corrupted: map<Path, Mismatch>, missing: set<Path>)

  /** Every manifest entry is present, readable and hashes to the recorded value. */
  ghost predicate Intact(c: Checker, dir: Dir, files: map<Path, ManifestEntry>) {
    forall p :: p in files ==>
      p in dir && Readable(dir[p].content) && c.digest(dir[p].content) == files[p].hash
  }

  /** No present manifest entry makes hashing raise. */
  ghost predicate NoReadError(dir: Dir, files: map<Path, ManifestEntry>) {
    forall p :: p in files && p in dir ==> Readable(dir[p].content)
  }

  ghost function MissingAmong(dir: Dir, files: map<Path, ManifestEntry>, ks: set<Path>): set<Path> {
    set p | p in ks && p in files && p !in dir
  }

  ghost function VerifiedAmong(c: Checker, dir: Dir, files: map<Path, ManifestEntry>, ks: set<Path>): set<Path> {
    set p | p in ks && p in files && p in dir && c.digest(dir[p].content) == files[p].hash
  }

  ghost function CorruptedAmong(c: Checker, dir: Dir, files: map<Path, ManifestEntry>, ks: set<Path>): map<Path, Mismatch> {
    map p | p in ks && p in files && p in dir && c.digest(dir[p].content) != files[p].hash
      :: Mismatch(Truncated(files[p].hash), Truncated(c.digest(dir[p].content)))
  }

  /** The report of a verification in which no file raised: each entry classified once. */
  ghost function Classified(c: Checker, dir: Dir, m: Manifest): Report {
    var ks := m.files.Keys;
    var missing := MissingAmong(dir, m.files, ks);
    var corrupted := CorruptedAmong(c, dir, m.files, ks);
    Report(missing == {} && corrupted == map[], |m.files|, |VerifiedAmong(c, dir, m.files, ks)|, corrupted, missing)
  }

  /**
   * `verify_backup_integrity`. An unreadable or malformed manifest gives
   * `(false, report)` with zero counts; an entry whose file is absent is
   * missing (and never hashed); a present entry with another hash is
   * corrupted; an equal hash counts as verified. A file that raises while
   * being hashed ends the walk with `valid` false and the counts so far.
   */
  method VerifyBackupIntegrity(c: Checker, dir: Dir, manifest: Option<Manifest>) returns (valid: bool, report: Report)
    ensures valid == report.valid
    ensures valid <==> manifest.Some? && Intact(c, dir, manifest.value.files)
    ensures manifest.None? ==> report == Report(false, 0, 0, map[], {})
    ensures manifest.Some? ==> report.total == |manifest.value.files|
    ensures manifest.Some? && NoReadError(dir, manifest.value.files) ==> report == Classified(c, dir, manifest.value)
    ensures manifest.Some? ==>
      var ks := manifest.value.files.Keys;
      && report.missing <= MissingAmong(dir, manifest.value.files, ks)
      && report.corrupted.Keys <= CorruptedAmong(c, dir, manifest.value.files, ks).Keys
      && report.verified <= |VerifiedAmong(c, dir, manifest.value.files, ks)|
  {
    if manifest.None? {
      return false, Report(false, 0, 0, map[], {});
    }
    var files := manifest.value.files;
    var total := |files|;
    var verified := 0;
    var missing: set<Path> := {};
    var corrupted: map<Path, Mismatch> := map[];
    valid := true;
    var todo := files.Keys;
    while todo != {}
      invariant todo <= files.Keys
      invariant missing == MissingAmong(dir, files, files.Keys - todo)
      invariant corrupted == CorruptedAmong(c, dir, files, files.Keys - todo)
      invariant verified == |VerifiedAmong(c, dir, files, files.Keys - todo)|
      invariant valid <==> missing == {} && corrupted == map[]
      invariant forall p :: p in files && p !in todo && p in dir ==> Readable(dir[p].content)
      decreases |todo|
    {
      var p :| p in todo;
      ghost var done := files.Keys - todo;
      todo := todo - {p};
      assert files.Keys - todo == done + {p};
      WalkStep(c, dir, files, done, p);
      if p !in dir {
        missing := missing + {p};
        valid := false;
        assert p in missing;
        continue;
      }
      var h := FileHash(c, p, dir[p]);
      if h.Err? {
        MonotoneAmong(c, dir, files, done, files.Keys);
        assert !Intact(c, dir, files) by { assert p in files; }
        valid := false;
        report := Report(false, total, verified, corrupted, missing);
        return;
      }
      var expected := files[p].hash;
      if h.value != expected {
        corrupted := corrupted[p := Mismatch(Truncated(expected), Truncated(h.value))];
        valid := false;
        assert p in corrupted;
      } else {
        verified := verified + 1;
      }
    }
    assert files.Keys - todo == files.Keys;
    ClassifiedValid(c, dir, manifest.value);
    report := Report(valid, total, verified, corrupted, missing);
  }

  /** One step of the walk: entry `p` joins exactly one of the three classes. */
  lemma WalkStep(c: Checker, dir: Dir, files: map<Path, ManifestEntry>, done: set<Path>, p: Path)
    requires p in files && p !in done
    ensures MissingAmong(dir, files, done + {p}) ==
      if p !in dir then MissingAmong(dir, files, done) + {p} else MissingAmong(dir, files, done)
    ensures CorruptedAmong(c, dir, files, done + {p}) ==
      if p in dir && c.digest(dir[p].content) != files[p].hash
      then CorruptedAmong(c, dir, files, done)[p := Mismatch(Truncated(files[p].hash), Truncated(c.digest(dir[p].content)))]
      else CorruptedAmong(c, dir, files, done)
    ensures |VerifiedAmong(c, dir, files, done + {p})| ==
      if p in dir && c.digest(dir[p].content) == files[p].hash
      then |VerifiedAmong(c, dir, files, done)| + 1
      else |VerifiedAmong(c, dir, files, done)|
  {
    var v := VerifiedAmong(c, dir, files, done);
    if p in dir && c.digest(dir[p].content) == files[p].hash {
      assert VerifiedAmong(c, dir, files, done + {p}) == v + {p};
      assert p !in v;
    } else {
      assert VerifiedAmong(c, dir, files, done + {p}) == v;
    }
  }

  /** The classification sets only grow with the set of walked keys. */
  lemma MonotoneAmong(c: Checker, dir: Dir, files: map<Path, ManifestEntry>, ks: set<Path>, ks': set<Path>)
    requires ks <= ks'
    ensures MissingAmong(dir, files, ks) <= MissingAmong(dir, files, ks')
    ensures CorruptedAmong(c, dir, files, ks).Keys <= CorruptedAmong(c, dir, files, ks').Keys
    ensures |VerifiedAmong(c, dir, files, ks)| <= |VerifiedAmong(c, dir, files, ks')|
  {
    assert VerifiedAmong(c, dir, files, ks) <= VerifiedAmong(c, dir, files, ks');
    SubsetCardinality(VerifiedAmong(c, dir, files, ks), VerifiedAmong(c, dir, files, ks'));
  }

  /** Without read errors, "valid" (both lists empty) is exactly "intact". */
  lemma ClassifiedValid(c: Checker, dir: Dir, m: Manifest)
    requires NoReadError(dir, m.files)
    ensures Classified(c, dir, m).valid <==> Intact(c, dir, m.files)
  {
    var ks := m.files.Keys;
    if !Intact(c, dir, m.files) {
      var p :| p in m.files && !(p in dir && Readable(dir[p].content) && c.digest(dir[p].content) == m.files[p].hash);
      if p !in dir {
        assert p in MissingAmong(dir, m.files, ks);
      } else {
        assert p in CorruptedAmong(c, dir, m.files, ks);
      }
    }
  }

  /**
   * Each manifest entry lands in exactly one of missing, corrupted or
   * verified, so the three counts add up to the total.
   */
  lemma ClassificationPartitions(c: Checker, dir: Dir, m: Manifest)
    ensures var r := Classified(c, dir, m);
      r.verified + |r.missing| + |r.corrupted| == r.total
  {
    var ks := m.files.Keys;
    var mi := MissingAmong(dir, m.files, ks);
    var cm := CorruptedAmong(c, dir, m.files, ks);
    var ve := VerifiedAmong(c, dir, m.files, ks);
    var present := set p | p in ks && p in dir;
    MissingAreAbsent(dir, m.files, present);
    PresentSplit(c, dir, m.files, present);
    DisjointUnionCardinality(cm.Keys, ve);
    DisjointUnionCardinality(mi, present);
    assert |cm| == |cm.Keys|;
  }

  lemma MissingAreAbsent(dir: Dir, files: map<Path, ManifestEntry>, present: set<Path>)
    requires present == set p | p in files.Keys && p in dir
    ensures MissingAmong(dir, files, files.Keys) !! present
    ensures MissingAmong(dir, files, files.Keys) + present == files.Keys
  {
  }

  lemma PresentSplit(c: Checker, dir: Dir, files: map<Path, ManifestEntry>, present: set<Path>)
    requires present == set p | p in files.Keys && p in dir
    ensures CorruptedAmong(c, dir, files, files.Keys).Keys !! VerifiedAmong(c, dir, files, files.Keys)
    ensures CorruptedAmong(c, dir, files, files.Keys).Keys + VerifiedAmong(c, dir, files, files.Keys) == present
  {
    var cm := CorruptedAmong(c, dir, files, files.Keys);
    forall p | p in present
      ensures p in cm.Keys + VerifiedAmong(c, dir, files, files.Keys)
    {
      if c.digest(dir[p].content) != files[p].hash {
        assert p in cm;
      }
    }
  }

  /**
   * Round trip: verifying a directory against the manifest just built from
   * it (after the manifest file was written into it) reports it valid, with
   * every entry verified.
   */
  lemma ManifestRoundTrip(c: Checker, dir: Dir, now: int)
    requires AllReadable(dir)
    requires ManifestPath !in dir
    ensures var m := Manifest(c.algorithm, now, EntriesOf(c, dir));
      var sealed := dir[ManifestPath := ManifestFile(c, m, now)];
      && Intact(c, sealed, m.files)
      && Classified(c, sealed, m) == Report(true, |dir|, |dir|, map[], {})
  {
    var m := Manifest(c.algorithm, now, EntriesOf(c, dir));
    var sealed := dir[ManifestPath := ManifestFile(c, m, now)];
    var ks := m.files.Keys;
    assert MissingAmong(sealed, m.files, ks) == {};
    assert CorruptedAmong(c, sealed, m.files, ks) == map[];
    assert VerifiedAmong(c, sealed, m.files, ks) == dir.Keys;
  }

  /** `verify_file_during_restore`: true iff the file can be hashed and the hash is the expected one. */
  function VerifyFileDuringRestore(c: Checker, p: Path, f: Option<FileRec>, expected: string): (ok: bool)
    ensures ok <==> f.Some? && Readable(f.value.content) && c.digest(f.value.content) == expected
  {
    match f
    case None => false
    case Some(g) =>
      match FileHash(c, p, g)
      case Ok(h) => h == expected
      case Err(_) => false
  }

  /**
   * A faithful copy of a manifest entry's file verifies against that
   * entry; a copy of a file whose bytes changed after sealing does not,
   * unless the two contents hash alike.
   */
  lemma VerifyFileAgainstManifest(c: Checker, dir: Dir, p: Path, g: FileRec)
    requires p in dir && Readable(g.content)
    ensures VerifyFileDuringRestore(c, p, Some(g), EntriesOf(c, dir)[p].hash)
      <==> c.digest(g.content) == c.digest(dir[p].content)
    ensures !VerifyFileDuringRestore(c, p, None, EntriesOf(c, dir)[p].hash)
  {
  }
}
