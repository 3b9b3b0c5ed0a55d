# Backup system core, modelled in Dafny

This project models the core of a file backup and restore system. The
system keeps snapshots under a backup root, one directory per snapshot at
`root/<type>/<id>`, where the type is `full`, `incremental` or
`differential`. Beside them it keeps a history document,
`.metadata/backup_history.json`, with one record per backup attempt.

- **IntegrityChecker** (`integrity.dfy`, module `Integrity`). It hashes
  every file of a snapshot into a `MANIFEST.json`. Later it verifies a
  directory against that manifest, sorting each entry into verified,
  corrupted or missing.
- **BackupEngine** (`engine.dfy`, module `Engine`). It takes full copies,
  incremental copies (files newer than the last completed backup) and
  differential copies (files newer than the last completed full backup).
  It appends a record of every attempt to its history and saves it. It
  also summarises the history and deletes every backup.
- **DisasterRecoveryManager** (`recovery.dfy`, module `Recovery`). It finds
  a snapshot by id and restores it into a destination, retrying each file
  copy up to three times. It overlays a list of increments on a full
  restore. It runs recovery drills in a scratch directory and derives the
  recovery point and recovery time objectives from the history.
- **VersionManager** (`retention.dfy`, module `Retention`). It deletes
  snapshot directories older than their type's retention span, gathers
  count and size statistics, and lists the chain of snapshots created
  after a full backup.

`fs.dfy` (module `Fs`) holds the shared vocabulary:

- a filesystem abstracted to maps from relative paths to file records
  (content, mtime, size, ctime);
- the entries of the backup root, each either a snapshot directory or a
  stray non-directory;
- the history records, and the history document, which is absent, present
  but not valid JSON, or a list of records;
- a `Disk` object that all four classes share and update in place.

Things outside the program become parameters:

- The hash function is a field of the checker, `Checker.digest`, applied
  to file content.
- The wall clock is an `int` of seconds (`now`), its formatted text is a
  `clock` string, and elapsed time is a `duration`.
- Transient copy failures are oracles: `faults(path, attempt)` for a
  restore and `incFaults(id, path)` for an increment.
- A removal that raises is a member of `locked` (one key) or `blocked`
  (one area).
- A file that cannot be opened has `Unreadable` content.

Some behaviours of the system are kept as they are, though a reader might
expect otherwise:

- A restore runs its integrity check on the snapshot, not on the restored
  destination.
- A restore that copies no file ends `CompletedWithWarnings`, not `Failed`.
- Copy errors of the increments in a chain restore are dropped, not
  reported.
- The recovery point is measured from the last completed record in list
  order, not from the newest one by time.
- The backup chain includes stray non-directory entries created after the
  full backup, since it does not check for directories.

## Model

| member | source | states |
|---|---|---|
| Integrity.AlgorithmNamed | backup_system/integrity_checker.py:12-17 | A name is accepted exactly when it is one of md5, sha1, sha256 or sha512, and the accepted algorithm carries that name back |
| Integrity.NewChecker | backup_system/integrity_checker.py:19-25 | No name gives sha256; a given name is accepted exactly when it is one of the four, and the checker then carries that algorithm and the given digest; any other name is refused with that name |
| Integrity.FileHash | backup_system/integrity_checker.py:27-42 | Hashing succeeds iff the file can be opened, gives the digest of its content, and otherwise raises naming that path |
| Integrity.CreateBackupManifest | backup_system/integrity_checker.py:44-75 | The manifest is produced iff every file is readable; it has one entry per file (hash, size, mtime), the checker's algorithm and the creation time, and is then written into the directory; on a read error nothing is written and the error names an unreadable file |
| Integrity.ReadManifest | backup_system/integrity_checker.py:87-89 | A manifest is obtained iff the manifest file exists and holds a manifest document, and it is then exactly the stored document |
| Integrity.Truncated | backup_system/integrity_checker.py:105-109 | A reported hash is a prefix of at most 16 characters of the real one followed by "..." |
| Integrity.VerifyBackupIntegrity | backup_system/integrity_checker.py:77-126 | Valid iff the manifest can be read and every entry is present, readable and hashes to its recorded value; total is the number of entries; with no read error the report is exactly the classification of every entry; an unreadable manifest gives zero counts; a read error part-way leaves counts that never exceed the full classification |
| Integrity.ClassifiedValid | backup_system/integrity_checker.py:93-112 | Without read errors, the verdict of the per-entry classification is valid iff the directory is intact against the manifest |
| Integrity.ClassificationPartitions | backup_system/integrity_checker.py:93-112 | Every manifest entry lands in exactly one of missing, corrupted or verified, so the three counts add up to the total |
| Integrity.ManifestRoundTrip | backup_system/integrity_checker.py:44-126 | Verifying a readable directory against the manifest just built from it reports it valid, with every entry verified and nothing missing or corrupted |
| Integrity.VerifyFileAgainstManifest | backup_system/integrity_checker.py:128-143 | A single-file check against a manifest entry passes iff the file's content hashes like the original; a file that is absent never passes |
| Integrity.VerifyFileDuringRestore | backup_system/integrity_checker.py:128-143 | The check passes iff the file exists, can be opened, and its digest equals the expected hash; an absent or unreadable file gives false instead of raising |
| Engine.DefaultIdsDiffer | backup_system/backup_engine.py:78-79 | Default ids carry their type as a prefix, so backups of two different types never get the same default id |
| Engine.LoadHistory | backup_system/backup_engine.py:31-43 | Loading fails exactly when the document is present but not valid JSON; no document gives an empty history; otherwise every record is kept in order with all its other fields, a parsed timestamp is kept, and a timestamp that does not parse becomes the load time |
| Engine.LastQualifying | backup_system/backup_engine.py:261-277 | The baseline scan finds the last completed record (of type full when only full ones count), and nothing when none qualifies |
| Engine.BaselineSkipsNonQualifying | backup_system/backup_engine.py:261-277 | Records appended after the history that do not qualify (not completed, or not full for the differential baseline) leave the baseline time unchanged |
| Engine.BaselineMovesToLast | backup_system/backup_engine.py:261-268 | A qualifying record appended last becomes the baseline, and its timestamp is the baseline time |
| Engine.LastBackupTime | backup_system/backup_engine.py:261-268 | The incremental baseline is the timestamp of the last completed record of any type, or one year before now when no record is completed |
| Engine.LastFullBackupTime | backup_system/backup_engine.py:270-277 | The differential baseline is the timestamp of the last completed full record, or one year before now when there is none |
| Engine.DifferentialsShareBaseline | backup_system/backup_engine.py:270-277 | Incremental and differential backups taken between two differentials do not move the differential baseline |
| Engine.ChangedGrows | backup_system/backup_engine.py:154-158 | Under a fixed baseline, a source tree that only gained files or had mtimes raised yields a superset of changed files |
| Engine.GetFileList | backup_system/backup_engine.py:60-74 | The walk inventories exactly the files of the directory, each with its mtime and size |
| Engine.TotalSize | backup_system/backup_engine.py:105 | The summed sizes equal the total size of the inventory |
| Engine.CopyChanged | backup_system/backup_engine.py:151-166 | The copy loop completes iff every file newer than the baseline is readable; it then copies exactly those files, inventories exactly them and counts them; otherwise it stops at an unreadable changed file, and what was copied so far is a subset of the changed files |
| Engine.SortNewestFirst | backup_system/backup_engine.py:305 | The summary list is ordered newest first and is a permutation of its input |
| Engine.BackupEngine.constructor | backup_system/backup_engine.py:17-29 | Given a document that loads, the engine starts with the history loaded from it |
| Engine.BackupEngine.SaveHistory | backup_system/backup_engine.py:45-58 | The whole in-memory history replaces the document; nothing else on disk changes |
| Engine.BackupEngine.Append | backup_system/backup_engine.py:115-116 | The record is appended to the history, and the document is saved to match it |
| Engine.BackupEngine.WriteSealed | backup_system/backup_engine.py:111-113 | The snapshot directory ends up holding the captured files, plus the manifest built from exactly those files when a checker is configured; no other snapshot, tree or history changes |
| Engine.BackupEngine.FullBackup | backup_system/backup_engine.py:77-130 | Exactly one record is appended and saved whatever the outcome, since saving the history never fails in the model; success holds iff no stray file sits at the target and the source exists and is fully readable; a stray target fails and changes nothing; a missing source fails and leaves no snapshot; unreadable source files fail the backup naming them all, with every readable file left copied at the target; a failed record has no counts, duration or inventory; on success the snapshot is a sealed copy of the source and the record inventories it, counts it, sums its sizes and carries the duration; no other snapshot changes |
| Engine.BackupEngine.WriteCopy | backup_system/backup_engine.py:95-113 | Once the source exists: the unreadable files are exactly those that fail the copy, and then the target holds copies of all the readable ones; otherwise the target is a sealed copy of the source, and its inventory and total size are returned; no other snapshot changes |
| Engine.BackupEngine.CaptureChanged | backup_system/backup_engine.py:145-194 | Exactly one record is appended and saved, since saving the history never fails in the model; success holds iff the target is no stray file and every changed file is readable; a stray target fails and changes nothing; an unreadable changed file fails the backup naming it, leaving a snapshot created now that holds copies of some changed files; a failed record has no counts, duration or inventory; on success the snapshot holds sealed copies of exactly the files newer than the baseline, and the record inventories them, counts them and carries the duration; no other snapshot changes |
| Engine.BackupEngine.WriteChanged | backup_system/backup_engine.py:147-179 | The walk completes iff every changed file is readable, and the target then holds sealed copies of exactly the changed files, with their inventory and total size returned; otherwise the target holds copies of some changed files and the error names an unreadable one; no other snapshot changes |
| Engine.BackupEngine.IncrementalBackup | backup_system/backup_engine.py:133-194 | The capture of CaptureChanged with the last completed backup of any type as baseline: success iff no stray target and every source file newer than that baseline is readable; the stray, read-error and success outcomes, the record, its duration and the partial snapshot are stated as for the capture |
| Engine.BackupEngine.DifferentialBackup | backup_system/backup_engine.py:197-258 | The capture of CaptureChanged with the last completed full backup as baseline: success iff no stray target and every source file newer than that baseline is readable; the stray, read-error and success outcomes, the record, its duration and the partial snapshot are stated as for the capture |
| Engine.BackupEngine.GetBackupSummary | backup_system/backup_engine.py:279-306 | The summary counts every record, sums all recorded sizes, and lists one entry per record, newest first |
| Engine.BackupEngine.DeleteAllBackups | backup_system/backup_engine.py:309-338 | Success holds iff no removal raises, and then there are no snapshots, no history document and an empty history; a removal that raises stops the sequence with the areas before it gone, and both the history and its document unchanged |
| Engine.OpenEngine | backup_system/backup_engine.py:17-43 | Building an engine fails exactly when the history document is present but not valid JSON, and then no engine exists and nothing on disk changes; otherwise a fresh engine holds the loaded history |
| Recovery.FindBackup | backup_system/disaster_recovery.py:348-359 | A found id exists under the returned type, and full is preferred over incremental over differential |
| Recovery.FindBackupNone | backup_system/disaster_recovery.py:348-359 | Nothing is found exactly when no type directory holds the id |
| Recovery.CopyWithRetry | backup_system/disaster_recovery.py:107-119 | At most three attempts are made, stopping at the first that succeeds; the copy succeeds iff the file is readable and some attempt does not fault |
| Recovery.RestorePartitions | backup_system/disaster_recovery.py:95-124 | Every restorable file is either restored or reported as an error, never both, and the two counts add up |
| Recovery.CopySnapshot | backup_system/disaster_recovery.py:95-124 | The copy loop restores exactly the restorable files whose copy succeeds, reports exactly the others, and counts the restored ones |
| Recovery.OverlayLastWriterWins | backup_system/disaster_recovery.py:198-219 | After a chain restore, a path holds the file of the last increment that wrote it, or the full restore's file when none did; no other path appears |
| Recovery.OverlayBounded | backup_system/disaster_recovery.py:196-216 | The files at the destination never outnumber the copies the chain counts |
| Recovery.LatestCompletedIsBaseline | backup_system/disaster_recovery.py:262-267 | The record the recovery point is measured from is the one the incremental baseline scan finds, and neither exists without a completed record |
| Recovery.ListAvailable | backup_system/disaster_recovery.py:26-52 | No document, or one that is not valid JSON, lists nothing; otherwise there is one listing per completed record, in history order |
| Recovery.ListedIffCompleted | backup_system/disaster_recovery.py:37-46 | Every completed record is listed, and every listing belongs to a completed record |
| Recovery.PositiveDurations | backup_system/disaster_recovery.py:298-302 | Every kept value is positive, there are no more values than records, and every positive recorded duration is kept |
| Recovery.PositivePositionsStep | backup_system/disaster_recovery.py:300-302 | The last record adds its position to the set of positions with a positive duration exactly when its own duration is positive |
| Recovery.PositiveDurationsCount | backup_system/disaster_recovery.py:298-302 | Exactly one value is kept per record whose duration is present and positive |
| Recovery.PositiveDurationsFromRecords | backup_system/disaster_recovery.py:298-302 | Every kept value is the duration of some record in the list |
| Recovery.PositiveDurationsAppend | backup_system/disaster_recovery.py:298-302 | The kept durations of a list are those of its first part followed by those of the rest, so their order and repetitions follow the records |
| Recovery.PositiveDurationsOne | backup_system/disaster_recovery.py:300-302 | A single record contributes its duration exactly when it is a positive number |
| Recovery.CalculateRpoRto | backup_system/disaster_recovery.py:244-346 | All metrics are non-negative; no document, one that is not valid JSON, or no completed record gives all zeros; otherwise the recovery point is the age of the last completed record, the recovery time is the mean positive duration of the last five, the frequency is the gap between the last two, and the analysis describes the last one |
| Recovery.MeanBetween | backup_system/disaster_recovery.py:304-305 | The mean of one to five durations lies between any lower and upper bound of them |
| Recovery.RtoNonNegative | backup_system/disaster_recovery.py:304-307 | The recovery time objective is never negative |
| Recovery.RtoWithinRecentDurations | backup_system/disaster_recovery.py:298-307 | The recovery time lies between the shortest and longest positive duration among the last five completed records |
| Recovery.RpoFollowsListOrder | backup_system/disaster_recovery.py:262-290 | The recovery point uses list order, not time order: for any history, a completed record followed only by records that are not completed is the one whose age is reported, even when an earlier record is newer |
| Recovery.DisasterRecoveryManager.constructor | backup_system/disaster_recovery.py:18-24 | The manager works on the given disk with the given optional checker |
| Recovery.DisasterRecoveryManager.RestoreFromBackup | backup_system/disaster_recovery.py:54-166 | A missing recovery id becomes `recovery_<clock>`; an unknown backup id fails with "not found" and changes nothing; otherwise the destination is replaced by the restored tree, copy errors are reported, and the restore succeeds iff some file was copied and the snapshot passes its integrity check; if not, it ends with warnings |
| Recovery.DisasterRecoveryManager.ApplyLayer | backup_system/disaster_recovery.py:204-219 | One increment writes its restorable, copyable files over the destination and counts each copy |
| Recovery.DisasterRecoveryManager.ApplyIncrements | backup_system/disaster_recovery.py:198-219 | Increments are applied in the caller's order; the destination ends as the base overlaid with their layers; an unknown id stops the loop with the layers before it applied |
| Recovery.DisasterRecoveryManager.RestoreIncrementalChain | backup_system/disaster_recovery.py:168-242 | A missing recovery id becomes `recovery_chain_<clock>`; the duration is recorded on every outcome, and a successful chain carries no error; a full restore that does not succeed fails the chain, leaving the destination untouched when the full id is unknown and replaced by the restored copy otherwise; after a successful full restore, success holds iff every increment id is found, and the destination is the full restore overlaid with every layer, counted per copy; an unknown id fails the chain naming it, with the earlier layers left in place |
| Recovery.DisasterRecoveryManager.SimulateDisasterRecovery | backup_system/disaster_recovery.py:361-421 | The drill passes iff the restore succeeds; it reports the restore's duration, and a file count of zero for an unknown id; the integrity block is present iff the drill passed with a checker and a snapshot manifest, and is valid iff the scratch copy is intact against that manifest; its verified and corrupted counts are those of classifying the scratch copy against the manifest, or zero when the manifest cannot be read; the scratch directory is always removed |
| Recovery.SealedSnapshotRestoresIntact | backup_system/disaster_recovery.py:381-393 | A snapshot sealed from readable files restores without faults to the same paths, and that copy passes the drill's integrity check |
| Retention.DefaultPolicyBoundaries | backup_system/version_manager.py:17-51 | Under the default policy an entry is removed iff it is a snapshot directory more than 7 (full), 1 (incremental) or 3 (differential) days old, so one exactly that old is kept and a stray file never goes |
| Retention.ExpiryMonotone | backup_system/version_manager.py:49-51 | A snapshot older than an expired one of the same type is expired too |
| Retention.LongerRetentionKeeps | backup_system/version_manager.py:33-37 | Keeping a type longer never removes more |
| Retention.DoomedIffExpired | backup_system/version_manager.py:39-63 | A retention pass removes an entry iff it is a snapshot directory created strictly before its type's cutoff and its removal does not fail |
| Retention.ThreePasses | backup_system/version_manager.py:39-63 | Running the three per-type passes in sequence removes what each would remove from the original state, and the bytes freed add up |
| Retention.SnapshotsByType | backup_system/version_manager.py:89-97 | Every snapshot directory is counted under exactly one type, so the per-type counts add up to the total |
| Retention.ExtremesStep | backup_system/version_manager.py:99-105 | Taking the minimum and maximum creation time at each step keeps the oldest and newest of the directories visited |
| Retention.BelowTransitive | backup_system/version_manager.py:145 | The name order used to sort listings is transitive |
| Retention.BelowTotal | backup_system/version_manager.py:145 | Any two distinct names are ordered one way or the other |
| Retention.AscendingUnique | backup_system/version_manager.py:145 | There is only one ascending listing of a given set of names |
| Retention.InsertName | backup_system/version_manager.py:145 | Inserting a name into an ascending listing keeps it ascending and adds exactly that name |
| Retention.SortNames | backup_system/version_manager.py:145 | Sorting yields an ascending listing of exactly the given names |
| Retention.SegmentUnique | backup_system/version_manager.py:139-154 | The chain segment of a type is determined by the backup root: there is only one |
| Retention.ChainTailUnique | backup_system/version_manager.py:139-154 | The part of the chain after the full entry is determined by the backup root |
| Retention.VersionManager.constructor | backup_system/version_manager.py:14-22 | A missing or empty policy falls back to 7 / 1 / 3 days and 12 months |
| Retention.VersionManager.DirectorySize | backup_system/version_manager.py:109-123 | The result is the sum of the sizes of all files beneath the directory |
| Retention.VersionManager.PruneType | backup_system/version_manager.py:39-63 | One type's pass removes exactly the expired, unlocked snapshot directories of that type, counts them and sums their sizes; nothing else changes |
| Retention.VersionManager.ApplyRetentionPolicy | backup_system/version_manager.py:24-71 | The backup root loses exactly the expired, removable snapshot directories; each type's count is the number removed of that type; the bytes freed are the total size of all removed ones |
| Retention.VersionManager.GetVersionStatistics | backup_system/version_manager.py:73-107 | Every snapshot directory, and no stray file, is counted under its type; the total is the sum of the per-type counts; the total size is summed over all of them; oldest and newest are the least and greatest creation times, or absent when there is none |
| Retention.VersionManager.GetVersionStatisticsAsWritten | backup_system/version_manager.py:99-105 | The statistics call fails exactly when the backup root holds two or more snapshot directories |
| Retention.VersionManager.ChainSegment | backup_system/version_manager.py:139-154 | One type's loop yields every entry of that type created strictly after the full backup, ascending by name, each with its creation time |
| Retention.VersionManager.GetBackupChain | backup_system/version_manager.py:125-160 | A missing full entry gives an empty chain; otherwise the full entry comes first, then the incremental and then the differential entries created strictly after it |

## Left out

- Logging, and every message text, is not modelled. Error strings become the `Failure` datatype.
- JSON serialisation and ISO-8601 parsing and formatting are not modelled. A stored timestamp is either an instant (`At`) or text that does not parse (`Garbled`). Timezone suffixes and their removal are not modelled.
- Time is whole seconds. `time.sleep` and the elapsed-time measurement are not modelled; durations come in as parameters.
- Sizes reported in MB (floating-point division by 1024 * 1024) are kept as byte counts.
- `calculate_directory_hash` is not modelled. No other core operation calls it.
- Default ids and default recovery ids: the formatted wall clock is a `clock` string parameter.
- The scratch directory of a drill is a parameter. Its default under the backup root is not modelled.
- The renamed-destination fallback of `restore_from_backup` is not modelled. `rmtree` runs with `ignore_errors=True`, so that branch cannot be reached.
- A removal that fails part-way through a tree is not modelled. Deleting a snapshot or an area either succeeds whole or raises.
- A history document that is valid JSON but holds no `backups` list is not modelled. The document is absent, not valid JSON, or a list of records.
- A type directory that does not exist is not modelled separately. It behaves as one with no entries.
- A policy dictionary that lacks one of its keys, which raises `KeyError`, is not modelled. The monthly retention value is carried but read by nothing.
- Engine.BackupEngine.FullBackup: the branch where writing the manifest raises is not modelled. `copytree` has already raised whenever a file is unreadable, so the hashing cannot fail.
- Engine.BackupEngine.Append: writing the history document never fails in the model. If `_save_history` raises after the success-path append (backup_engine.py:115-116, :181-182, :245-246), the source marks the same record failed and appends it a second time before the second save raises. Neither that duplicate record nor the exception is modelled.
- Engine.BackupEngine.FullBackup: writes into the backup root other than the copy itself, namely creating directories and writing the manifest and the history, never fail in the model. Only unreadable source files make it fail.
- Engine.BackupEngine.CaptureChanged: as for FullBackup, creating directories and writing the manifest and the history never fail in the model. Only an unreadable changed file makes the walk fail.
- Engine.SortNewestFirst: the contract does not state that entries with equal timestamps keep their order, as Python's stable sort does.
- Retention.VersionManager.ApplyRetentionPolicy: uses one `now` for all three cutoffs. The source reads the clock once per type.
- Retention.VersionManager.GetBackupChain: a chain timestamp is the creation time in seconds, not ISO text. An error while reading an entry's creation time is not modelled.
- The walk order of `os.walk` and `os.listdir` is left unspecified. The corrupted and missing lists of a verification report are kept as a map and a set, so their order is not modelled.

## Findings

| source | as written | input that shows it | evidently intended | confidence | as-written member | corrected member |
|---|---|---|---|---|---|---|
| backup_system/version_manager.py:101-105 | The oldest and newest marks are stored as ISO text (`isoformat()`), and the next snapshot directory's `datetime` is then compared with that text, which raises `TypeError` | A backup root holding two snapshot directories, e.g. `full/a` and `incremental/b` | `oldest_backup` and `newest_backup` are the least and greatest creation times of all snapshot directories | high, not executed | Retention.VersionManager.GetVersionStatisticsAsWritten | Retention.VersionManager.GetVersionStatistics |
