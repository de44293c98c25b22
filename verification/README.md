# checkerPY snapshot diff, modelled in Dafny

checkerPY hashes every file under a directory and compares the result with a
snapshot saved by an earlier run. It reports each file as modified, added or
deleted. It saves the new snapshot only when something changed. This project
models the pure core of that loop:

- `Snapshots` (`snapshots.dfy`): paths and hashes as opaque strings, the
  path-to-hash snapshot, the run's errors, and the store. Loading an absent
  store gives the empty snapshot.
- `Differ` (`differ.dfy`): `compare_hashes`. `Classifies` states, path by
  path, what a correct report is. `CompareHashes` follows the source's two
  loops. `Diff` is the same report as one pure value. `Patch` and `Revert`
  rebuild either snapshot from the other one and the report.
- `Scanner` (`scanner.dfy`): the loop that collects hashing results in the
  order `as_completed` yields them. The first task in that order that cannot
  read its file aborts the whole scan with that file's error.
- `Checker` (`checker.dfy`): one run of `main`. It loads the baseline, scans,
  compares, and saves only if the report is non-empty. It also holds the
  concrete first-run, no-op, mixed, deletion and failure scenarios.

Task outcomes arrive as a sequence in the order `as_completed` yields them:
first the tasks already finished when the loop starts, in an unspecified
order, then the others as they finish. That order is a parameter. The store is a value (`Absent`, `Present(s)` or
`Corrupt`), not a file.

## Model

| member | source | states |
|---|---|---|
| Snapshots.Load | checkerPY/z_checker.py:39-44 | A missing store loads as the empty snapshot. A saved one loads as itself. Only an unparseable store fails. |
| Snapshots.Save | checkerPY/z_checker.py:34-37 | Loading after a save gives back exactly the saved snapshot. |
| Differ.HasChanges | checkerPY/z_checker.py:106 | The report counts as a change exactly when some path is filed in some category. Together with `NoChangesIffEqual`, the save test is equivalent to the two snapshots differing. |
| Differ.Diff | checkerPY/z_checker.py:46-61 | The report files every changed path under its one category with the right hashes, and files nothing else. |
| Differ.CompareHashes | checkerPY/z_checker.py:46-61 | The pass over the new snapshot and then the old one yields a correct report. It equals `Diff` for all inputs. |
| Differ.ClassifiesUnique | checkerPY/z_checker.py:46-61 | Two correct reports of the same pair of snapshots are equal, so the report is determined by the snapshots. |
| Differ.CategoriesDisjoint | checkerPY/z_checker.py:50-59 | The key sets of modified, added and deleted are pairwise disjoint. |
| Differ.CategoriesCoverChanges | checkerPY/z_checker.py:50-59 | The three key sets together are exactly the paths whose presence or hash differs. A path with an unchanged hash is in none of them. |
| Differ.NoChangesIffEqual | checkerPY/z_checker.py:46-61 | The report is empty if and only if the two snapshots are equal. |
| Differ.FirstRun | checkerPY/z_checker.py:50-55 | Against an empty baseline, added is the whole new snapshot and the other two categories are empty. |
| Differ.EverythingDeleted | checkerPY/z_checker.py:57-59 | Against an empty scan, deleted is the whole old snapshot and the other two categories are empty. |
| Differ.PatchGivesNew | checkerPY/z_checker.py:46-61 | Applying the report to the old snapshot rebuilds the new snapshot exactly. |
| Differ.RevertGivesOld | checkerPY/z_checker.py:46-61 | Undoing the report on the new snapshot rebuilds the old snapshot exactly. |
| Scanner.Collect | checkerPY/z_checker.py:28-30 | Inserting results gives exactly the previous keys plus the submitted paths. Entries for paths not submitted keep their values. |
| Scanner.CollectLastWins | checkerPY/z_checker.py:28-30 | Last write wins: a result whose path no later result names is the entry stored under that path. |
| Scanner.CollectHasEntry | checkerPY/z_checker.py:28-30 | With distinct paths, each submitted path maps to the hash submitted with it. |
| Scanner.CollectOrderIndependent | checkerPY/z_checker.py:28-30 | With distinct paths, every permutation of the results builds the same snapshot. |
| Scanner.ScanFrom | checkerPY/z_checker.py:28-30 | The scan succeeds if and only if every task hashed its file. On success it is the fold of the results. On failure it carries the path of the first failed task in the order the outcomes are yielded. |
| Scanner.Scan | checkerPY/z_checker.py:28-32 | As `ScanFrom` from the empty snapshot. A successful scan's keys are exactly the paths of its tasks. |
| Scanner.ScanOrderIndependent | checkerPY/z_checker.py:28-30 | With one task per file, the order the outcomes are yielded in changes neither whether the scan fails nor the snapshot it builds. |
| Checker.Run | checkerPY/z_checker.py:99-107 | A corrupt baseline is reported before any scan failure. Otherwise a failed scan reports the scan's own error. A successful run's report is correct for (baseline, scan), and afterwards the store loads as the scan. The save is invoked exactly when the run succeeded with a non-empty report, and it writes the scan. A run that does not save leaves the store untouched. |
| Checker.RerunReportsNothing | checkerPY/z_checker.py:99-107 | With a readable store and a scan in which every file was hashed, a second run over the same scan succeeds. It reports no change, does not invoke the save, and leaves the store as the first run left it. |
| Checker.FirstRunScenario | checkerPY/z_checker.py:99-107 | With no store and files a.txt, b.txt, both are reported added, and the save is invoked and writes the scan. |
| Checker.NoOpScenario | checkerPY/z_checker.py:105-107 | An unchanged directory gives an empty report, the save is not invoked, and the store keeps its content. |
| Checker.MixedScenario | checkerPY/z_checker.py:50-55 | The baseline has a, b. The scan has a unchanged, b rehashed and c new. The report is b modified (h2 to h9) and c added. |
| Checker.DeletionScenario | checkerPY/z_checker.py:57-59 | A file missing from the scan is reported deleted with its old hash. |
| Checker.FailureScenario | checkerPY/z_checker.py:28-30 | A task that cannot read b.txt fails the run with b.txt's error. The save is not invoked, and the store keeps its old content. |

## Left out

- File hashing (`get_file_hash`, lines 6-12): the SHA-256 digest over 8192-byte chunks is a library call plus file I/O. Hashes are opaque strings handed to the scanner.
- Directory walking and scheduling (`get_folder_hashes`, lines 21-27): `os.walk`, path joining and the thread pool are filesystem I/O and concurrency. The model starts from the sequence of task outcomes in the order `as_completed` yields them. `DistinctFiles` stands in for the walk yielding each file once. `os.walk` runs without an error handler, so a subdirectory it cannot list is skipped silently: its files get no task, are reported deleted, and the resulting partial snapshot is saved as the new baseline. The fail-fast behaviour `ScanFrom` states covers only hashing tasks that fail to read their file, not a walk that skips a directory.
- JSON encoding and decoding of the store (lines 34-44): a library codec and file I/O. The store is an abstract value. `Corrupt` stands for any load that raises, and no error detail beyond that is kept.
- Save atomicity: the source truncates and rewrites the file in place, so a crash or an error mid-write can leave a partial file. `Save` treats the write as a single step that cannot fail.
- `pretty_print_changes` (lines 63-82): console output and `os.path.relpath`. Dictionary iteration order, which only affects the printed order, is not modelled.
- Reading `path.txt` and checking that it names a directory (lines 86-95): configuration I/O. A run starts from an already loaded store and the scan's outcomes.
- Snapshots.Save: a save that raises (for example `open` refusing the file at line 36, or `json.dump` failing part-way and leaving a truncated file that every later load rejects) is not modelled. `Save` is total, and `Checker.Run` reports success with the store equal to the scan.
- Checker.Run: paths are Unicode strings. A file name that is not valid text reaches the source surrogate-escaped and can make the printing or the UTF-8 save raise. A Dafny `string` cannot hold such a name, so that failure is not modelled.
- Snapshots.Load: only a stored JSON object of strings, or an undecodable store, is modelled. Valid JSON of another shape (`[]`, or an object with non-string values) loads without error in the source, and no `StoreFile` value represents it.
- Scanner.ScanFrom: a failing task's `OSError` is modelled as `FileReadError` carrying its path. Other exception kinds and their messages are not distinguished.
- Checker.RerunReportsNothing: the store is a value apart from the scanned tree, so a store file lying inside the watched directory is not modelled. In the source `hashes.json` is relative to the working directory (line 97); when the watched directory contains it, each run hashes the file the previous run saved, reports it added or modified and saves again, so a rerun never reports nothing. The lemma holds for reruns over the same task outcomes, which is the case of a store kept outside the watched directory.
