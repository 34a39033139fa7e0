# GitHub backup bot: a Dafny model

`github_backup_bot_gh.py` backs up a list of Git repositories. It first checks
that `git` is available, then creates the run folder `backups/YYYY-MM-DD`.
For every configured repository it:

- shallow-clones one branch into a temporary folder `__tmp_{name}_{HHMMSS}`;
- zips that clone to `{name}-{branch}-{YYYY-MM-DD}.zip`;
- removes the temporary folder.

Finally it deletes every dated run folder older than fourteen days.

This project models that core in Dafny and proves what the script promises
about it:

- **Naming** (`naming.dfy`, on top of `strings.dfy` and `calendar.dfy`): how
  the repository name, the archive path, the temporary folder and the file
  `make_archive` really writes are derived from the URL, the branch and the
  two clock readings.
- **Calendar** (`calendar.dfy`): Python's proleptic Gregorian dates,
  `strftime("%Y-%m-%d")` and `strftime("%H%M%S")`, and the lenient
  `strptime("%Y-%m-%d")` the pruner reads names back with.
- **The directory tree** (`files.dfy`): a class `FileTree` whose `entries` map
  each path to `Dir` or `File`. Its methods `MakeDirs`, `RemoveTree` and
  `WriteFile` are `mkdir(parents=True, exist_ok=True)`,
  `rmtree(ignore_errors=True)` and the file `make_archive` creates. Each is
  specified by a pure `...Result` function.
- **Retention** (`retention.dfy`): `delete_old_backups` as a loop over the
  listed children that removes expired dated folders in place. It is proved
  equal to the specification function `PruneResult`, whose selection, frame and
  idempotence are proved as lemmas.
- **One snapshot** (`snapshot.dfy`): `backup_repo` as a method on the tree,
  with the clone as an oracle. It is proved equal to `BackupRepoResult`, and
  the clone-failure, clone-success and same-day-rerun properties are proved
  about that function.
- **The run** (`orchestrator.dfy`): `main` as a method that checks git, makes
  the run folder, calls `backup_repo` in list order and then prunes. It is
  proved equal to `RunResult`, with lemmas on the order of the steps and on a
  run in which every clone succeeds.

Errors the script raises are values of `Outcomes.Error`, and a call's outcome
is `Pass` or `Fail(error)`. The outside world enters as parameters:

- what starting `git --version` gives: no program to start, or its exit
  code;
- each clock reading, as a date and microseconds since midnight;
- each clone's answer, success or failure with git's stderr text.

Nothing catches an exception from `backup_repo`
(`github_backup_bot_gh.py:76-79`), so the first failing clone ends `main`:
the remaining repositories and the pruning are skipped
(`Orchestrator.FailureStopsRun`).

Two further behaviours of the code are modelled as written:

- `.replace(".git", "")` removes every `.git` in the last URL segment, not
  only a trailing one.
- `.replace(".zip", "")` strips `.zip` from the whole archive path before
  `make_archive` appends it again.

## Model

| member | source | states |
|---|---|---|
| Outcomes.Message | github_backup_bot_gh.py:58 | the clone error's message starts with "Clone failed for" and ends with git's stderr text |
| Strings.RStrip | github_backup_bot_gh.py:39 | `rstrip("/")` keeps a prefix of the URL, drops only trailing slashes, and leaves no trailing slash |
| Strings.RStripIgnoresTrailing | github_backup_bot_gh.py:39 | appending any number of the stripped character does not change the result |
| Strings.LastSegment | github_backup_bot_gh.py:39 | `split("/")[-1]` is a suffix without '/', and either the whole string or preceded by a '/' |
| Strings.Remove | github_backup_bot_gh.py:39 | `replace(pat, "")` never lengthens the text and introduces no new character |
| Strings.RemoveAbsent | github_backup_bot_gh.py:39 | where the pattern does not occur, `replace` changes nothing |
| Strings.RemoveFirst | github_backup_bot_gh.py:39 | for a non-overlapping pattern, its first occurrence is deleted, the text before it is kept and the scan resumes after it |
| Calendar.OrdinalOrder | github_backup_bot_gh.py:26 | comparing day numbers is comparing dates as Python does, in both directions, and equal day numbers mean equal dates |
| Calendar.OrdinalBounds | github_backup_bot_gh.py:21 | every valid date has a day number from 1 to that of 9999-12-31 |
| Calendar.FormatDate | github_backup_bot_gh.py:40 | `%Y-%m-%d` is ten characters: four digits, '-', two digits, '-', two digits |
| Calendar.FormatTime | github_backup_bot_gh.py:41 | `%H%M%S` is six digits whose three pairs read back as the hour, the minute and the second of the time |
| Calendar.ParseDate | github_backup_bot_gh.py:25 | a successful `strptime` yields a valid date whose year is the four leading digits of the name |
| Calendar.ParseFormatted | github_backup_bot_gh.py:25 | every run-folder name the script writes parses back to its own date |
| Calendar.FullNameParses | github_backup_bot_gh.py:25 | "2024-12-31" parses to 31 December 2024 |
| Calendar.ShortNameParses | github_backup_bot_gh.py:25 | "2024-1-5" parses too: single-digit months and days are accepted |
| Calendar.SpacedDayParses | github_backup_bot_gh.py:25 | "2024-01- 5" parses too: a space before a single-digit day is accepted |
| Calendar.NonDatesRejected | github_backup_bot_gh.py:29-30 | "notes", "2024-01-051" and "2024-13-01" raise ValueError and are skipped |
| Calendar.MissingDayRejected | github_backup_bot_gh.py:29-30 | "2024-02-30" raises ValueError |
| Calendar.CommonYearLeapDayRejected | github_backup_bot_gh.py:29-30 | "2023-02-29" raises ValueError |
| Calendar.YearZeroRejected | github_backup_bot_gh.py:29-30 | "0000-01-01" raises ValueError |
| Files.MakeDirsResult | github_backup_bot_gh.py:15-16 | `mkdir(parents=True, exist_ok=True)` succeeds exactly when no file lies on the way; it then adds `p` and its missing ancestors as directories and keeps everything else; on failure nothing changes |
| Files.RemoveTreeResult | github_backup_bot_gh.py:27 | `rmtree(ignore_errors=True)` on a directory removes it and everything below it and nothing else; on anything else it changes nothing |
| Files.WriteFileResult | github_backup_bot_gh.py:61 | writing the archive succeeds exactly when no file lies above it and no directory sits at it; it then creates the missing parents and the file and keeps every other entry; on failure nothing changes |
| Files.FileTree.MakeDirs | github_backup_bot_gh.py:15-16 | the tree afterwards and the outcome are those of `MakeDirsResult` |
| Files.FileTree.RemoveTree | github_backup_bot_gh.py:63 | the tree afterwards is that of `RemoveTreeResult` |
| Files.FileTree.WriteFile | github_backup_bot_gh.py:61 | the tree afterwards and the outcome are those of `WriteFileResult` |
| Files.AncestorsOfJoin | github_backup_bot_gh.py:43-45 | the directories above `p / name` are `p` and the directories above `p` |
| Naming.RepoName | github_backup_bot_gh.py:39 | the repository name never contains '/' |
| Naming.RepoNameIgnoresTrailingSlashes | github_backup_bot_gh.py:39 | any number of trailing slashes on the URL gives the same name |
| Naming.RepoNameDropsGit | github_backup_bot_gh.py:39 | the name of `.../{a}.git{b}` is `{a}{b}`: every `.git` in the last segment goes, not only a suffix |
| Naming.RepoNameOfPlainUrl | github_backup_bot_gh.py:39 | the name of `.../{n}` with no `.git` in `n` is `n` |
| Naming.TempDir | github_backup_bot_gh.py:45 | the temporary folder lies directly inside the run folder and its name ends in a digit |
| Naming.ArchiveFile | github_backup_bot_gh.py:60-61 | the file `make_archive` writes always ends in `.zip` |
| Naming.ArchiveFileIsZipPath | github_backup_bot_gh.py:60-61 | with no `.zip` in the run folder, name or branch, the file written is exactly `zip_path` |
| Naming.ArchiveFileDropsInnerZip | github_backup_bot_gh.py:60-61 | otherwise it is not: `{a}.zip{b}.zip` is written as `{a}{b}.zip` |
| Naming.ZipPathInRunFolder | github_backup_bot_gh.py:43 | with no '/' in the name or branch, `zip_path` lies directly inside the run folder |
| Naming.TempDirApartFromZipPath | github_backup_bot_gh.py:43-45 | the temporary folder and the archive path are never one inside the other, for any name, branch, date and time |
| Retention.Cutoff | github_backup_bot_gh.py:21 | `now - timedelta(days=keep_days)` exists exactly when the day count and the resulting date are in range; it is `keep_days` days before `now` at the same time of day |
| Retention.DeleteOldBackups | github_backup_bot_gh.py:18-30 | the loop over the listed children ends with the outcome and tree of `PruneResult` |
| Retention.PruneChildren | github_backup_bot_gh.py:22-30 | looking at every listed child once, in any order, leaves the tree with exactly the expired dated child folders removed |
| Retention.PruneChild | github_backup_bot_gh.py:23-30 | one child is removed when it is a directory whose name parses to a date before the cutoff and kept otherwise |
| Retention.ExpiredMeansEarlier | github_backup_bot_gh.py:25-26 | a folder dated `d` is older than the cutoff exactly when `d` is an earlier date than the cutoff's, or the same date with the cutoff past midnight |
| Retention.FourteenDayBoundary | github_backup_bot_gh.py:21-27 | at 10:00 on 2024-03-01, folders from 20, 15 and 14 days back go and folders from 13 days and 1 day back stay; at midnight the one from 14 days back stays |
| Retention.PruneSelectsChildren | github_backup_bot_gh.py:22-27 | a child of the backup folder disappears exactly when it is a directory whose name parses to an expired date |
| Retention.PruneFrame | github_backup_bot_gh.py:18-30 | pruning adds and changes nothing and touches nothing outside the backup folder; a missing folder is no error (the outcome is `Pass`) and leaves the tree as it was, and so does a raised error |
| Retention.PruneIdempotent | github_backup_bot_gh.py:18-30 | pruning again at the same time removes nothing more |
| Snapshot.BackupRepo | github_backup_bot_gh.py:38-63 | the outcome and tree after `backup_repo` are those of `BackupRepoResult` |
| Snapshot.StepsCloneFailure | github_backup_bot_gh.py:46-58 | for any temporary folder, a failed clone fails, writes no file and keeps every entry outside the folder; the only new entries are missing directories above the folder, created by `ensure_dir`; once the folder could be made, the error carries git's stderr and nothing of the folder is left |
| Snapshot.CloneFailureCleansUp | github_backup_bot_gh.py:45-58 | the same for `backup_repo` and its own temporary folder: no file written, every entry outside the folder kept, missing directories above it may be created, and once the folder exists nothing of it is left and the error carries git's stderr |
| Snapshot.RunFolderChain | github_backup_bot_gh.py:43-45 | for a branch without '/' and a non-empty run folder path, the directories above the temporary folder and above the archive are the run folder and its ancestors |
| Snapshot.StepsSuccess | github_backup_bot_gh.py:46-63 | with the way clear, a successful clone passes; the archive is a file; the tree is the old one without the temporary folder plus the archive and its directories; nothing else changes kind |
| Snapshot.ClearWayOfRun | github_backup_bot_gh.py:43-46 | plain names and a run folder without files on its way clear the way for `backup_repo`, and the file written is `zip_path` |
| Snapshot.CloneSuccessArchives | github_backup_bot_gh.py:43-63 | after a successful clone the archive is a file at `zip_path` and the temporary folder is gone, with the rest of the tree as before |
| Snapshot.ClearWayAfter | github_backup_bot_gh.py:45-63 | after one snapshot the way is still clear for another temporary folder |
| Snapshot.SnapshotFixedPoint | github_backup_bot_gh.py:60-63 | a tree that already holds the archive and none of the temporary folder is what a successful snapshot leaves |
| Snapshot.StepsRerun | github_backup_bot_gh.py:40-63 | a second successful snapshot to the same archive leaves the tree the first one left |
| Snapshot.SameDayRerun | github_backup_bot_gh.py:40-63 | a rerun on the same day targets the same archive path and, overwriting it, leaves the tree as the first run left it |
| Orchestrator.RunFolder | github_backup_bot_gh.py:72-73 | the run folder lies directly inside `backups`, and its name parses back to today's date |
| Orchestrator.JobsFollowConfig | github_backup_bot_gh.py:76-79 | call `i` gets repository `i`'s URL, its branch or "main" when the record names none, a temporary folder and zip path named after that repository, and that call's clone answer |
| Orchestrator.RunBackup | github_backup_bot_gh.py:67-81 | the outcome and tree after `main` are those of `RunResult` |
| Orchestrator.NextJob | github_backup_bot_gh.py:76-79 | the calls from the `i`-th on are the `i`-th call, then the rest unless it failed |
| Orchestrator.GitCheckedFirst | github_backup_bot_gh.py:32-35 | when `git --version` exits non-zero, the run raises "Git not found..." and the tree is untouched |
| Orchestrator.MissingGitNotCaught | github_backup_bot_gh.py:11-13 | when there is no `git` to start, the run raises the FileNotFoundError of `subprocess.run`, not the RuntimeError, and the tree is untouched |
| Orchestrator.ProcessSplit | github_backup_bot_gh.py:76-79 | processing a list is processing its first part and then, unless that failed, the rest |
| Orchestrator.ProcessStopsAt | github_backup_bot_gh.py:76-79 | when call `j` is the first to fail, processing ends with exactly its failure |
| Orchestrator.FailureStopsRun | github_backup_bot_gh.py:76-81 | when repository `j` is the first whose backup fails, `main` ends with exactly that failure and the tree it left; later repositories and the pruning are skipped |
| Orchestrator.RunThroughPrune | github_backup_bot_gh.py:79-81 | the pruning runs once the run folder is made and every call has passed |
| Orchestrator.RunFolderHasNoZip | github_backup_bot_gh.py:72-73 | the run folder's path contains no `.zip` |
| Orchestrator.TempFits | github_backup_bot_gh.py:45 | each temporary folder lies directly in the run folder and does not end in `.zip` |
| Orchestrator.ArchiveFits | github_backup_bot_gh.py:43 | with plain names, each archive lies directly in the run folder, ends in `.zip` and is the file written |
| Orchestrator.JobOfFits | github_backup_bot_gh.py:79 | with plain names, each call's temporary folder and archive lie apart in the run folder |
| Orchestrator.JobsFit | github_backup_bot_gh.py:76-79 | the same for every call of the run |
| Orchestrator.ArchiveStep | github_backup_bot_gh.py:79 | one successful call keeps the run folder holding only archives, adds its archive and keeps every file |
| Orchestrator.AllArchived | github_backup_bot_gh.py:76-79 | when every clone succeeds, every call passes and every archive is a file in a run folder holding only archives |
| Orchestrator.PruneSparesRunFolder | github_backup_bot_gh.py:81 | pruning within fourteen days of the run's date leaves today's run folder and all it holds in place |
| Orchestrator.RunStepsSucceed | github_backup_bot_gh.py:72-81 | making the folder, the successful calls and the pruning all pass, and every archive is still there |
| Orchestrator.RunSucceeds | github_backup_bot_gh.py:67-81 | with git present, every clone succeeding, plain names, no file anywhere on the way to `backups/<today>` and that folder holding only `.zip` files beforehand, `main` passes and every repository's `zip_path` is a file in today's run folder, which holds nothing but archives |

## Left out

- Running `git` (`run`, lines 11-13, and the clone command at lines 48-55) is
  not modelled. It is a foreign process; its answer is a parameter: for
  `git --version`, no program to start or an exit code, and per clone either
  success or failure with the stderr text.
- Snapshot.CloneFailureCleansUp: a `git` that disappears between the version
  check and a clone would make `subprocess.run` raise FileNotFoundError
  inside `backup_repo`, leaving the temporary folder behind; the clone
  oracle has no such answer.
- The archive's contents are not modelled (`make_archive`, line 61). A
  foreign library compresses them; the model records only that a file now
  exists at the path it writes.
- What the clone writes into the temporary folder is not modelled. It is
  removed whole by `rmtree`, so only the folder itself is tracked.
- Reading `repos.json` (line 70) is not modelled. The configuration is an
  already-parsed sequence of records with a `url` and an optional `branch`.
  A missing `url` key (KeyError) and malformed JSON are out of scope.
- The wall clock (lines 21, 40, 41, 72) is not modelled. Each reading is a
  parameter: a date plus microseconds since midnight, read separately at
  each place the script reads it.
- Console output (`print`, lines 28, 36, 65, 82) is not modelled.
- `rmtree(..., ignore_errors=True)` (lines 27, 57, 63) always removes the
  whole tree; partial failures it hides are not modelled.
- Paths are plain '/'-joined strings. Symbolic links and permissions are not
  modelled. Neither is `pathlib` collapsing `//` and `/./` inside a branch
  name: the model keeps the empty or `.` component as a directory of its
  own, so branch `a//b` gives it an extra entry ending in `name-a/`. The
  operating system resolving `..` inside a branch name is not modelled
  either. The repository name never contains '/', so only the branch can
  cause this.
- `strptime` accepts only ASCII digits in the model; Python's regular
  expression also admits other Unicode decimal digits.
- Concurrent runs are not modelled: the script is single-threaded, so
  collisions between `HHMMSS` temporary names across processes are out of
  scope.
- Naming.ArchiveFileIsZipPath, Snapshot.CloneSuccessArchives,
  Snapshot.SameDayRerun and Orchestrator.RunSucceeds: each is stated only for
  plain names (no '/' in the branch, no `.zip` in the run folder, repository
  name or branch). Naming.ArchiveFileDropsInnerZip shows what happens
  otherwise.
- Orchestrator.RunSucceeds: stated for a starting tree with no file anywhere
  on the way to `backups/<today>` (otherwise `mkdir` raises, for instance
  when `backups` is a file) and whose run folder, if present, holds only
  `.zip` files directly inside it. It is also stated only for a pruning clock
  within fourteen days of the run's date. The script reads that clock a moment after the run
  folder is named; a run spanning more than a fortnight is out of scope.
- Snapshot.SameDayRerun: stated for a second run whose temporary folder name
  is not already taken.
