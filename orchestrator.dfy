/** `main()`: check that git is available, create today's run folder
    `backups/YYYY-MM-DD`, back up every configured repository in list order,
    then prune run folders older than fourteen days. Nothing catches an
    exception, so the first failure ends the run: the repositories after it
    and the pruning are skipped. */
module Orchestrator {
  import opened Outcomes
  import opened Strings
  import opened Calendar
  import opened Files
  import opened Naming
  import opened Snapshot
  import opened Retention

  /** One record of `repos.json`: a URL and perhaps a branch. */
  datatype RepoConfig = RepoConfig(url: string, branch: Option<string>)

  /** `item.get("branch", "main")` */
  function BranchOf(item: RepoConfig): string
  {
    match item.branch
    case Some(b) => b
    case None => "main"
  }

  const BACKUP_DIR: Path := "backups"

  const KEEP_DAYS := 14

  /** What starting `git --version` gives: no program to start, or the
      exit code of the program. */
  datatype GitProbe = GitMissing | GitExit(code: int)

  /** The answers the outside world gives during one run: the answer to
      `git --version`, the clock read in `main`, what each call of
      `backup_repo` sees, and the clock read by the pruning. */
  datatype RunEnv = RunEnv(git: GitProbe, today: DateTime, repoEnvs: seq<RepoEnv>, pruneNow: DateTime)

  predicate AllValid(envs: seq<RepoEnv>)
  {
    forall i :: 0 <= i < |envs| ==> ValidEnv(envs[i])
  }

  predicate ValidRun(repos: seq<RepoConfig>, env: RunEnv)
  {
    ValidDateTime(env.today) && ValidDateTime(env.pruneNow)
    && |env.repoEnvs| == |repos| && AllValid(env.repoEnvs)
  }

  /** `BACKUP_DIR / today`: a child of the backup folder whose name the
      pruning reads back as today's date. */
  function RunFolder(today: DateTime): (p: Path)
    requires ValidDateTime(today)
    ensures IsChild(BACKUP_DIR, p) && ParseDate(ChildName(BACKUP_DIR, p)) == Some(today.date)
  {
    var date := FormatDate(today.date);
    forall i | 0 <= i < |date| ensures date[i] != '/' {
      if i < 4 {
        assert date[..4][i] == date[i];
      } else if 5 <= i < 7 {
        assert date[5..7][i - 5] == date[i];
      } else if 8 <= i {
        assert date[8..][i - 8] == date[i];
      }
    }
    ParseFormatted(today.date);
    Join(BACKUP_DIR, date)
  }

  /** One call of `backup_repo` once its paths are known: the URL and
      branch, the temporary folder, the file `make_archive` writes, and the
      clone's answer. */
  datatype Job = Job(url: string, branch: string, temp: Path, archive: Path, clone: CloneResult)

  /** The call `backup_repo(item["url"], item.get("branch", "main"), out_dir)`. */
  function JobOf(item: RepoConfig, env: RepoEnv, outDir: Path): Job
    requires ValidEnv(env)
  {
    var branch := BranchOf(item);
    Job(item.url, branch, Workspace(item.url, outDir, env),
        ArchiveFile(ArchiveTarget(item.url, branch, outDir, env)), env.clone)
  }

  /** The calls `main` makes, in list order. */
  function Jobs(repos: seq<RepoConfig>, envs: seq<RepoEnv>, outDir: Path): (jobs: seq<Job>)
    requires |envs| == |repos| && AllValid(envs)
    ensures |jobs| == |repos|
    ensures forall i :: 0 <= i < |repos| ==> jobs[i] == JobOf(repos[i], envs[i], outDir)
  {
    seq(|repos|, i requires 0 <= i < |repos| && AllValid(envs) && |envs| == |repos| => JobOf(repos[i], envs[i], outDir))
  }

  /** Call `i` backs up repository `i`: its URL, its branch or "main" when
      the record names none, a temporary folder and a zip file named after
      that repository inside the run folder, and that call's clone. */
  lemma JobsFollowConfig(repos: seq<RepoConfig>, envs: seq<RepoEnv>, outDir: Path)
    requires |envs| == |repos| && AllValid(envs)
    ensures forall i :: 0 <= i < |repos| ==> Jobs(repos, envs, outDir)[i].url == repos[i].url
    ensures forall i :: 0 <= i < |repos| && repos[i].branch.None? ==> Jobs(repos, envs, outDir)[i].branch == "main"
    ensures forall i :: 0 <= i < |repos| && repos[i].branch.Some? ==> Jobs(repos, envs, outDir)[i].branch == repos[i].branch.value
    ensures forall i :: 0 <= i < |repos| ==>
              var job := Jobs(repos, envs, outDir)[i];
              job.temp == TempDir(outDir, RepoName(repos[i].url), envs[i].stamp)
              && job.archive == ArchiveFile(ZipPath(outDir, RepoName(repos[i].url), job.branch, envs[i].today.date))
              && job.clone == envs[i].clone
  {
  }

  function RunJob(e: Entries, job: Job): (Outcome, Entries)
  {
    SnapshotSteps(e, job.temp, job.archive, job.url, job.branch, job.clone)
  }

  lemma BackupRepoRunsJob(e: Entries, item: RepoConfig, env: RepoEnv, outDir: Path)
    requires ValidEnv(env)
    ensures BackupRepoResult(e, item.url, BranchOf(item), outDir, env) == RunJob(e, JobOf(item, env, outDir))
  {
  }

  /** The calls made one after the other, stopping at the first failure. */
  function ProcessAll(e: Entries, jobs: seq<Job>): (Outcome, Entries)
    decreases |jobs|
  {
    if |jobs| == 0 then (Pass, e)
    else
      var r := RunJob(e, jobs[0]);
      if r.0.Fail? then r else ProcessAll(r.1, jobs[1..])
  }

  /** The outcome and the tree after `main()`. */
  function RunResult(e: Entries, repos: seq<RepoConfig>, env: RunEnv): (Outcome, Entries)
    requires ValidRun(repos, env)
  {
    if env.git.GitMissing? then (Fail(ProgramMissing), e)
    else if env.git.code != 0 then (Fail(GitNotFound), e)
    else
      var outDir := RunFolder(env.today);
      var made := MakeDirsResult(e, outDir);
      if made.0.Fail? then made
      else
        var done := ProcessAll(made.1, Jobs(repos, env.repoEnvs, outDir));
        if done.0.Fail? then done
        else PruneResult(done.1, BACKUP_DIR, KEEP_DAYS, env.pruneNow)
  }

  /** `main()`, step by step on the tree. */
  method RunBackup(fs: FileTree, repos: seq<RepoConfig>, env: RunEnv) returns (o: Outcome)
    requires ValidRun(repos, env)
    modifies fs
    ensures (o, fs.entries) == RunResult(old(fs.entries), repos, env)
  {
    if env.git.GitMissing? {
      return Fail(ProgramMissing);
    }
    if env.git.code != 0 {
      return Fail(GitNotFound);
    }
    var outDir := RunFolder(env.today);
    o := fs.MakeDirs(outDir);
    if o.Fail? {
      return;
    }
    ghost var start := fs.entries;
    ghost var jobs := Jobs(repos, env.repoEnvs, outDir);
    assert jobs[0..] == jobs;
    for i := 0 to |repos|
      invariant ProcessAll(fs.entries, jobs[i..]) == ProcessAll(start, jobs)
    {
      var item := repos[i];
      NextJob(fs.entries, jobs, i, item, env.repoEnvs[i], outDir);
      o := BackupRepo(fs, item.url, BranchOf(item), outDir, env.repoEnvs[i]);
      if o.Fail? {
        return;
      }
    }
    assert jobs[|repos|..] == [];
    o := DeleteOldBackups(fs, BACKUP_DIR, KEEP_DAYS, env.pruneNow);
  }

  /** The calls from the `i`-th on: the `i`-th call, then the rest unless
      it failed. */
  lemma NextJob(e: Entries, jobs: seq<Job>, i: nat, item: RepoConfig, env: RepoEnv, outDir: Path)
    requires ValidEnv(env) && i < |jobs| && jobs[i] == JobOf(item, env, outDir)
    ensures var r := BackupRepoResult(e, item.url, BranchOf(item), outDir, env);
      ProcessAll(e, jobs[i..]) == if r.0.Fail? then r else ProcessAll(r.1, jobs[i + 1..])
  {
    assert jobs[i..][0] == jobs[i] && jobs[i..][1..] == jobs[i + 1..];
    BackupRepoRunsJob(e, item, env, outDir);
  }

  // ----- Order of the steps -----

  /** When `git --version` exits non-zero, the run raises the RuntimeError
      before touching anything. */
  lemma GitCheckedFirst(e: Entries, repos: seq<RepoConfig>, env: RunEnv)
    requires ValidRun(repos, env) && env.git.GitExit? && env.git.code != 0
    ensures RunResult(e, repos, env) == (Fail(GitNotFound), e)
    ensures Message(GitNotFound) == "Git not found. Install Git and ensure it's in PATH."
  {
  }

  /** When there is no `git` to start, the run raises FileNotFoundError,
      not the RuntimeError, and touches nothing. */
  lemma MissingGitNotCaught(e: Entries, repos: seq<RepoConfig>, env: RunEnv)
    requires ValidRun(repos, env) && env.git.GitMissing?
    ensures RunResult(e, repos, env) == (Fail(ProgramMissing), e)
    ensures RunResult(e, repos, env).0 != Fail(GitNotFound)
  {
  }

  /** Making a list of calls is making its first part, then, unless that
      failed, the rest. */
  lemma {:induction false} ProcessSplit(e: Entries, xs: seq<Job>, ys: seq<Job>)
    ensures var a := ProcessAll(e, xs);
      ProcessAll(e, xs + ys) == if a.0.Fail? then a else ProcessAll(a.1, ys)
    decreases |xs|
  {
    if |xs| == 0 {
      assert xs + ys == ys;
    } else {
      assert (xs + ys)[0] == xs[0] && (xs + ys)[1..] == xs[1..] + ys;
      ProcessSplit(RunJob(e, xs[0]).1, xs[1..], ys);
    }
  }

  /** When call `j` is the first to fail, the calls end with exactly its
      failure and the tree it left. */
  lemma ProcessStopsAt(e: Entries, jobs: seq<Job>, j: nat)
    requires j < |jobs| && ProcessAll(e, jobs[..j]).0 == Pass
    ensures var r := RunJob(ProcessAll(e, jobs[..j]).1, jobs[j]);
      r.0.Fail? ==> ProcessAll(e, jobs) == r
  {
    SplitAt(jobs, j);
    ProcessSplit(e, jobs[..j], jobs[j..]);
  }

  lemma SplitAt(jobs: seq<Job>, j: nat)
    requires j < |jobs|
    ensures jobs[..j] + jobs[j..] == jobs && jobs[j..][0] == jobs[j]
  {
  }

  /** When repository `j` is the first whose `backup_repo` fails, `main` ends
      with exactly that failure and the tree that call left: the later
      repositories and the pruning are skipped. */
  lemma FailureStopsRun(e: Entries, repos: seq<RepoConfig>, env: RunEnv, j: nat)
    requires ValidRun(repos, env) && env.git == GitExit(0) && j < |repos|
    ensures var outDir := RunFolder(env.today); var made := MakeDirsResult(e, outDir);
      var jobs := Jobs(repos, env.repoEnvs, outDir); var before := ProcessAll(made.1, jobs[..j]);
      var r := BackupRepoResult(before.1, repos[j].url, BranchOf(repos[j]), outDir, env.repoEnvs[j]);
      made.0 == Pass && before.0 == Pass && r.0.Fail? ==> RunResult(e, repos, env) == r
  {
    var outDir := RunFolder(env.today);
    var made := MakeDirsResult(e, outDir);
    var jobs := Jobs(repos, env.repoEnvs, outDir);
    var before := ProcessAll(made.1, jobs[..j]);
    BackupRepoRunsJob(before.1, repos[j], env.repoEnvs[j], outDir);
    if made.0 == Pass && before.0 == Pass {
      ProcessStopsAt(made.1, jobs, j);
    }
  }

  // ----- A run in which every clone succeeds -----

  predicate EndsWithZip(q: Path)
  {
    |q| >= 4 && q[|q| - 4..] == ".zip"
  }

  /** Everything inside the run folder is an archive lying directly in it. */
  predicate OnlyArchives(e: Entries, outDir: Path)
  {
    forall q :: q in e && q != outDir && Under(outDir, q) ==> IsChild(outDir, q) && IsFile(e, q) && EndsWithZip(q)
  }

  /** The run folder and the folders above it are directories. */
  predicate RunFolderReady(e: Entries, outDir: Path)
  {
    forall a :: a in Chain(outDir) ==> IsDir(e, a)
  }

  /** The configuration names no branch with a '/' and puts `.zip` in no
      branch or repository name. */
  predicate PlainNames(repos: seq<RepoConfig>)
  {
    forall i :: 0 <= i < |repos| ==>
      '/' !in BranchOf(repos[i]) && !Occurs(BranchOf(repos[i]), ".zip") && !Occurs(RepoName(repos[i].url), ".zip")
  }

  /** A call whose temporary folder and archive both lie directly in the run
      folder, apart from each other, told apart by their endings. */
  predicate JobFits(job: Job, outDir: Path)
  {
    IsChild(outDir, job.temp) && IsChild(outDir, job.archive)
    && Ancestors(job.temp) == Chain(outDir) && Ancestors(job.archive) == Chain(outDir)
    && !Under(job.temp, job.archive) && !Under(job.archive, job.temp)
    && !EndsWithZip(job.temp) && EndsWithZip(job.archive)
  }

  lemma RunFolderHasNoZip(today: DateTime)
    requires ValidDateTime(today)
    ensures !Occurs(RunFolder(today), ".zip")
  {
    var s := BACKUP_DIR;
    forall i | 0 <= i < |s| ensures s[i] != '.' {
    }
    NoOccurrenceWithoutFirstCharacter(s, ".zip");
    DateHasNoZip(today.date);
    NoOccurrenceAcross(s, '/', FormatDate(today.date), ".zip");
  }

  lemma TempFits(url: string, env: RepoEnv, outDir: Path)
    requires ValidEnv(env) && outDir != []
    ensures var temp := Workspace(url, outDir, env);
      IsChild(outDir, temp) && Ancestors(temp) == Chain(outDir) && !EndsWithZip(temp)
  {
    var temp := Workspace(url, outDir, env);
    AncestorsOfJoin(outDir, ChildName(outDir, temp));
    assert !EndsWithZip(temp) by {
      assert IsDigit(temp[|temp| - 1]);
    }
  }

  lemma ArchiveFits(url: string, branch: string, env: RepoEnv, outDir: Path)
    requires ValidEnv(env) && outDir != [] && !Occurs(outDir, ".zip")
    requires '/' !in branch && !Occurs(branch, ".zip") && !Occurs(RepoName(url), ".zip")
    ensures var zip := ArchiveTarget(url, branch, outDir, env);
      ArchiveFile(zip) == zip && IsChild(outDir, zip) && Ancestors(zip) == Chain(outDir) && EndsWithZip(zip)
  {
    var zip := ArchiveTarget(url, branch, outDir, env);
    ZipPathInRunFolder(outDir, RepoName(url), branch, env.today.date);
    AncestorsOfJoin(outDir, ChildName(outDir, zip));
    ArchiveFileIsZipPath(outDir, RepoName(url), branch, env.today.date);
    assert EndsWithZip(ArchiveFile(zip));
  }

  /** With plain names and a run folder without `.zip`, the call fits the
      run folder and archives to `zip_path` itself. */
  lemma JobOfFits(item: RepoConfig, env: RepoEnv, outDir: Path)
    requires ValidEnv(env) && outDir != [] && !Occurs(outDir, ".zip")
    requires '/' !in BranchOf(item) && !Occurs(BranchOf(item), ".zip") && !Occurs(RepoName(item.url), ".zip")
    ensures JobFits(JobOf(item, env, outDir), outDir)
    ensures JobOf(item, env, outDir).archive == ArchiveTarget(item.url, BranchOf(item), outDir, env)
  {
    var branch := BranchOf(item);
    var temp := Workspace(item.url, outDir, env);
    var zip := ArchiveTarget(item.url, branch, outDir, env);
    TempFits(item.url, env, outDir);
    ArchiveFits(item.url, branch, env, outDir);
    TempDirApartFromZipPath(outDir, RepoName(item.url), branch, env.today.date, env.stamp);
    assert JobOf(item, env, outDir) == Job(item.url, branch, temp, zip, env.clone);
  }

  /** One successful call keeps the run folder ready and holding only
      archives, adds its own archive and keeps every file there was. */
  lemma ArchiveStep(e: Entries, job: Job, outDir: Path)
    requires JobFits(job, outDir) && job.clone == Cloned
    requires RunFolderReady(e, outDir) && OnlyArchives(e, outDir)
    ensures var r := RunJob(e, job);
      r.0 == Pass && RunFolderReady(r.1, outDir) && OnlyArchives(r.1, outDir)
      && IsFile(r.1, job.archive) && forall q :: IsFile(e, q) ==> IsFile(r.1, q)
  {
    var r := RunJob(e, job);
    assert job.temp !in e;
    forall q | q in e ensures !Under(job.temp, q) {
      BelowChild(outDir, job.temp, q);
    }
    assert ClearWay(e, outDir, job.temp, job.archive);
    StepsSuccess(e, outDir, job.temp, job.archive, job.url, job.branch);
    forall q | q in r.1 && q != outDir && Under(outDir, q)
      ensures IsChild(outDir, q) && IsFile(r.1, q) && EndsWithZip(q)
    {
      if q != job.archive {
        assert q !in Ancestors(outDir);
        assert q in e;
      }
    }
  }

  lemma {:induction false} AllArchived(e: Entries, jobs: seq<Job>, outDir: Path)
    requires forall i :: 0 <= i < |jobs| ==> JobFits(jobs[i], outDir) && jobs[i].clone == Cloned
    requires RunFolderReady(e, outDir) && OnlyArchives(e, outDir)
    ensures var r := ProcessAll(e, jobs);
      r.0 == Pass && RunFolderReady(r.1, outDir) && OnlyArchives(r.1, outDir)
      && (forall i :: 0 <= i < |jobs| ==> IsFile(r.1, jobs[i].archive))
      && forall q :: IsFile(e, q) ==> IsFile(r.1, q)
    decreases |jobs|
  {
    if |jobs| > 0 {
      var first := RunJob(e, jobs[0]).1;
      ArchiveStep(e, jobs[0], outDir);
      assert forall i :: 0 <= i < |jobs| - 1 ==> jobs[1..][i] == jobs[i + 1];
      AllArchived(first, jobs[1..], outDir);
      var r := ProcessAll(e, jobs);
      assert r == ProcessAll(first, jobs[1..]);
      forall i | 0 <= i < |jobs| ensures IsFile(r.1, jobs[i].archive) {
        if i == 0 {
          assert IsFile(first, jobs[0].archive);
        } else {
          assert jobs[i] == jobs[1..][i - 1];
        }
      }
    }
  }

  /** Pruning never reaches into a run folder whose own date has not
      expired. */
  lemma PruneSparesRunFolder(d: Entries, outDir: Path, today: Date, pruneNow: DateTime)
    requires ValidDate(today) && ValidDateTime(pruneNow)
    requires IsChild(BACKUP_DIR, outDir) && ParseDate(ChildName(BACKUP_DIR, outDir)) == Some(today)
    requires RunFolderReady(d, outDir) && OnlyArchives(d, outDir)
    requires KEEP_DAYS < Ordinal(pruneNow.date) < Ordinal(today) + KEEP_DAYS
    ensures var r := PruneResult(d, BACKUP_DIR, KEEP_DAYS, pruneNow);
      r.0 == Pass && IsDir(r.1, outDir) && OnlyArchives(r.1, outDir)
      && forall q :: Under(outDir, q) && q in d ==> q in r.1 && r.1[q] == d[q]
  {
    OrdinalBounds(pruneNow.date);
    var cut := Cutoff(pruneNow, KEEP_DAYS).value;
    assert !Selected(d, BACKUP_DIR, cut, outDir);
    assert BACKUP_DIR in Ancestors(outDir) by {
      assert outDir[|BACKUP_DIR|] == '/' && outDir[..|BACKUP_DIR|] == BACKUP_DIR;
    }
    assert IsDir(d, BACKUP_DIR);
    var kept := PruneAmong(d, BACKUP_DIR, cut, Children(d, BACKUP_DIR));
    assert PruneResult(d, BACKUP_DIR, KEEP_DAYS, pruneNow) == (Pass, kept);
    forall q | Under(outDir, q) && q in d ensures q in kept && kept[q] == d[q] {
      forall c | c in Children(d, BACKUP_DIR) && Under(c, q) ensures !Selected(d, BACKUP_DIR, cut, c) {
        if |c| <= |outDir| {
          UnderComparable(c, outDir, q);
        } else {
          UnderComparable(outDir, c, q);
        }
        ChildrenApart(BACKUP_DIR, c, outDir);
        ChildrenApart(BACKUP_DIR, outDir, c);
      }
    }
    assert Under(outDir, outDir);
  }

  /** The run after the git check, with the run folder and the calls
      abstracted: making the folder, the calls, then the pruning. */
  lemma RunStepsSucceed(e: Entries, jobs: seq<Job>, outDir: Path, today: Date, pruneNow: DateTime)
    requires ValidDate(today) && ValidDateTime(pruneNow)
    requires IsChild(BACKUP_DIR, outDir) && ParseDate(ChildName(BACKUP_DIR, outDir)) == Some(today)
    requires forall i :: 0 <= i < |jobs| ==> JobFits(jobs[i], outDir) && jobs[i].clone == Cloned
    requires !AnyFile(e, Chain(outDir)) && OnlyArchives(e, outDir)
    requires KEEP_DAYS < Ordinal(pruneNow.date) < Ordinal(today) + KEEP_DAYS
    ensures var made := MakeDirsResult(e, outDir);
      made.0 == Pass && ProcessAll(made.1, jobs).0 == Pass
    ensures var r := PruneResult(ProcessAll(MakeDirsResult(e, outDir).1, jobs).1, BACKUP_DIR, KEEP_DAYS, pruneNow);
      r.0 == Pass && IsDir(r.1, outDir) && OnlyArchives(r.1, outDir)
      && forall i :: 0 <= i < |jobs| ==> IsFile(r.1, jobs[i].archive)
  {
    var made := MakeDirsResult(e, outDir);
    assert OnlyArchives(made.1, outDir) by {
      forall q | q in made.1 && q != outDir && Under(outDir, q) ensures q in e {
        assert q !in Ancestors(outDir);
      }
    }
    AllArchived(made.1, jobs, outDir);
    var done := ProcessAll(made.1, jobs);
    PruneSparesRunFolder(done.1, outDir, today, pruneNow);
    var r := PruneResult(done.1, BACKUP_DIR, KEEP_DAYS, pruneNow);
    forall i | 0 <= i < |jobs| ensures IsFile(r.1, jobs[i].archive) {
      assert IsFile(done.1, jobs[i].archive) && Under(outDir, jobs[i].archive);
    }
  }

  /** With plain names, every call of a run fits the run folder and
      archives to its `zip_path`. */
  lemma JobsFit(repos: seq<RepoConfig>, envs: seq<RepoEnv>, outDir: Path)
    requires |envs| == |repos| && AllValid(envs) && PlainNames(repos)
    requires outDir != [] && !Occurs(outDir, ".zip")
    requires forall i :: 0 <= i < |repos| ==> envs[i].clone == Cloned
    ensures var jobs := Jobs(repos, envs, outDir);
      forall i :: 0 <= i < |repos| ==>
        JobFits(jobs[i], outDir) && jobs[i].clone == Cloned
        && jobs[i].archive == ArchiveTarget(repos[i].url, BranchOf(repos[i]), outDir, envs[i])
  {
    var jobs := Jobs(repos, envs, outDir);
    forall i | 0 <= i < |repos|
      ensures JobFits(jobs[i], outDir) && jobs[i].clone == Cloned
      ensures jobs[i].archive == ArchiveTarget(repos[i].url, BranchOf(repos[i]), outDir, envs[i])
    {
      JobOfFits(repos[i], envs[i], outDir);
    }
  }

  /** When git is present, the folder is made and every call passes, the
      run ends with the pruning. */
  lemma RunThroughPrune(e: Entries, repos: seq<RepoConfig>, env: RunEnv)
    requires ValidRun(repos, env) && env.git == GitExit(0)
    ensures var outDir := RunFolder(env.today);
      var made := MakeDirsResult(e, outDir);
      var done := ProcessAll(made.1, Jobs(repos, env.repoEnvs, outDir));
      made.0 == Pass && done.0 == Pass ==>
        RunResult(e, repos, env) == PruneResult(done.1, BACKUP_DIR, KEEP_DAYS, env.pruneNow)
  {
  }

  /** With git present, every clone succeeding, plain names, a run folder
      whose way is free of files and that holds only archives, and pruning
      done within fourteen days of the run's date: the run succeeds, every
      repository's archive is a file in today's folder, and no temporary
      folder is left there. */
  lemma RunSucceeds(e: Entries, repos: seq<RepoConfig>, env: RunEnv)
    requires ValidRun(repos, env) && env.git == GitExit(0)
    requires forall i :: 0 <= i < |repos| ==> env.repoEnvs[i].clone == Cloned
    requires PlainNames(repos)
    requires !AnyFile(e, Chain(RunFolder(env.today))) && OnlyArchives(e, RunFolder(env.today))
    requires KEEP_DAYS < Ordinal(env.pruneNow.date) < Ordinal(env.today.date) + KEEP_DAYS
    ensures var r := RunResult(e, repos, env); var outDir := RunFolder(env.today);
      r.0 == Pass && IsDir(r.1, outDir) && OnlyArchives(r.1, outDir)
      && forall i :: 0 <= i < |repos| ==>
           IsFile(r.1, ArchiveTarget(repos[i].url, BranchOf(repos[i]), outDir, env.repoEnvs[i]))
  {
    var outDir := RunFolder(env.today);
    RunFolderHasNoZip(env.today);
    var jobs := Jobs(repos, env.repoEnvs, outDir);
    JobsFit(repos, env.repoEnvs, outDir);
    RunStepsSucceed(e, jobs, outDir, env.today.date, env.pruneNow);
    RunThroughPrune(e, repos, env);
  }
}
