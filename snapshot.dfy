/** `backup_repo(url, branch, out_dir)`: clone one branch into a temporary
    folder inside the run folder, archive it to
    `{name}-{branch}-{YYYY-MM-DD}.zip` beside it, and remove the temporary
    folder. A failed clone removes the temporary folder and raises. */
module Snapshot {
  import opened Outcomes
  import opened Strings
  import opened Calendar
  import opened Files
  import opened Naming

  /** What `git clone` reports: success, or failure with its stderr text. */
  datatype CloneResult = Cloned | CloneError(stderr: string)

  /** The answers the outside world gives during one call: the clock read
      for the date, the clock read again for the time stamp, and the clone. */
  datatype RepoEnv = RepoEnv(today: DateTime, stamp: DateTime, clone: CloneResult)

  predicate ValidEnv(env: RepoEnv)
  {
    ValidDateTime(env.today) && ValidDateTime(env.stamp)
  }

  function ArchiveTarget(url: string, branch: string, outDir: Path, env: RepoEnv): Path
    requires ValidEnv(env)
  {
    ZipPath(outDir, RepoName(url), branch, env.today.date)
  }

  function Workspace(url: string, outDir: Path, env: RepoEnv): Path
    requires ValidEnv(env)
  {
    TempDir(outDir, RepoName(url), env.stamp)
  }

  /** The steps of `backup_repo` once the temporary folder `temp` and the
      file `archive` that `make_archive` writes are known: create `temp`,
      clone into it, archive it, remove it. */
  function SnapshotSteps(e: Entries, temp: Path, archive: Path, url: string, branch: string, clone: CloneResult): (Outcome, Entries)
  {
    var made := MakeDirsResult(e, temp);
    if made.0.Fail? then made
    else match clone
      case CloneError(err) => (Fail(CloneFailed(url, branch, err)), RemoveTreeResult(made.1, temp))
      case Cloned =>
        var written := WriteFileResult(made.1, archive);
        if written.0.Fail? then written
        else (Pass, RemoveTreeResult(written.1, temp))
  }

  /** The outcome and the tree after `backup_repo(url, branch, out_dir)`. */
  function BackupRepoResult(e: Entries, url: string, branch: string, outDir: Path, env: RepoEnv): (Outcome, Entries)
    requires ValidEnv(env)
  {
    SnapshotSteps(e, Workspace(url, outDir, env), ArchiveFile(ArchiveTarget(url, branch, outDir, env)), url, branch, env.clone)
  }

  /** `backup_repo`, step by step on the tree. */
  method BackupRepo(fs: FileTree, url: string, branch: string, outDir: Path, env: RepoEnv) returns (o: Outcome)
    requires ValidEnv(env)
    modifies fs
    ensures (o, fs.entries) == BackupRepoResult(old(fs.entries), url, branch, outDir, env)
  {
    var name := RepoName(url);
    var zipPath := ZipPath(outDir, name, branch, env.today.date);
    var temp := TempDir(outDir, name, env.stamp);
    o := fs.MakeDirs(temp);
    if o.Fail? {
      return;
    }
    if env.clone.CloneError? {
      fs.RemoveTree(temp);
      return Fail(CloneFailed(url, branch, env.clone.stderr));
    }
    o := fs.WriteFile(ArchiveFile(zipPath));
    if o.Fail? {
      return;
    }
    fs.RemoveTree(temp);
  }

  /** What a failed clone leaves, `r` being the outcome and tree after the
      call: the call fails; once the temporary folder could be created, it
      fails with the RuntimeError whose message ends with git's stderr and
      nothing of that folder is left; no file is written; every entry
      outside that folder is kept as it was; and the only new entries are
      missing directories above the folder, which `mkdir(parents=True)`
      created and nothing removes. */
  ghost predicate CleanFailure(e: Entries, r: (Outcome, Entries), temp: Path, url: string, branch: string, err: string)
  {
    r.0.Fail? &&
    (!AnyFile(e, Chain(temp)) ==>
       r.0.error == CloneFailed(url, branch, err)
       && Message(r.0.error)[|Message(r.0.error)| - |err|..] == err
       && forall q :: q in r.1 ==> !Under(temp, q)) &&
    (forall q :: IsFile(r.1, q) ==> IsFile(e, q)) &&
    (forall q :: q in e && !Under(temp, q) ==> q in r.1 && r.1[q] == e[q]) &&
    (forall q :: q in r.1 && q !in e ==> q in Ancestors(temp) && r.1[q] == Dir)
  }

  lemma StepsCloneFailure(e: Entries, temp: Path, archive: Path, url: string, branch: string, err: string)
    ensures CleanFailure(e, SnapshotSteps(e, temp, archive, url, branch, CloneError(err)), temp, url, branch, err)
  {
    var made := MakeDirsResult(e, temp);
    if made.0.Pass? {
      assert IsDir(made.1, temp) by {
        assert temp in Chain(temp);
      }
      var r := RemoveTreeResult(made.1, temp);
      assert SnapshotSteps(e, temp, archive, url, branch, CloneError(err)) == (Fail(CloneFailed(url, branch, err)), r);
    }
  }

  /** A failed clone raises the RuntimeError carrying git's stderr (once the
      temporary folder could be created), writes no file, leaves nothing of
      the temporary folder behind and keeps every entry outside it; missing
      directories above the folder may have been created. */
  lemma CloneFailureCleansUp(e: Entries, url: string, branch: string, outDir: Path, env: RepoEnv)
    requires ValidEnv(env) && env.clone.CloneError?
    ensures CleanFailure(e, BackupRepoResult(e, url, branch, outDir, env), Workspace(url, outDir, env),
                         url, branch, env.clone.stderr)
  {
    var temp := Workspace(url, outDir, env);
    var archive := ArchiveFile(ArchiveTarget(url, branch, outDir, env));
    assert env.clone == CloneError(env.clone.stderr);
    StepsCloneFailure(e, temp, archive, url, branch, env.clone.stderr);
  }

  /** The directories above the temporary folder and the archive are the run
      folder and the directories above it. */
  lemma RunFolderChain(url: string, branch: string, outDir: Path, env: RepoEnv)
    requires ValidEnv(env) && outDir != [] && '/' !in branch
    ensures Ancestors(Workspace(url, outDir, env)) == Chain(outDir)
    ensures Ancestors(ArchiveTarget(url, branch, outDir, env)) == Chain(outDir)
  {
    var name := RepoName(url);
    var temp := Workspace(url, outDir, env);
    var zip := ArchiveTarget(url, branch, outDir, env);
    AncestorsOfJoin(outDir, ChildName(outDir, temp));
    ZipPathInRunFolder(outDir, name, branch, env.today.date);
    AncestorsOfJoin(outDir, ChildName(outDir, zip));
  }

  /** The path conditions under which archiving succeeds: the temporary
      folder and the archive both sit in the run folder, apart from each
      other, and no file is in their way. */
  predicate ClearWay(e: Entries, outDir: Path, temp: Path, zip: Path)
  {
    Ancestors(temp) == Chain(outDir) && Ancestors(zip) == Chain(outDir)
    && !Under(temp, zip) && !Under(zip, temp)
    && !AnyFile(e, Chain(outDir)) && !IsFile(e, temp) && !IsDir(e, zip)
  }

  lemma StepsSuccess(e: Entries, outDir: Path, temp: Path, zip: Path, url: string, branch: string)
    requires ClearWay(e, outDir, temp, zip)
    ensures var r := SnapshotSteps(e, temp, zip, url, branch, Cloned);
      r.0 == Pass && IsFile(r.1, zip) &&
      (forall q :: q in r.1 <==> (q in e && !Under(temp, q)) || q in Chain(zip)) &&
      (forall q :: q in r.1 && q != zip ==> r.1[q] == if q in e then e[q] else Dir)
  {
    var made := MakeDirsResult(e, temp);
    assert made.0 == Pass by {
      assert !AnyFile(e, Chain(temp));
    }
    var written := WriteFileResult(made.1, zip);
    assert written.0 == Pass by {
      assert !AnyFile(made.1, Ancestors(zip));
    }
    assert IsDir(written.1, temp);
    var r := RemoveTreeResult(written.1, temp);
    assert SnapshotSteps(e, temp, zip, url, branch, Cloned) == (Pass, r);
    forall q ensures q in r <==> (q in e && !Under(temp, q)) || q in Chain(zip) {
      if q in Chain(temp) && q != temp {
        assert q in Ancestors(temp) && !Under(temp, q);
      }
    }
  }

  /** Under the conditions of `CloneSuccessArchives`, the way is clear. */
  lemma ClearWayOfRun(e: Entries, url: string, branch: string, outDir: Path, env: RepoEnv)
    requires ValidEnv(env) && outDir != [] && '/' !in branch
    requires !Occurs(outDir, ".zip") && !Occurs(RepoName(url), ".zip") && !Occurs(branch, ".zip")
    requires !AnyFile(e, Chain(outDir))
    requires !IsFile(e, Workspace(url, outDir, env)) && !IsDir(e, ArchiveTarget(url, branch, outDir, env))
    ensures ClearWay(e, outDir, Workspace(url, outDir, env), ArchiveTarget(url, branch, outDir, env))
    ensures ArchiveFile(ArchiveTarget(url, branch, outDir, env)) == ArchiveTarget(url, branch, outDir, env)
  {
    RunFolderChain(url, branch, outDir, env);
    ArchiveFileIsZipPath(outDir, RepoName(url), branch, env.today.date);
    TempDirApartFromZipPath(outDir, RepoName(url), branch, env.today.date, env.stamp);
  }

  /** A successful clone into a run folder free of files on its way, with no
      `.zip` in the run folder, name or branch, leaves the archive as a file
      at `zip_path`, with the directories above it, and removes the temporary
      folder; everything else keeps its kind. */
  lemma CloneSuccessArchives(e: Entries, url: string, branch: string, outDir: Path, env: RepoEnv)
    requires ValidEnv(env) && env.clone == Cloned
    requires outDir != [] && '/' !in branch
    requires !Occurs(outDir, ".zip") && !Occurs(RepoName(url), ".zip") && !Occurs(branch, ".zip")
    requires !AnyFile(e, Chain(outDir))
    requires !IsFile(e, Workspace(url, outDir, env)) && !IsDir(e, ArchiveTarget(url, branch, outDir, env))
    ensures var r := BackupRepoResult(e, url, branch, outDir, env);
      var temp := Workspace(url, outDir, env); var zip := ArchiveTarget(url, branch, outDir, env);
      r.0 == Pass && IsFile(r.1, zip) &&
      (forall q :: q in r.1 <==> (q in e && !Under(temp, q)) || q in Chain(zip)) &&
      (forall q :: q in r.1 && q != zip ==> r.1[q] == if q in e then e[q] else Dir)
  {
    ClearWayOfRun(e, url, branch, outDir, env);
    StepsSuccess(e, outDir, Workspace(url, outDir, env), ArchiveTarget(url, branch, outDir, env), url, branch);
  }

  /** After a successful snapshot, nothing lies at or below a temporary
      folder that was absent before, and the way stays clear for it. */
  lemma ClearWayAfter(e: Entries, outDir: Path, temp1: Path, temp2: Path, zip: Path, url: string, branch: string)
    requires ClearWay(e, outDir, temp1, zip)
    requires Ancestors(temp2) == Chain(outDir) && !Under(temp2, zip) && !Under(zip, temp2)
    requires forall q :: q in e ==> !Under(temp2, q)
    ensures var r1 := SnapshotSteps(e, temp1, zip, url, branch, Cloned);
      ClearWay(r1.1, outDir, temp2, zip) && forall q :: q in r1.1 ==> !Under(temp2, q)
  {
    var r1 := SnapshotSteps(e, temp1, zip, url, branch, Cloned);
    StepsSuccess(e, outDir, temp1, zip, url, branch);
    forall q | q in Chain(zip) ensures !Under(temp2, q) && (q != zip ==> r1.1[q] == Dir) {
    }
    assert temp2 !in r1.1 by {
      assert Under(temp2, temp2);
    }
  }

  /** A tree that already holds the archive and the directories above it,
      and nothing of the temporary folder, is a fixed point of a successful
      snapshot. */
  lemma SnapshotFixedPoint(a: Entries, b: Entries, temp: Path, zip: Path)
    requires forall q :: q in b <==> (q in a && !Under(temp, q)) || q in Chain(zip)
    requires forall q :: q in b && q != zip ==> b[q] == if q in a then a[q] else Dir
    requires IsFile(a, zip) && IsFile(b, zip)
    requires forall q :: q in a ==> !Under(temp, q)
    requires forall q :: q in Chain(zip) ==> q in a
    ensures b == a
  {
    assert b.Keys == a.Keys;
  }

  lemma StepsRerun(e: Entries, outDir: Path, temp1: Path, temp2: Path, zip: Path, url: string, branch: string)
    requires ClearWay(e, outDir, temp1, zip)
    requires Ancestors(temp2) == Chain(outDir) && !Under(temp2, zip) && !Under(zip, temp2)
    requires forall q :: q in e ==> !Under(temp2, q)
    ensures var r1 := SnapshotSteps(e, temp1, zip, url, branch, Cloned);
      SnapshotSteps(r1.1, temp2, zip, url, branch, Cloned) == r1
  {
    var r1 := SnapshotSteps(e, temp1, zip, url, branch, Cloned);
    StepsSuccess(e, outDir, temp1, zip, url, branch);
    ClearWayAfter(e, outDir, temp1, temp2, zip, url, branch);
    StepsSuccess(r1.1, outDir, temp2, zip, url, branch);
    var r2 := SnapshotSteps(r1.1, temp2, zip, url, branch, Cloned);
    SnapshotFixedPoint(r1.1, r2.1, temp2, zip);
  }

  /** A second run on the same day, at another time, with the same answer
      from git, writes the same archive path again and leaves the tree as the
      first run left it, provided no old folder has the second run's
      temporary name. */
  lemma SameDayRerun(e: Entries, url: string, branch: string, outDir: Path, env1: RepoEnv, env2: RepoEnv)
    requires ValidEnv(env1) && ValidEnv(env2) && env1.clone == Cloned && env2.clone == Cloned
    requires env1.today.date == env2.today.date
    requires outDir != [] && '/' !in branch
    requires !Occurs(outDir, ".zip") && !Occurs(RepoName(url), ".zip") && !Occurs(branch, ".zip")
    requires !AnyFile(e, Chain(outDir))
    requires !IsFile(e, Workspace(url, outDir, env1)) && !IsDir(e, ArchiveTarget(url, branch, outDir, env1))
    requires forall q :: q in e ==> !Under(Workspace(url, outDir, env2), q)
    ensures ArchiveTarget(url, branch, outDir, env2) == ArchiveTarget(url, branch, outDir, env1)
    ensures var r1 := BackupRepoResult(e, url, branch, outDir, env1);
      BackupRepoResult(r1.1, url, branch, outDir, env2) == r1
  {
    var zip := ArchiveTarget(url, branch, outDir, env1);
    ClearWayOfRun(e, url, branch, outDir, env1);
    RunFolderChain(url, branch, outDir, env2);
    TempDirApartFromZipPath(outDir, RepoName(url), branch, env2.today.date, env2.stamp);
    StepsRerun(e, outDir, Workspace(url, outDir, env1), Workspace(url, outDir, env2), zip, url, branch);
  }
}
