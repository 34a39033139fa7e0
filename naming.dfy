/** How `backup_repo` names things: the repository name taken from the URL,
    the archive path `{name}-{branch}-{YYYY-MM-DD}.zip`, the temporary clone
    folder `__tmp_{name}_{HHMMSS}`, both inside the run folder, and the file
    that `make_archive` actually writes once `.zip` has been stripped from the
    whole path string and appended again. */
module Naming {
  import opened Strings
  import opened Calendar
  import opened Files

  /** `url.rstrip("/").split("/")[-1].replace(".git", "")` */
  function RepoName(url: string): (name: string)
    ensures '/' !in name
  {
    Remove(LastSegment(RStrip(url, '/'), '/'), ".git")
  }

  /** `out_dir / f"{repo_name}-{branch}-{today}.zip"` */
  function ZipPath(outDir: Path, name: string, branch: string, today: Date): Path
    requires ValidDate(today)
  {
    Join(outDir, name + "-" + branch + "-" + FormatDate(today) + ".zip")
  }

  /** `out_dir / f"__tmp_{repo_name}_{ts}"` */
  function TempDir(outDir: Path, name: string, stamp: DateTime): (p: Path)
    requires ValidDateTime(stamp)
    ensures '/' !in name ==> IsChild(outDir, p)
    ensures |p| > 0 && IsDigit(p[|p| - 1])
  {
    var leaf := "__tmp_" + name + "_" + FormatTime(stamp);
    assert '/' !in name ==> '/' !in leaf by {
      if '/' in name {
      } else {
        assert forall i :: 0 <= i < |leaf| ==> leaf[i] == '/' ==> 6 <= i < 6 + |name|;
      }
    }
    Join(outDir, leaf)
  }

  /** The file `make_archive(str(zip_path).replace(".zip", ""), "zip", ...)`
      writes: `.zip` is stripped wherever it occurs, then appended once. */
  function ArchiveFile(zipPath: Path): (p: Path)
    ensures |p| >= 4 && p[|p| - 4..] == ".zip"
  {
    Remove(zipPath, ".zip") + ".zip"
  }

  // ----- The repository name -----

  /** Trailing slashes on the URL do not change the name. */
  lemma RepoNameIgnoresTrailingSlashes(url: string, k: nat)
    ensures RepoName(url + Repeat('/', k)) == RepoName(url)
  {
    RStripIgnoresTrailing(url, '/', k);
  }

  lemma PatternsAreBorderless()
    ensures Borderless(".git") && Borderless(".zip")
  {
    forall k | 0 < k < 4 ensures ".git"[..k] != ".git"[4 - k..] {
      assert ".git"[4 - k..][0] == ".git"[4 - k] != '.';
    }
    forall k | 0 < k < 4 ensures ".zip"[..k] != ".zip"[4 - k..] {
      assert ".zip"[4 - k..][0] == ".zip"[4 - k] != '.';
    }
  }

  lemma LastSegmentOfJoin(prefix: string, leaf: string)
    requires '/' !in leaf
    ensures LastSegment(prefix + "/" + leaf, '/') == leaf
  {
    var s := prefix + "/" + leaf;
    var r := LastSegment(s, '/');
    var n := |s| - |leaf|;
    assert s[n - 1] == '/' && s[n..] == leaf;
    var k := |s| - |r|;
    forall i | k <= i < |s| ensures s[i] != '/' {
      assert s[i] == r[i - k] && r[i - k] in r;
    }
    forall i | n <= i < |s| ensures s[i] != '/' {
      assert s[i] == leaf[i - n] && leaf[i - n] in leaf;
    }
  }

  /** The name of `{prefix}/{leaf}` followed by any number of slashes is
      `leaf` with every `.git` removed. */
  lemma RepoNameOfLeaf(prefix: string, leaf: string, k: nat)
    requires leaf != [] && '/' !in leaf
    ensures RepoName(prefix + "/" + leaf + Repeat('/', k)) == Remove(leaf, ".git")
  {
    var url := prefix + "/" + leaf;
    RepoNameIgnoresTrailingSlashes(url, k);
    assert url[|url| - 1] == leaf[|leaf| - 1] && leaf[|leaf| - 1] in leaf;
    assert RStrip(url, '/') == url;
    LastSegmentOfJoin(prefix, leaf);
  }

  /** Every `.git` in the last segment is removed, not only a trailing one:
      `.../{a}.git{b}` is named `{a}{b}`, so `.../repo.git` is `repo` and a
      GitHub Pages repository `.../my.github.io` is `myhub.io`. */
  lemma RepoNameDropsGit(prefix: string, a: string, b: string, k: nat)
    requires '/' !in a && '/' !in b && !Occurs(a, ".git") && !Occurs(b, ".git")
    ensures RepoName(prefix + "/" + (a + ".git" + b) + Repeat('/', k)) == a + b
  {
    var leaf := a + ".git" + b;
    assert '/' !in leaf by {
      assert '/' !in ".git";
      assert forall c :: c in leaf ==> c in a || c in ".git" || c in b;
    }
    RepoNameOfLeaf(prefix, leaf, k);
    PatternsAreBorderless();
    RemoveFirst(a, ".git", b);
    RemoveAbsent(b, ".git");
  }

  /** The same holds without the `.git` suffix. */
  lemma RepoNameOfPlainUrl(prefix: string, n: string, k: nat)
    requires n != [] && '/' !in n && !Occurs(n, ".git")
    ensures RepoName(prefix + "/" + n + Repeat('/', k)) == n
  {
    RepoNameOfLeaf(prefix, n, k);
    RemoveAbsent(n, ".git");
  }

  // ----- The archive path -----

  lemma DateHasNoZip(d: Date)
    requires ValidDate(d)
    ensures !Occurs(FormatDate(d), ".zip")
  {
    var s := FormatDate(d);
    forall i | 0 <= i < |s| ensures s[i] != '.' {
      if i < 4 {
        assert s[..4][i] == s[i];
      } else if 5 <= i < 7 {
        assert s[5..7][i - 5] == s[i];
      } else if 8 <= i {
        assert s[8..][i - 8] == s[i];
      }
    }
    NoOccurrenceWithoutFirstCharacter(s, ".zip");
  }

  /** When `.zip` occurs in none of the run folder, the name and the branch,
      `make_archive` writes exactly `zip_path`. */
  lemma ArchiveFileIsZipPath(outDir: Path, name: string, branch: string, today: Date)
    requires ValidDate(today)
    requires !Occurs(outDir, ".zip") && !Occurs(name, ".zip") && !Occurs(branch, ".zip")
    ensures ArchiveFile(ZipPath(outDir, name, branch, today)) == ZipPath(outDir, name, branch, today)
  {
    var date := FormatDate(today);
    DateHasNoZip(today);
    NoOccurrenceAcross(branch, '-', date, ".zip");
    NoOccurrenceAcross(name, '-', branch + "-" + date, ".zip");
    assert name + "-" + (branch + "-" + date) == name + "-" + branch + "-" + date;
    NoOccurrenceAcross(outDir, '/', name + "-" + branch + "-" + date, ".zip");
    var stem := outDir + "/" + (name + "-" + branch + "-" + date);
    assert stem == outDir + ['/'] + (name + "-" + branch + "-" + date);
    assert ZipPath(outDir, name, branch, today) == stem + ".zip";
    PatternsAreBorderless();
    RemoveFirst(stem, ".zip", "");
    assert stem + ".zip" + "" == stem + ".zip";
  }

  /** Otherwise the file written is not `zip_path`: a `.zip` inside the path
      (say in the branch name) disappears, so `{a}.zip{b}.zip` is written as
      `{a}{b}.zip`. */
  lemma ArchiveFileDropsInnerZip(a: string, b: string)
    requires !Occurs(a, ".zip") && !Occurs(b, ".zip")
    ensures ArchiveFile(a + ".zip" + b + ".zip") == a + b + ".zip"
    ensures ArchiveFile(a + ".zip" + b + ".zip") != a + ".zip" + b + ".zip"
  {
    PatternsAreBorderless();
    RemoveFirst(b, ".zip", "");
    assert b + ".zip" + "" == b + ".zip";
    RemoveFirst(a, ".zip", b + ".zip");
    assert a + ".zip" + (b + ".zip") == a + ".zip" + b + ".zip";
  }

  /** With a plain branch name, the archive sits directly in the run
      folder. */
  lemma ZipPathInRunFolder(outDir: Path, name: string, branch: string, today: Date)
    requires ValidDate(today) && '/' !in name && '/' !in branch
    ensures IsChild(outDir, ZipPath(outDir, name, branch, today))
  {
    var date := FormatDate(today);
    var leaf := name + "-" + branch + "-" + date + ".zip";
    forall i | 0 <= i < |leaf| ensures leaf[i] != '/' {
      if i < |name| {
        assert leaf[i] == name[i];
      } else if |name| < i < |name| + 1 + |branch| {
        assert leaf[i] == branch[i - |name| - 1];
      } else if |name| + 1 + |branch| < i < |name| + |branch| + 12 {
        var j := i - |name| - |branch| - 2;
        assert leaf[i] == date[j];
        if j < 4 {
          assert date[..4][j] == date[j];
        } else if 5 <= j < 7 {
          assert date[5..7][j - 5] == date[j];
        } else if 8 <= j {
          assert date[8..][j - 8] == date[j];
        }
      }
    }
    assert ZipPath(outDir, name, branch, today) == Join(outDir, leaf);
  }

  // ----- The temporary folder never overlaps the archive -----

  lemma {:induction false} TagRepeats(name: string, i: nat)
    requires ("__tmp_" + name)[..|name| + 1] == name + "-"
    requires i <= |name|
    ensures ("__tmp_" + name)[i] == "__tmp_"[i % 6]
    decreases i
  {
    var t := "__tmp_" + name;
    if i >= 6 {
      TagRepeats(name, i - 6);
      assert t[i] == name[i - 6] == (name + "-")[i - 6] == t[..|name| + 1][i - 6] == t[i - 6];
    }
  }

  /** `__tmp_{name}` never starts with `{name}-`. */
  lemma TagDiffers(name: string)
    ensures ("__tmp_" + name)[..|name| + 1] != name + "-"
  {
    if ("__tmp_" + name)[..|name| + 1] == name + "-" {
      TagRepeats(name, |name|);
      assert false;
    }
  }

  lemma DifferentPrefixesApart(a: Path, b: Path, n: nat)
    requires n <= |a| && n <= |b| && a[..n] != b[..n]
    ensures !Under(a, b) && !Under(b, a)
  {
  }

  /** The temporary folder and the archive path are never one inside the
      other, whatever the name, branch, date and time. */
  lemma TempDirApartFromZipPath(outDir: Path, name: string, branch: string, today: Date, stamp: DateTime)
    requires ValidDate(today) && ValidDateTime(stamp)
    ensures !Under(TempDir(outDir, name, stamp), ZipPath(outDir, name, branch, today))
    ensures !Under(ZipPath(outDir, name, branch, today), TempDir(outDir, name, stamp))
  {
    var z := ZipPath(outDir, name, branch, today);
    var t := TempDir(outDir, name, stamp);
    var n := |outDir| + 1 + |name| + 1;
    TagDiffers(name);
    assert z[..n] == outDir + "/" + (name + "-");
    assert t[..n] == outDir + "/" + ("__tmp_" + name)[..|name| + 1];
    assert z[..n][|outDir| + 1..] == name + "-";
    assert t[..n][|outDir| + 1..] == ("__tmp_" + name)[..|name| + 1];
    DifferentPrefixesApart(t, z, n);
  }
}
