/** The part of the file system the script touches: a tree of directories
    and files named by '/'-separated paths, and the three operations it
    applies to it (`mkdir(parents=True, exist_ok=True)`, `shutil.rmtree(...,
    ignore_errors=True)` and writing an archive file). */
module Files {
  import opened Outcomes

  type Path = string

  datatype Kind = Dir | File

  type Entries = map<Path, Kind>

  /** `p / name` */
  function Join(p: Path, name: string): (r: Path)
    ensures |r| == |p| + 1 + |name| && r[..|p| + 1] == p + "/" && r[|p| + 1..] == name
  {
    p + "/" + name
  }

  /** `q` is `p` itself or lies somewhere below it. */
  predicate Under(p: Path, q: Path)
  {
    q == p || (|p| < |q| && q[..|p| + 1] == p + "/")
  }

  /** `c` is an entry directly inside `p`, as `p.iterdir()` lists them. */
  predicate IsChild(p: Path, c: Path)
  {
    |p| + 1 < |c| && c[..|p| + 1] == p + "/" && '/' !in c[|p| + 1..]
  }

  /** The last component of a child of `p` (`child.name`). */
  function ChildName(p: Path, c: Path): (name: string)
    requires IsChild(p, c)
    ensures c == Join(p, name) && name != [] && '/' !in name
  {
    c[|p| + 1..]
  }

  /** The directories above `p`: every non-empty prefix that ends just
      before a '/'. */
  function Ancestors(p: Path): (r: set<Path>)
    ensures forall a :: a in r ==> |a| < |p| && Under(a, p)
  {
    set i | 0 < i < |p| && p[i] == '/' :: p[..i]
  }

  /** `p` and the directories above it. */
  function Chain(p: Path): set<Path>
  {
    Ancestors(p) + {p}
  }

  predicate IsDir(e: Entries, p: Path)
  {
    p in e && e[p] == Dir
  }

  predicate IsFile(e: Entries, p: Path)
  {
    p in e && e[p] == File
  }

  /** Some path in `ps` is an existing file. */
  predicate AnyFile(e: Entries, ps: set<Path>)
  {
    exists a :: a in ps && IsFile(e, a)
  }

  /** `p.mkdir(parents=True, exist_ok=True)`: create `p` and the missing
      directories above it; an existing directory is not an error, but a
      file anywhere on the way raises (FileExistsError, NotADirectoryError)
      and nothing is created. */
  function MakeDirsResult(e: Entries, p: Path): (r: (Outcome, Entries))
    ensures r.0.Pass? <==> !AnyFile(e, Chain(p))
    ensures r.0.Fail? ==> r.0 == Fail(PathConflict(p)) && r.1 == e
    ensures r.0.Pass? ==> r.1.Keys == e.Keys + Chain(p)
    ensures r.0.Pass? ==> forall a :: a in Chain(p) ==> r.1[a] == Dir
    ensures forall q :: q in e ==> q in r.1 && r.1[q] == e[q]
  {
    if AnyFile(e, Chain(p)) then (Fail(PathConflict(p)), e)
    else (Pass, e + map a | a in Chain(p) :: Dir)
  }

  /** `shutil.rmtree(p, ignore_errors=True)`: when `p` is a directory, it and
      everything below it disappear; otherwise the error is swallowed and
      nothing changes. */
  function RemoveTreeResult(e: Entries, p: Path): (r: Entries)
    ensures forall q :: q in r <==> q in e && !(IsDir(e, p) && Under(p, q))
    ensures forall q :: q in r ==> r[q] == e[q]
  {
    if IsDir(e, p) then map q | q in e && !Under(p, q) :: e[q] else e
  }

  /** `shutil.make_archive` writing the zip file `p`: the missing directories
      above it are created and the file is written, replacing an older file
      of that name; a file above it, or a directory at `p`, raises and
      nothing is written. */
  function WriteFileResult(e: Entries, p: Path): (r: (Outcome, Entries))
    ensures r.0.Pass? <==> !AnyFile(e, Ancestors(p)) && !IsDir(e, p)
    ensures r.0.Fail? ==> r.0 == Fail(PathConflict(p)) && r.1 == e
    ensures r.0.Pass? ==> r.1.Keys == e.Keys + Chain(p) && r.1[p] == File
    ensures r.0.Pass? ==> forall a :: a in Ancestors(p) ==> r.1[a] == Dir
    ensures forall q :: q in e && q != p ==> q in r.1 && r.1[q] == e[q]
  {
    if AnyFile(e, Ancestors(p)) || IsDir(e, p) then (Fail(PathConflict(p)), e)
    else (Pass, (e + map a | a in Ancestors(p) :: Dir)[p := File])
  }

  /** The directory tree the script works in. */
  class FileTree {
    var entries: Entries

    constructor (initial: Entries)
      ensures entries == initial
    {
      entries := initial;
    }

    /** `p.exists()` */
    function Exists(p: Path): (b: bool)
      reads this
      ensures b <==> p in entries
    {
      p in entries
    }

    /** `ensure_dir(p)` */
    method MakeDirs(p: Path) returns (o: Outcome)
      modifies this
      ensures (o, entries) == MakeDirsResult(old(entries), p)
    {
      var r := MakeDirsResult(entries, p);
      o, entries := r.0, r.1;
    }

    /** `shutil.rmtree(p, ignore_errors=True)` */
    method RemoveTree(p: Path)
      modifies this
      ensures entries == RemoveTreeResult(old(entries), p)
    {
      entries := RemoveTreeResult(entries, p);
    }

    /** `shutil.make_archive` producing the file `p` */
    method WriteFile(p: Path) returns (o: Outcome)
      modifies this
      ensures (o, entries) == WriteFileResult(old(entries), p)
    {
      var r := WriteFileResult(entries, p);
      o, entries := r.0, r.1;
    }
  }

  /** The directories above `p / name`, for a plain `name`, are those above
      `p` and `p` itself. */
  lemma AncestorsOfJoin(p: Path, name: string)
    requires p != [] && '/' !in name
    ensures Ancestors(Join(p, name)) == Ancestors(p) + {p}
  {
    var q := Join(p, name);
    forall a | a in Ancestors(q) ensures a in Ancestors(p) + {p} {
      var i :| 0 < i < |q| && q[i] == '/' && a == q[..i];
      if i < |p| {
        assert q[..i] == p[..i] && p[i] == '/';
        assert a in Ancestors(p);
      } else if i == |p| {
        assert a == p;
      } else {
        assert false;  // q[i] would be a '/' inside name
      }
    }
    forall a | a in Ancestors(p) + {p} ensures a in Ancestors(q) {
      if a == p {
        assert q[|p|] == '/' && q[..|p|] == p;
      } else {
        var i :| 0 < i < |p| && p[i] == '/' && a == p[..i];
        assert q[i] == '/' && q[..i] == a;
      }
    }
  }

  /** Two paths above the same path are one above the other. */
  lemma UnderComparable(c: Path, p: Path, q: Path)
    requires Under(c, q) && Under(p, q) && |c| <= |p|
    ensures Under(c, p)
  {
    if p != q {
      assert q[..|c| + 1] == q[..|p| + 1][..|c| + 1];
      if |c| < |p| {
        assert p[..|c| + 1] == (p + "/")[..|c| + 1];
      } else {
        assert c == (c + "/")[..|c|] && p == (p + "/")[..|p|];
      }
    }
  }

  /** What lies below a child of `p` lies below `p`, but is not itself a
      child of `p`. */
  lemma BelowChild(p: Path, c: Path, q: Path)
    requires IsChild(p, c)
    ensures Under(c, q) ==> Under(p, q) && q != p
    ensures Under(c, q) && q != c ==> !IsChild(p, q)
  {
    if Under(c, q) {
      assert q[..|p| + 1] == q[..|c|][..|p| + 1];
      if q != c {
        assert q[..|c| + 1][..|c|] == c;
        assert q[|c|] == (c + "/")[|c|] == '/';
        assert q[|p| + 1..][|c| - |p| - 1] == q[|c|];
      }
    }
  }
}
