/** `delete_old_backups(base_dir, keep_days)`: the run folders directly inside
    the backup folder are named by date; every one whose date, read at
    midnight, is strictly earlier than `now - keep_days` days is removed with
    everything inside it. Other entries, and folders whose names are not
    dates, are left alone. */
module Retention {
  import opened Outcomes
  import opened Calendar
  import opened Files

  /** A point in time as a day number (`toordinal()`) and the microseconds
      since that day's midnight. */
  datatype Instant = Instant(ordinal: int, micros: int)

  /** The largest number of days `timedelta` accepts. */
  const MAX_DELTA_DAYS := 999_999_999

  /** `now - timedelta(days=keep_days)`, or None where Python raises
      OverflowError: the day count is beyond what `timedelta` holds, or the
      result falls outside years 1 to 9999. The time of day is kept. */
  function Cutoff(now: DateTime, keepDays: int): (r: Option<Instant>)
    requires ValidDateTime(now)
    ensures r.Some? <==> -MAX_DELTA_DAYS <= keepDays <= MAX_DELTA_DAYS && 1 <= Ordinal(now.date) - keepDays <= MAX_ORDINAL
    ensures r.Some? ==> r.value.ordinal + keepDays == Ordinal(now.date) && r.value.micros == now.micros
  {
    var n := Ordinal(now.date) - keepDays;
    if -MAX_DELTA_DAYS <= keepDays <= MAX_DELTA_DAYS && 1 <= n <= MAX_ORDINAL then Some(Instant(n, now.micros))
    else None
  }

  /** `folder_date < cutoff`, where `folder_date` is midnight of `d`. */
  predicate Expired(d: Date, cut: Instant)
    requires ValidDate(d)
  {
    Ordinal(d) < cut.ordinal || (Ordinal(d) == cut.ordinal && 0 < cut.micros)
  }

  /** The entries `base_dir.iterdir()` lists. */
  function Children(e: Entries, base: Path): (r: set<Path>)
    ensures forall c :: c in r <==> c in e && IsChild(base, c)
  {
    set c | c in e && IsChild(base, c)
  }

  /** `c` is a child of `base` that the loop removes: a directory whose name
      parses as `%Y-%m-%d` to a date that has expired. */
  predicate Selected(e: Entries, base: Path, cut: Instant, c: Path)
  {
    IsChild(base, c) && IsDir(e, c) && ParseDate(ChildName(base, c)).Some?
      && Expired(ParseDate(ChildName(base, c)).value, cut)
  }

  /** What is left of `e` once the selected folders among `cs` are removed
      with everything inside them. */
  function PruneAmong(e: Entries, base: Path, cut: Instant, cs: set<Path>): Entries
  {
    WithoutTrees(e, Expiring(e, base, cut, cs))
  }

  /** The selected folders among `cs`. */
  function Expiring(e: Entries, base: Path, cut: Instant, cs: set<Path>): (r: set<Path>)
    ensures forall c :: c in r <==> c in cs && Selected(e, base, cut, c)
  {
    set c | c in cs && Selected(e, base, cut, c)
  }

  /** `e` without the trees rooted at `roots`. */
  function WithoutTrees(e: Entries, roots: set<Path>): (r: Entries)
    ensures forall q :: q in r <==> q in e && !(exists c :: c in roots && Under(c, q))
    ensures forall q :: q in r ==> r[q] == e[q]
  {
    map q | q in e && !(exists c :: c in roots && Under(c, q)) :: e[q]
  }

  /** Removing one more directory tree is removing it along with the rest. */
  lemma RemoveOneMore(e: Entries, roots: set<Path>, c: Path)
    requires IsDir(WithoutTrees(e, roots), c)
    ensures RemoveTreeResult(WithoutTrees(e, roots), c) == WithoutTrees(e, roots + {c})
  {
    var lhs := RemoveTreeResult(WithoutTrees(e, roots), c);
    var rhs := WithoutTrees(e, roots + {c});
    forall q ensures q in lhs <==> q in rhs {
      if q in e && Under(c, q) {
        assert c in roots + {c};
      }
    }
    assert lhs == rhs;
  }

  /** The outcome and the tree after `delete_old_backups(base, keep_days)`
      run at `now`: nothing happens when the folder is missing; the cutoff
      overflowing, or `base` being a file (`iterdir` on a non-directory),
      raises; otherwise the selected children are removed. */
  function PruneResult(e: Entries, base: Path, keepDays: int, now: DateTime): (r: (Outcome, Entries))
    requires ValidDateTime(now)
  {
    if base !in e then (Pass, e)
    else if Cutoff(now, keepDays).None? then (Fail(DateOverflow), e)
    else if IsFile(e, base) then (Fail(PathConflict(base)), e)
    else (Pass, PruneAmong(e, base, Cutoff(now, keepDays).value, Children(e, base)))
  }

  /** Two children of `base`, one containing the other, are the same. */
  lemma ChildrenApart(base: Path, c: Path, d: Path)
    requires IsChild(base, c) && IsChild(base, d)
    ensures Under(c, d) ==> c == d
  {
    var n := |base| + 1;
    forall i | n <= i < |d| ensures d[i] != '/' {
      assert d[i] == d[n..][i - n];
    }
    forall j | n <= j < |d| ensures d[..j + 1][j] == d[j] {
    }
    assert (c + "/")[|c|] == '/' && |c| >= n;
  }

  /** `delete_old_backups`: the cutoff is read once, then each child listed
      by `iterdir` is looked at in turn, and an expired dated folder is
      removed with `rmtree`. */
  method DeleteOldBackups(fs: FileTree, base: Path, keepDays: int, now: DateTime) returns (o: Outcome)
    requires ValidDateTime(now)
    modifies fs
    ensures (o, fs.entries) == PruneResult(old(fs.entries), base, keepDays, now)
  {
    if !fs.Exists(base) {
      return Pass;
    }
    var cutoff := Cutoff(now, keepDays);
    if cutoff.None? {
      return Fail(DateOverflow);
    }
    var cut := cutoff.value;
    if IsFile(fs.entries, base) {
      return Fail(PathConflict(base));
    }
    PruneChildren(fs, base, cut);
    return Pass;
  }

  /** The loop of `delete_old_backups` over the listed children of `base`,
      each child looked at once, in any order. */
  method PruneChildren(fs: FileTree, base: Path, cut: Instant)
    modifies fs
    ensures fs.entries == PruneAmong(old(fs.entries), base, cut, Children(old(fs.entries), base))
  {
    ghost var e0 := fs.entries;
    var todo := Children(fs.entries, base);
    ghost var done: set<Path> := {};
    while todo != {}
      invariant todo + done == Children(e0, base)
      invariant todo !! done
      invariant fs.entries == PruneAmong(e0, base, cut, done)
      decreases |todo|
    {
      var c :| c in todo;
      PruneChild(fs, base, cut, e0, done, c);
      assert (todo - {c}) + (done + {c}) == todo + done;
      todo := todo - {c};
      done := done + {c};
    }
  }

  /** One pass of the loop of `delete_old_backups`: the child `c` is removed
      when it is a directory whose name parses to a date before the cutoff,
      and kept otherwise, so the tree goes from the pruning of the children
      `done` to the pruning of `done` and `c`. */
  method PruneChild(fs: FileTree, base: Path, cut: Instant, ghost e0: Entries, ghost done: set<Path>, c: Path)
    requires c in e0 && IsChild(base, c) && c !in done
    requires fs.entries == PruneAmong(e0, base, cut, done)
    modifies fs
    ensures fs.entries == PruneAmong(e0, base, cut, done + {c})
  {
    StillListed(e0, base, cut, done, c);
    if IsDir(fs.entries, c) {
      var d := ParseDate(ChildName(base, c));
      if d.Some? && Expired(d.value, cut) {
        fs.RemoveTree(c);
        PruneStep(e0, base, cut, done, c);
      } else {
        PruneSkip(e0, base, cut, done, c);
      }
    } else {
      PruneSkip(e0, base, cut, done, c);
    }
  }

  /** A child not yet looked at is still there, as it was. */
  lemma StillListed(e: Entries, base: Path, cut: Instant, done: set<Path>, c: Path)
    requires c in e && IsChild(base, c) && c !in done
    ensures c in PruneAmong(e, base, cut, done) && PruneAmong(e, base, cut, done)[c] == e[c]
  {
    forall d | d in done && Selected(e, base, cut, d) && Under(d, c) ensures false {
      ChildrenApart(base, d, c);
    }
  }

  lemma ExpiringOneMore(e: Entries, base: Path, cut: Instant, done: set<Path>, c: Path)
    ensures Selected(e, base, cut, c) ==> Expiring(e, base, cut, done + {c}) == Expiring(e, base, cut, done) + {c}
    ensures !Selected(e, base, cut, c) ==> Expiring(e, base, cut, done + {c}) == Expiring(e, base, cut, done)
  {
  }

  /** Removing a selected child extends the pruned set by it. */
  lemma PruneStep(e: Entries, base: Path, cut: Instant, done: set<Path>, c: Path)
    requires Selected(e, base, cut, c) && c !in done
    ensures RemoveTreeResult(PruneAmong(e, base, cut, done), c) == PruneAmong(e, base, cut, done + {c})
  {
    var roots := Expiring(e, base, cut, done);
    assert IsDir(WithoutTrees(e, roots), c) by {
      StillListed(e, base, cut, done, c);
    }
    ExpiringOneMore(e, base, cut, done, c);
    RemoveOneMore(e, roots, c);
  }

  /** A child that is not selected changes nothing. */
  lemma PruneSkip(e: Entries, base: Path, cut: Instant, done: set<Path>, c: Path)
    requires c in e && IsChild(base, c) && c !in done
    requires !(IsDir(PruneAmong(e, base, cut, done), c) && ParseDate(ChildName(base, c)).Some?
               && Expired(ParseDate(ChildName(base, c)).value, cut))
    ensures PruneAmong(e, base, cut, done) == PruneAmong(e, base, cut, done + {c})
  {
    assert !Selected(e, base, cut, c) by {
      StillListed(e, base, cut, done, c);
    }
    ExpiringOneMore(e, base, cut, done, c);
  }

  // ----- Properties of the selection -----

  /** Comparing by day number is Python's datetime comparison: midnight of
      `d` is before the cutoff `cd` exactly when `d` is an earlier date, or
      the same date and the cutoff is past midnight. */
  lemma ExpiredMeansEarlier(d: Date, cd: DateTime, cut: Instant)
    requires ValidDate(d) && ValidDateTime(cd)
    requires cut.ordinal == Ordinal(cd.date) && cut.micros == cd.micros
    ensures Expired(d, cut) <==> DateBefore(d, cd.date) || (d == cd.date && 0 < cd.micros)
  {
    OrdinalOrder(d, cd.date);
  }

  /** With fourteen days kept, a run at 10:00 on 2024-03-01 removes the
      folders of 2024-02-10 and 2024-02-15 (20 and 15 days back) and of
      2024-02-16 (14 days back, since the cutoff carries the time of day),
      and keeps those of 2024-02-17 and 2024-02-29 (13 days and 1 day
      back); a run at midnight keeps 2024-02-16 too. */
  lemma FourteenDayBoundary()
    ensures var cut := Cutoff(DateTime(Date(2024, 3, 1), 36_000_000_000), 14);
      cut.Some? && Expired(Date(2024, 2, 10), cut.value) && Expired(Date(2024, 2, 15), cut.value)
      && Expired(Date(2024, 2, 16), cut.value)
      && !Expired(Date(2024, 2, 17), cut.value) && !Expired(Date(2024, 2, 29), cut.value)
    ensures var cut := Cutoff(DateTime(Date(2024, 3, 1), 0), 14);
      cut.Some? && !Expired(Date(2024, 2, 16), cut.value) && Expired(Date(2024, 2, 15), cut.value)
  {
    assert Ordinal(Date(2024, 3, 1)) == 738946;
  }

  /** The entries `e` had below a removed child lie strictly below `base`. */
  lemma SelectedInsideBase(e: Entries, base: Path, cut: Instant, c: Path, q: Path)
    requires Selected(e, base, cut, c) && Under(c, q)
    ensures |base| < |q| && q[..|base| + 1] == base + "/"
  {
    if q != c {
      assert q[..|c| + 1][..|base| + 1] == q[..|base| + 1];
      assert (c + "/")[..|base| + 1] == c[..|base| + 1];
    }
  }

  /** When pruning goes ahead, exactly the children of `base` that are
      directories named by an expired date disappear, together with what
      is inside them; every other child stays as it was. */
  lemma PruneSelectsChildren(e: Entries, base: Path, keepDays: int, now: DateTime)
    requires ValidDateTime(now)
    requires base in e && Cutoff(now, keepDays).Some? && !IsFile(e, base)
    ensures var r := PruneResult(e, base, keepDays, now); var cut := Cutoff(now, keepDays).value;
      r.0 == Pass &&
      forall c :: c in e && IsChild(base, c) ==>
        (c !in r.1 <==> IsDir(e, c) && ParseDate(ChildName(base, c)).Some?
                         && Expired(ParseDate(ChildName(base, c)).value, cut))
  {
    var cut := Cutoff(now, keepDays).value;
    forall c, d | c in e && IsChild(base, c) && d in Children(e, base) && Selected(e, base, cut, d) && Under(d, c)
      ensures d == c
    {
      ChildrenApart(base, d, c);
    }
  }

  /** Pruning never adds or changes an entry, and leaves everything that is
      not strictly inside `base` alone; when `base` is missing it passes
      without changing anything, and when it raises the tree is unchanged. */
  lemma PruneFrame(e: Entries, base: Path, keepDays: int, now: DateTime)
    requires ValidDateTime(now)
    ensures var r := PruneResult(e, base, keepDays, now);
      (forall q :: q in r.1 ==> q in e && r.1[q] == e[q]) &&
      (forall q :: q in e && !(|base| < |q| && q[..|base| + 1] == base + "/") ==> q in r.1) &&
      (base !in e || r.0.Fail? ==> r.1 == e) &&
      (base !in e ==> r == (Pass, e))
  {
    if base in e && Cutoff(now, keepDays).Some? && !IsFile(e, base) {
      var cut := Cutoff(now, keepDays).value;
      forall q, c | q in e && c in Children(e, base) && Selected(e, base, cut, c) && Under(c, q)
        ensures |base| < |q| && q[..|base| + 1] == base + "/"
      {
        SelectedInsideBase(e, base, cut, c, q);
      }
    }
  }

  /** A second pruning at the same time removes nothing more, and ends as
      the first did. */
  lemma PruneIdempotent(e: Entries, base: Path, keepDays: int, now: DateTime)
    requires ValidDateTime(now)
    ensures var r := PruneResult(e, base, keepDays, now);
      PruneResult(r.1, base, keepDays, now) == r
  {
    var r := PruneResult(e, base, keepDays, now);
    if base in e && Cutoff(now, keepDays).Some? && !IsFile(e, base) {
      var cut := Cutoff(now, keepDays).value;
      PruneFrame(e, base, keepDays, now);
      assert base in r.1 && r.1[base] == e[base];
      forall c | c in Children(r.1, base) ensures !Selected(r.1, base, cut, c) {
        assert Selected(r.1, base, cut, c) ==> Selected(e, base, cut, c);
        assert Under(c, c) && c in Children(e, base);
      }
      PruneAmongNone(r.1, base, cut, Children(r.1, base));
    }
  }

  /** Where no candidate is selected, pruning keeps everything. */
  lemma PruneAmongNone(e: Entries, base: Path, cut: Instant, cs: set<Path>)
    requires forall c :: c in cs ==> !Selected(e, base, cut, c)
    ensures PruneAmong(e, base, cut, cs) == e
  {
    var r := PruneAmong(e, base, cut, cs);
    assert forall q :: q in r <==> q in e;
  }
}
