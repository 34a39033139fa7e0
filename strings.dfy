/** The three Python string operations the script applies to URLs and paths:
    `s.rstrip(c)`, `s.split(sep)[-1]` and `s.replace(pat, "")`. */
module Strings {

  /** `s.rstrip(c)` for a single character: drop every trailing `c`. */
  function RStrip(s: string, c: char): (r: string)
    ensures |r| <= |s| && r == s[..|r|]
    ensures r == [] || r[|r| - 1] != c
    ensures forall i :: |r| <= i < |s| ==> s[i] == c
    decreases |s|
  {
    if |s| > 0 && s[|s| - 1] == c then RStrip(s[..|s| - 1], c) else s
  }

  /** `k` copies of `c`. */
  function Repeat(c: char, k: nat): (r: string)
    ensures |r| == k && forall i :: 0 <= i < k ==> r[i] == c
  {
    seq(k, _ => c)
  }

  /** Any number of trailing `c` leaves `RStrip` unchanged. */
  lemma {:induction false} RStripIgnoresTrailing(s: string, c: char, k: nat)
    ensures RStrip(s + Repeat(c, k), c) == RStrip(s, c)
  {
    if k > 0 {
      var t := s + Repeat(c, k);
      assert t[..|t| - 1] == s + Repeat(c, k - 1);
      RStripIgnoresTrailing(s, c, k - 1);
    } else {
      assert s + Repeat(c, 0) == s;
    }
  }

  /** `s.split(sep)[-1]`: the text after the last `sep`, or all of `s` when
      there is none. */
  function LastSegment(s: string, sep: char): (r: string)
    ensures sep !in r
    ensures |r| <= |s| && r == s[|s| - |r|..]
    ensures |r| < |s| ==> s[|s| - |r| - 1] == sep
    decreases |s|
  {
    if |s| == 0 then []
    else if s[|s| - 1] == sep then []
    else
      var init := s[..|s| - 1];
      var r := LastSegment(init, sep);
      assert s[|s| - |r| - 1..] == init[|init| - |r|..] + [s[|s| - 1]];
      assert |r| < |init| ==> s[|s| - |r| - 2] == init[|init| - |r| - 1];
      r + [s[|s| - 1]]
  }

  /** `pat` starts at index `i` of `s`. */
  predicate OccursAt(s: string, pat: string, i: int)
  {
    0 <= i && i + |pat| <= |s| && s[i..i + |pat|] == pat
  }

  predicate Occurs(s: string, pat: string)
  {
    exists i :: 0 <= i <= |s| - |pat| && OccursAt(s, pat, i)
  }

  /** No proper prefix of `pat` is also a suffix of it, so two occurrences
      of `pat` can never overlap (true of ".git" and of ".zip"). */
  predicate Borderless(pat: string)
  {
    forall k :: 0 < k < |pat| ==> pat[..k] != pat[|pat| - k..]
  }

  /** `s.replace(pat, "")`: scanning left to right, delete each occurrence of
      `pat` and resume after it. */
  function Remove(s: string, pat: string): (r: string)
    requires pat != []
    ensures |r| <= |s|
    ensures forall c :: c in r ==> c in s
    decreases |s|
  {
    if |s| < |pat| then s
    else if s[..|pat|] == pat then Remove(s[|pat|..], pat)
    else [s[0]] + Remove(s[1..], pat)
  }

  lemma NoOccurrenceInTail(s: string, pat: string, k: nat)
    requires !Occurs(s, pat) && k <= |s|
    ensures !Occurs(s[k..], pat)
  {
    forall i | 0 <= i <= |s[k..]| - |pat| ensures !OccursAt(s[k..], pat, i) {
      assert s[k..][i..i + |pat|] == s[k + i..k + i + |pat|];
      assert !OccursAt(s, pat, k + i);
    }
  }

  /** Where `pat` does not occur, removing it changes nothing. */
  lemma {:induction false} RemoveAbsent(s: string, pat: string)
    requires pat != [] && !Occurs(s, pat)
    ensures Remove(s, pat) == s
    decreases |s|
  {
    if |s| >= |pat| {
      assert !OccursAt(s, pat, 0);
      NoOccurrenceInTail(s, pat, 1);
      RemoveAbsent(s[1..], pat);
      assert [s[0]] + s[1..] == s;
    }
  }

  /** In `s + pat`, with `s` non-empty and free of a borderless `pat`, the
      first match is not at index 0. */
  lemma NoMatchAtStart(s: string, pat: string)
    requires pat != [] && Borderless(pat) && !Occurs(s, pat) && s != []
    ensures (s + pat)[..|pat|] != pat
  {
    var t := s + pat;
    if |s| >= |pat| {
      assert t[..|pat|] == s[0..|pat|];
      assert !OccursAt(s, pat, 0);
    } else {
      var k := |pat| - |s|;
      assert pat[..k] != pat[|pat| - k..];
      var j :| 0 <= j < k && pat[..k][j] != pat[|pat| - k..][j];
      assert t[|s| + j] == pat[j];
      assert t[..|pat|][|s| + j] != pat[|s| + j];
    }
  }

  /** In a text whose first occurrence of a borderless `pat` follows the
      prefix `s`, that occurrence is deleted, `s` is kept, and the scan goes
      on after it. */
  lemma {:induction false} RemoveFirst(s: string, pat: string, rest: string)
    requires pat != [] && Borderless(pat) && !Occurs(s, pat)
    ensures Remove(s + pat + rest, pat) == s + Remove(rest, pat)
    decreases |s|
  {
    var t := s + pat + rest;
    if |s| == 0 {
      assert t[..|pat|] == pat && t[|pat|..] == rest;
    } else {
      NoMatchAtStart(s, pat);
      assert t[..|pat|] == (s + pat)[..|pat|];
      NoOccurrenceInTail(s, pat, 1);
      RemoveFirst(s[1..], pat, rest);
      assert t[1..] == s[1..] + pat + rest;
      assert [s[0]] + (s[1..] + Remove(rest, pat)) == s + Remove(rest, pat);
    }
  }

  /** An occurrence of `pat` cannot straddle a separator that is not one of
      its characters. */
  lemma NoOccurrenceAcross(a: string, c: char, b: string, pat: string)
    requires !Occurs(a, pat) && !Occurs(b, pat) && c !in pat
    ensures !Occurs(a + [c] + b, pat)
  {
    var s := a + [c] + b;
    forall i | 0 <= i <= |s| - |pat| ensures !OccursAt(s, pat, i) {
      if i + |pat| <= |a| {
        assert s[i..i + |pat|] == a[i..i + |pat|];
        assert !OccursAt(a, pat, i);
      } else if i > |a| {
        assert s[i..i + |pat|] == b[i - |a| - 1..i - |a| - 1 + |pat|];
        assert !OccursAt(b, pat, i - |a| - 1);
      } else {
        assert s[i..i + |pat|][|a| - i] == c;
      }
    }
  }

  /** A text without the first character of `pat` holds no occurrence of it. */
  lemma NoOccurrenceWithoutFirstCharacter(s: string, pat: string)
    requires pat != [] && forall i :: 0 <= i < |s| ==> s[i] != pat[0]
    ensures !Occurs(s, pat)
  {
    forall i | 0 <= i <= |s| - |pat| ensures !OccursAt(s, pat, i) {
      assert s[i..i + |pat|][0] == s[i];
    }
  }
}
