/** The Kotlin string operations the response clean-up relies on, over
    strings as sequences of characters: literal search (`indexOf`), literal
    replacement (`replace(String, String)`), splitting on a literal
    (`split(String)`) and whitespace trimming (`trim()`). */
module Text {
  import opened Wrappers

  /* ----- Occurrences of a literal ----- */

  /** `pat` occurs in `s` starting at index `i`. */
  predicate MatchesAt(s: string, pat: string, i: nat) {
    i + |pat| <= |s| && s[i..i + |pat|] == pat
  }

  /** `pat` occurs somewhere in `s`. */
  ghost predicate Occurs(s: string, pat: string) {
    exists i: nat :: MatchesAt(s, pat, i)
  }

  /** `i` is the leftmost occurrence of `pat` in `s`. */
  ghost predicate IsFirst(s: string, pat: string, i: nat) {
    && MatchesAt(s, pat, i)
    && forall j: nat :: j < i ==> !MatchesAt(s, pat, j)
  }

  /** An occurrence in `b` is an occurrence in `a + b`, shifted by `|a|`. */
  lemma MatchesShift(a: string, b: string, pat: string, i: nat)
    ensures MatchesAt(a + b, pat, |a| + i) <==> MatchesAt(b, pat, i)
  {
    if i + |pat| <= |b| {
      assert (a + b)[|a| + i..|a| + i + |pat|] == b[i..i + |pat|];
    }
  }

  /** Occurrences in the tail of `s` are the occurrences in `s` after index 0. */
  lemma MatchesTail(s: string, pat: string)
    requires |s| > 0
    ensures forall i: nat :: MatchesAt(s[1..], pat, i) <==> MatchesAt(s, pat, i + 1)
    ensures forall i: nat :: i >= 1 ==> (MatchesAt(s, pat, i) <==> MatchesAt(s[1..], pat, i - 1))
  {
    assert s == [s[0]] + s[1..];
    forall i: nat
      ensures MatchesAt(s[1..], pat, i) <==> MatchesAt(s, pat, i + 1)
    {
      MatchesShift([s[0]], s[1..], pat, i);
    }
  }

  /** An occurrence inside the slice `s[lo..hi]` is an occurrence in `s`. */
  lemma MatchesInSlice(s: string, lo: nat, hi: nat, pat: string, j: nat)
    requires lo <= hi <= |s|
    requires MatchesAt(s[lo..hi], pat, j)
    ensures MatchesAt(s, pat, lo + j) && lo + j + |pat| <= hi
  {
    var a := s[lo..hi][j..j + |pat|];
    var b := s[lo + j..lo + j + |pat|];
    assert |a| == |b|;
    assert forall k :: 0 <= k < |a| ==> a[k] == s[lo + j + k] == b[k];
    assert a == b;
  }

  /** A slice of a string free of `pat` is free of `pat`. */
  lemma SliceFree(s: string, lo: nat, hi: nat, pat: string)
    requires lo <= hi <= |s|
    requires !Occurs(s, pat)
    ensures !Occurs(s[lo..hi], pat)
  {
    if Occurs(s[lo..hi], pat) {
      var j: nat :| MatchesAt(s[lo..hi], pat, j);
      MatchesInSlice(s, lo, hi, pat, j);
    }
  }

  /** Two-character windows of `[x] + t`: either the new one at the front or one of `t`'s. */
  lemma OccursCons(x: char, t: string, q: string)
    requires |q| == 2
    ensures Occurs([x] + t, q) <==> (|t| > 0 && x == q[0] && t[0] == q[1]) || Occurs(t, q)
  {
    var s := [x] + t;
    assert s[1..] == t;
    MatchesTail(s, q);
    if Occurs(s, q) {
      var i: nat :| MatchesAt(s, q, i);
      if i == 0 {
        assert s[0..2] == q;
      } else {
        assert MatchesAt(t, q, i - 1);
      }
    }
    if |t| > 0 && x == q[0] && t[0] == q[1] {
      assert s[0..2] == q;
      assert MatchesAt(s, q, 0);
    }
    if Occurs(t, q) {
      var j: nat :| MatchesAt(t, q, j);
      assert MatchesAt(s, q, j + 1);
    }
  }

  /** A two-character literal occurs at `i` exactly when the two characters there are its own. */
  lemma MatchesPair(s: string, q: string, i: nat)
    requires |q| == 2
    ensures MatchesAt(s, q, i) <==> i + 2 <= |s| && s[i] == q[0] && s[i + 1] == q[1]
  {
    if i + 2 <= |s| {
      assert s[i..i + 2] == [s[i], s[i + 1]];
    }
  }

  /** Putting `x` in front of a string free of the two-character literal `q`
      keeps it free unless `x` starts `q` and the string's head ends it. */
  lemma ConsFree(x: char, t: string, q: string)
    requires |q| == 2 && !Occurs(t, q)
    requires |t| == 0 || x != q[0] || t[0] != q[1]
    ensures !Occurs([x] + t, q)
  {
    OccursCons(x, t, q);
  }

  /** A string none of whose characters is `pat`'s first one does not contain `pat`. */
  lemma AbsentHeadAbsent(s: string, pat: string)
    requires |pat| > 0
    requires pat[0] !in s
    ensures !Occurs(s, pat)
  {
    forall i: nat
      ensures !MatchesAt(s, pat, i)
    {
      if i + |pat| <= |s| {
        assert s[i..i + |pat|][0] == s[i];
        assert s[i] in s;
      }
    }
  }

  /* ----- Kotlin's indexOf ----- */

  /** The index of the leftmost occurrence of `pat` in `s`, if any. */
  function Find(s: string, pat: string): (r: Option<nat>)
    ensures r.Some? ==> IsFirst(s, pat, r.value)
    ensures r.None? ==> !Occurs(s, pat)
    decreases |s|
  {
    if |s| < |pat| then None
    else if s[..|pat|] == pat then Some(0)
    else
      MatchesTail(s, pat);
      match Find(s[1..], pat)
      case None => None
      case Some(i) => Some(i + 1)
  }

  /** There is only one leftmost occurrence. */
  lemma FirstUnique(s: string, pat: string, i: nat, j: nat)
    requires IsFirst(s, pat, i) && IsFirst(s, pat, j)
    ensures i == j
  {
  }

  /* ----- Kotlin's replace(String, String) ----- */

  /** Every occurrence of `pat`, found by a left-to-right scan that resumes
      after each match (so occurrences never overlap), is replaced by `rep`. */
  function Replace(s: string, pat: string, rep: string): string
    requires |pat| > 0
    decreases |s|
  {
    if |s| < |pat| then s
    else if s[..|pat|] == pat then rep + Replace(s[|pat|..], pat, rep)
    else [s[0]] + Replace(s[1..], pat, rep)
  }

  /** A string without `pat` is left as it is. */
  lemma {:induction false} ReplaceAbsent(s: string, pat: string, rep: string)
    requires |pat| > 0 && !Occurs(s, pat)
    ensures Replace(s, pat, rep) == s
    decreases |s|
  {
    if |s| >= |pat| {
      assert s[..|pat|] != pat by {
        assert !MatchesAt(s, pat, 0);
      }
      MatchesTail(s, pat);
      ReplaceAbsent(s[1..], pat, rep);
    }
  }

  /** The first character of a replacement: `rep`'s first when `s` starts
      with `pat`, and `s`'s own first otherwise. */
  lemma ReplaceHead(s: string, pat: string, rep: string)
    requires |pat| > 0 && |s| > 0
    ensures MatchesAt(s, pat, 0) && |rep| > 0 ==> |Replace(s, pat, rep)| > 0 && Replace(s, pat, rep)[0] == rep[0]
    ensures !MatchesAt(s, pat, 0) ==> |Replace(s, pat, rep)| > 0 && Replace(s, pat, rep)[0] == s[0]
  {
    assert MatchesAt(s, pat, 0) <==> |s| >= |pat| && s[..|pat|] == pat;
  }

  /** Replacing a two-character literal works piece by piece when the first
      piece does not end with the literal's first character, since then no
      occurrence straddles the seam. */
  lemma {:induction false} ReplaceAppend(a: string, b: string, pat: string, rep: string)
    requires |pat| == 2
    requires |a| == 0 || a[|a| - 1] != pat[0]
    ensures Replace(a + b, pat, rep) == Replace(a, pat, rep) + Replace(b, pat, rep)
    decreases |a|
  {
    if |a| == 0 {
      assert a + b == b;
    } else if |a| == 1 {
      ReplaceAfterForeign(a[0], b, pat, rep);
    } else {
      var s := a + b;
      assert s[..2] == a[..2];
      if a[..2] == pat {
        assert s[2..] == a[2..] + b;
        ReplaceAppend(a[2..], b, pat, rep);
      } else {
        assert s[1..] == a[1..] + b;
        ReplaceAppend(a[1..], b, pat, rep);
      }
    }
  }

  /** A character that cannot start the two-character literal is kept as it is. */
  lemma ReplaceAfterForeign(x: char, b: string, pat: string, rep: string)
    requires |pat| == 2 && x != pat[0]
    ensures Replace([x] + b, pat, rep) == [x] + Replace(b, pat, rep)
  {
    var s := [x] + b;
    assert s[1..] == b;
    if |b| > 0 {
      assert s[..2] == [x, b[0]];
    }
  }

  /** Where no occurrence starts at the front, the first character is kept
      and the scan moves on by one. */
  lemma ReplaceKeep(s: string, pat: string, rep: string)
    requires |pat| > 0 && |s| > 0 && !MatchesAt(s, pat, 0)
    ensures Replace(s, pat, rep) == [s[0]] + Replace(s[1..], pat, rep)
  {
    if |s| < |pat| {
      assert |s[1..]| < |pat|;
      assert [s[0]] + s[1..] == s;
    }
  }

  /** Where an occurrence starts at the front, it is replaced and the scan
      resumes after it. */
  lemma ReplaceAtMatch(s: string, pat: string, rep: string)
    requires |pat| > 0 && MatchesAt(s, pat, 0)
    ensures Replace(s, pat, rep) == rep + Replace(s[|pat|..], pat, rep)
  {
    assert s[..|pat|] == s[0..|pat|];
  }

  /** Replacement skips a prefix in which no occurrence starts. */
  lemma {:induction false} ReplaceSkip(s: string, pat: string, rep: string, i: nat)
    requires |pat| > 0 && i <= |s|
    requires forall j: nat :: j < i ==> !MatchesAt(s, pat, j)
    ensures Replace(s, pat, rep) == s[..i] + Replace(s[i..], pat, rep)
    decreases i
  {
    if i == 0 {
      assert s[i..] == s;
    } else {
      var tail := s[1..];
      ReplaceKeep(s, pat, rep);
      forall j: nat | j < i - 1
        ensures !MatchesAt(tail, pat, j)
      {
        MatchesTail(s, pat);
        assert !MatchesAt(s, pat, j + 1);
      }
      ReplaceSkip(tail, pat, rep, i - 1);
      assert tail[i - 1..] == s[i..];
      assert [s[0]] + tail[..i - 1] == s[..i];
    }
  }

  /* ----- Kotlin's split(String) and its inverse ----- */

  /** All segments of `s` between the occurrences of `delim` found by a
      left-to-right scan, in order; trailing empty segments are kept. */
  function Split(s: string, delim: string): (parts: seq<string>)
    requires |delim| > 0
    ensures |parts| >= 1
    decreases |s|
  {
    match Find(s, delim)
    case None => [s]
    case Some(i) => [s[..i]] + Split(s[i + |delim|..], delim)
  }

  /** There is more than one segment exactly when the delimiter occurs. */
  lemma SplitCount(s: string, delim: string)
    requires |delim| > 0
    ensures |Split(s, delim)| >= 2 <==> Occurs(s, delim)
  {
    match Find(s, delim)
    case None =>
    case Some(i) =>
      assert MatchesAt(s, delim, i);
  }

  /** No segment contains the delimiter. */
  lemma {:induction false} SplitPartsFree(s: string, delim: string)
    requires |delim| > 0
    ensures forall k :: 0 <= k < |Split(s, delim)| ==> !Occurs(Split(s, delim)[k], delim)
    decreases |s|
  {
    match Find(s, delim)
    case None =>
    case Some(i) =>
      var rest := s[i + |delim|..];
      SplitUnfold(s, delim, i);
      SplitPartsFree(rest, delim);
      BeforeFirstFree(s, delim, i);
  }

  /** The text before the leftmost occurrence holds none. */
  lemma BeforeFirstFree(s: string, pat: string, i: nat)
    requires |pat| > 0 && IsFirst(s, pat, i)
    ensures !Occurs(s[..i], pat)
  {
    forall j: nat
      ensures !MatchesAt(s[..i], pat, j)
    {
      assert |s[..i]| == i;
      if j + |pat| <= i {
        assert s[..i][j..j + |pat|] == s[j..j + |pat|];
        assert !MatchesAt(s, pat, j);
      }
    }
  }

  /** Once the leftmost occurrence is known, Split peels off the segment before it. */
  lemma SplitUnfold(s: string, delim: string, i: nat)
    requires |delim| > 0
    requires IsFirst(s, delim, i)
    ensures Split(s, delim) == [s[..i]] + Split(s[i + |delim|..], delim)
  {
    var f := Find(s, delim);
    assert f.Some? by { assert MatchesAt(s, delim, i); }
    FirstUnique(s, delim, f.value, i);
  }

  /** The first segment: everything before the leftmost delimiter, or all of `s`. */
  lemma SplitHead(s: string, delim: string)
    requires |delim| > 0
    ensures forall i: nat :: IsFirst(s, delim, i) ==> Split(s, delim)[0] == s[..i]
    ensures !Occurs(s, delim) ==> Split(s, delim) == [s]
  {
    forall i: nat | IsFirst(s, delim, i)
      ensures Split(s, delim)[0] == s[..i]
    {
      SplitUnfold(s, delim, i);
    }
  }

  /** `j` is the next occurrence of `pat` after the one at `i`. */
  ghost predicate NextAfter(s: string, pat: string, i: nat, j: nat) {
    && i + |pat| <= j
    && MatchesAt(s, pat, j)
    && forall k: nat :: i + |pat| <= k < j ==> !MatchesAt(s, pat, k)
  }

  /** No occurrence of `pat` starts after the one at `i`. */
  ghost predicate NoneAfter(s: string, pat: string, i: nat) {
    forall k: nat :: i + |pat| <= k ==> !MatchesAt(s, pat, k)
  }

  /** Occurrences in a suffix are occurrences in the whole string, shifted. */
  lemma MatchesSuffix(s: string, m: nat, pat: string)
    requires m <= |s|
    ensures forall k: nat :: MatchesAt(s[m..], pat, k) <==> MatchesAt(s, pat, m + k)
  {
    assert s == s[..m] + s[m..];
    forall k: nat
      ensures MatchesAt(s[m..], pat, k) <==> MatchesAt(s, pat, m + k)
    {
      MatchesShift(s[..m], s[m..], pat, k);
    }
  }

  /** The second segment, once the leftmost delimiter is known: the text
      after it up to the next delimiter, or to the end. */
  lemma SplitSecond(s: string, delim: string, i: nat)
    requires |delim| > 0 && IsFirst(s, delim, i)
    ensures |Split(s, delim)| >= 2 && Split(s, delim)[0] == s[..i]
    ensures NoneAfter(s, delim, i) ==> Split(s, delim)[1] == s[i + |delim|..]
    ensures forall j: nat :: NextAfter(s, delim, i, j) ==> Split(s, delim)[1] == s[i + |delim|..j]
  {
    SplitUnfold(s, delim, i);
    if NoneAfter(s, delim, i) {
      SplitSecondLast(s, delim, i);
    }
    forall j: nat | NextAfter(s, delim, i, j)
      ensures Split(s, delim)[1] == s[i + |delim|..j]
    {
      SplitSecondNext(s, delim, i, j);
    }
  }

  /** The second segment stops at the next delimiter. */
  lemma SplitSecondNext(s: string, delim: string, i: nat, j: nat)
    requires |delim| > 0 && IsFirst(s, delim, i) && NextAfter(s, delim, i, j)
    ensures Split(s, delim)[1] == s[i + |delim|..j]
  {
    NextIsFirst(s, delim, i, j);
    SplitSecondAt(s, delim, i, j - (i + |delim|));
  }

  /** The second segment, given where the first delimiter in what follows it starts. */
  lemma SplitSecondAt(s: string, delim: string, i: nat, k: nat)
    requires |delim| > 0 && IsFirst(s, delim, i) && IsFirst(s[i + |delim|..], delim, k)
    ensures Split(s, delim)[1] == s[i + |delim|..i + |delim| + k]
  {
    SplitAfterFirst(s, delim, i);
    SplitBeforeFirst(s[i + |delim|..], delim, k);
    PrefixOfSuffix(s, i + |delim|, i + |delim| + k);
  }

  /** A prefix of a suffix is a slice of the whole. */
  lemma PrefixOfSuffix(s: string, m: nat, n: nat)
    requires m <= n <= |s|
    ensures s[m..][..n - m] == s[m..n]
  {
  }

  /** With no later delimiter, the second segment runs to the end. */
  lemma SplitSecondLast(s: string, delim: string, i: nat)
    requires |delim| > 0 && IsFirst(s, delim, i) && NoneAfter(s, delim, i)
    ensures Split(s, delim)[1] == s[i + |delim|..]
  {
    SplitAfterFirst(s, delim, i);
    NoneAfterFree(s, delim, i);
    SplitHead(s[i + |delim|..], delim);
  }

  /** No later occurrence means what follows is free of the delimiter. */
  lemma NoneAfterFree(s: string, delim: string, i: nat)
    requires NoneAfter(s, delim, i) && i + |delim| <= |s|
    ensures !Occurs(s[i + |delim|..], delim)
  {
    var m := i + |delim|;
    MatchesSuffix(s, m, delim);
    forall k: nat
      ensures !MatchesAt(s[m..], delim, k)
    {
      assert !MatchesAt(s, delim, m + k);
    }
  }

  /** The second segment is the first segment of what follows the leftmost delimiter. */
  lemma SplitAfterFirst(s: string, delim: string, i: nat)
    requires |delim| > 0 && IsFirst(s, delim, i)
    ensures |Split(s, delim)| >= 2 && Split(s, delim)[1] == Split(s[i + |delim|..], delim)[0]
  {
    SplitUnfold(s, delim, i);
  }

  /** The first segment ends at the leftmost delimiter. */
  lemma SplitBeforeFirst(s: string, delim: string, i: nat)
    requires |delim| > 0 && IsFirst(s, delim, i)
    ensures Split(s, delim)[0] == s[..i]
  {
    SplitUnfold(s, delim, i);
  }

  /** The next occurrence is the first one in what follows the current one. */
  lemma NextIsFirst(s: string, delim: string, i: nat, j: nat)
    requires NextAfter(s, delim, i, j)
    ensures IsFirst(s[i + |delim|..], delim, j - (i + |delim|))
  {
    var m := i + |delim|;
    var rest := s[m..];
    assert s == s[..m] + rest;
    MatchesShift(s[..m], rest, delim, j - m);
    forall k: nat | k < j - m
      ensures !MatchesAt(rest, delim, k)
    {
      MatchesShift(s[..m], rest, delim, k);
      assert !MatchesAt(s, delim, m + k);
    }
  }

  /** The first two segments of a string that contains the delimiter: the
      text before its leftmost occurrence, and the text from there up to the
      next occurrence or to the end. */
  lemma SplitFirstTwo(s: string, delim: string)
    requires |delim| > 0
    ensures forall i: nat :: IsFirst(s, delim, i) ==>
              |Split(s, delim)| >= 2 && Split(s, delim)[0] == s[..i]
    ensures forall i: nat, j: nat :: IsFirst(s, delim, i) && NextAfter(s, delim, i, j) ==>
              |Split(s, delim)| >= 2 && Split(s, delim)[1] == s[i + |delim|..j]
    ensures forall i: nat :: IsFirst(s, delim, i) && NoneAfter(s, delim, i) ==>
              |Split(s, delim)| >= 2 && Split(s, delim)[1] == s[i + |delim|..]
  {
    forall i: nat | IsFirst(s, delim, i)
      ensures |Split(s, delim)| >= 2 && Split(s, delim)[0] == s[..i]
      ensures NoneAfter(s, delim, i) ==> Split(s, delim)[1] == s[i + |delim|..]
      ensures forall j: nat :: NextAfter(s, delim, i, j) ==> Split(s, delim)[1] == s[i + |delim|..j]
    {
      SplitSecond(s, delim, i);
    }
  }

  /** Splitting a string free of `q` gives segments free of `q`. */
  lemma {:induction false} SplitKeepsFree(s: string, delim: string, q: string)
    requires |delim| > 0 && !Occurs(s, q)
    ensures forall k :: 0 <= k < |Split(s, delim)| ==> !Occurs(Split(s, delim)[k], q)
    decreases |s|
  {
    match Find(s, delim)
    case None =>
    case Some(i) =>
      var m := i + |delim|;
      SplitUnfold(s, delim, i);
      SliceFree(s, 0, i, q);
      assert s[0..i] == s[..i];
      SliceFree(s, m, |s|, q);
      assert s[m..|s|] == s[m..];
      SplitKeepsFree(s[m..], delim, q);
  }

  /** `parts` glued back together with `sep` between consecutive ones. */
  function Join(parts: seq<string>, sep: string): string
    decreases |parts|
  {
    if |parts| == 0 then []
    else if |parts| == 1 then parts[0]
    else parts[0] + sep + Join(parts[1..], sep)
  }

  /** Splitting loses nothing: joining the segments with the delimiter gives `s` back. */
  lemma {:induction false} JoinSplit(s: string, delim: string)
    requires |delim| > 0
    ensures Join(Split(s, delim), delim) == s
    decreases |s|
  {
    match Find(s, delim)
    case None =>
    case Some(i) =>
      var rest := s[i + |delim|..];
      JoinSplit(rest, delim);
      JoinSplitAtFirst(s, delim, delim, i);
      assert s == s[..i] + delim + rest by {
        assert s[i..i + |delim|] == delim;
        assert s == s[..i] + s[i..i + |delim|] + rest;
      }
  }

  /** Replacing is splitting on `pat` and joining with `rep`. */
  lemma {:induction false} ReplaceIsSplitJoin(s: string, pat: string, rep: string)
    requires |pat| > 0
    ensures Replace(s, pat, rep) == Join(Split(s, pat), rep)
    decreases |s|
  {
    match Find(s, pat)
    case None =>
      ReplaceAbsent(s, pat, rep);
    case Some(i) =>
      var rest := s[i + |pat|..];
      ReplaceIsSplitJoin(rest, pat, rep);
      JoinSplitAtFirst(s, pat, rep, i);
      ReplaceAtFirst(s, pat, rep, i);
  }

  /** Splitting at the leftmost delimiter and joining with `sep`. */
  lemma JoinSplitAtFirst(s: string, delim: string, sep: string, i: nat)
    requires |delim| > 0 && IsFirst(s, delim, i)
    ensures Join(Split(s, delim), sep) == s[..i] + sep + Join(Split(s[i + |delim|..], delim), sep)
  {
    SplitUnfold(s, delim, i);
    JoinCons(s[..i], Split(s[i + |delim|..], delim), sep);
  }

  /** Replacing up to and including the leftmost occurrence. */
  lemma ReplaceAtFirst(s: string, pat: string, rep: string, i: nat)
    requires |pat| > 0 && IsFirst(s, pat, i)
    ensures Replace(s, pat, rep) == s[..i] + rep + Replace(s[i + |pat|..], pat, rep)
  {
    ReplaceBeforeFirst(s, pat, rep, i);
    ReplaceFromFirst(s, pat, rep, i);
    ConcatAssoc(s[..i], rep, Replace(s[i + |pat|..], pat, rep));
  }

  /** Replacing up to the leftmost occurrence keeps the text before it. */
  lemma ReplaceBeforeFirst(s: string, pat: string, rep: string, i: nat)
    requires |pat| > 0 && IsFirst(s, pat, i)
    ensures Replace(s, pat, rep) == s[..i] + Replace(s[i..], pat, rep)
  {
    ReplaceSkip(s, pat, rep, i);
  }

  /** An occurrence at `i` is replaced and the scan resumes after it. */
  lemma ReplaceFromFirst(s: string, pat: string, rep: string, i: nat)
    requires |pat| > 0 && MatchesAt(s, pat, i)
    ensures Replace(s[i..], pat, rep) == rep + Replace(s[i + |pat|..], pat, rep)
  {
    assert s[i..][..|pat|] == s[i..i + |pat|];
    ReplaceAtMatch(s[i..], pat, rep);
    assert s[i..][|pat|..] == s[i + |pat|..];
  }

  /** Concatenation regrouped, stated once so proofs need not rediscover it. */
  lemma ConcatAssoc(a: string, b: string, c: string)
    ensures a + (b + c) == a + b + c
  {
  }

  /** Joining a segment in front of at least one more puts the separator between them. */
  lemma JoinCons(p: string, ps: seq<string>, sep: string)
    requires |ps| >= 1
    ensures Join([p] + ps, sep) == p + sep + Join(ps, sep)
  {
    assert ([p] + ps)[1..] == ps;
  }

  /* ----- Kotlin's trim() ----- */

  /** Kotlin's `Char.isWhitespace()` on the JVM: Java's `Character.isWhitespace`
      (the ASCII controls TAB, LF, VT, FF, CR, FS, GS, RS, US and the space
      separators other than the no-break ones) or `Character.isSpaceChar`
      (the Unicode categories Zs, Zl and Zp, no-break spaces included). */
  predicate IsWhitespace(c: char) {
    || '\t' <= c <= '\r'
    || '\U{1C}' <= c <= '\U{1F}'
    || c == ' ' || c == '\U{A0}' || c == '\U{1680}'
    || '\U{2000}' <= c <= '\U{200A}'
    || c == '\U{2028}' || c == '\U{2029}' || c == '\U{202F}' || c == '\U{205F}'
    || c == '\U{3000}'
  }

  /** `r` is `s[i..i + |r|]` and every character around it in `s` satisfies `drop`. */
  ghost predicate StrippedAt(s: string, drop: char -> bool, r: string, i: nat) {
    && i + |r| <= |s|
    && s[i..i + |r|] == r
    && (forall k :: 0 <= k < i ==> drop(s[k]))
    && (forall k :: i + |r| <= k < |s| ==> drop(s[k]))
  }

  /** The first index at or after `i` whose character `drop` keeps, or `|s|`:
      Kotlin's trim scanning forward from the start. */
  function StartFrom(s: string, drop: char -> bool, i: nat): (n: nat)
    requires i <= |s|
    ensures i <= n <= |s|
    ensures forall k :: i <= k < n ==> drop(s[k])
    ensures n < |s| ==> !drop(s[n])
    decreases |s| - i
  {
    if i < |s| && drop(s[i]) then StartFrom(s, drop, i + 1) else i
  }

  /** The end of `s[lo..j]` once its trailing characters that satisfy `drop`
      are cut off: Kotlin's trim scanning backward from the end, never past
      where the forward scan stopped. */
  function EndFrom(s: string, drop: char -> bool, lo: nat, j: nat): (m: nat)
    requires lo <= j <= |s|
    ensures lo <= m <= j
    ensures forall k :: m <= k < j ==> drop(s[k])
    ensures lo < m ==> !drop(s[m - 1])
    decreases j - lo
  {
    if lo < j && drop(s[j - 1]) then EndFrom(s, drop, lo, j - 1) else j
  }

  /** Kotlin's `trim(predicate)`: the longest slice of `s` that neither
      starts nor ends with a character satisfying `drop`, everything cut off
      satisfying it. */
  function TrimBy(s: string, drop: char -> bool): (r: string)
    ensures exists i: nat :: StrippedAt(s, drop, r, i)
    ensures |r| > 0 ==> !drop(r[0]) && !drop(r[|r| - 1])
    ensures r == [] <==> forall k :: 0 <= k < |s| ==> drop(s[k])
  {
    var n := StartFrom(s, drop, 0);
    var m := EndFrom(s, drop, n, |s|);
    assert StrippedAt(s, drop, s[n..m], n);
    s[n..m]
  }

  /** The contract of TrimBy pins its result down: any slice with only
      dropped characters around it and none at its ends is the trimmed text. */
  lemma TrimByUnique(s: string, drop: char -> bool, r: string, i: nat)
    requires StrippedAt(s, drop, r, i)
    requires |r| > 0 ==> !drop(r[0]) && !drop(r[|r| - 1])
    ensures r == TrimBy(s, drop)
  {
    var t := TrimBy(s, drop);
    var i': nat :| StrippedAt(s, drop, t, i');
    if r == [] {
      assert forall k :: 0 <= k < |s| ==> drop(s[k]) by {
        forall k | 0 <= k < |s| ensures drop(s[k]) {
          assert k < i || i <= k;
        }
      }
    } else {
      assert s[i] == r[0] && s[i + |r| - 1] == r[|r| - 1];
      assert t != [];
      assert s[i'] == t[0] && s[i' + |t| - 1] == t[|t| - 1];
      assert i == i' by {
        assert !(i < i') && !(i' < i);
      }
      assert i + |r| == i' + |t| by {
        assert !(i + |r| < i' + |t|) && !(i' + |t| < i + |r|);
      }
    }
  }

  /** Kotlin's `trim()`, which is `trim(Char::isWhitespace)`. */
  function Trim(s: string): string {
    TrimBy(s, IsWhitespace)
  }

  /** Trimming a string free of `pat` leaves it free of `pat`. */
  lemma TrimByFree(s: string, drop: char -> bool, pat: string)
    requires !Occurs(s, pat)
    ensures !Occurs(TrimBy(s, drop), pat)
  {
    var r := TrimBy(s, drop);
    var i: nat :| StrippedAt(s, drop, r, i);
    SliceFree(s, i, i + |r|, pat);
  }

  /** Kotlin's `trim()` never creates an occurrence of a literal. */
  lemma TrimFree(s: string, pat: string)
    requires !Occurs(s, pat)
    ensures !Occurs(Trim(s), pat)
  {
    TrimByFree(s, IsWhitespace, pat);
  }
}
