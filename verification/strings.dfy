/**
 Text operations the pipeline borrows from Python's `str`: stripping edge
 whitespace, deleting every occurrence of a fixed word, finding a word, and
 the code-point ordering of strings used when sorting.
 */
module Strings {
  import opened Sequences

  type String = seq<char>

  /** The whitespace `str.strip()` removes, restricted to the ASCII range. */
  predicate IsSpace(c: char)
  {
    c == ' ' || c == '\t' || c == '\n' || c == '\r' || c == '\U{000B}' || c == '\U{000C}'
    || c == '\U{001C}' || c == '\U{001D}' || c == '\U{001E}' || c == '\U{001F}'
  }

  predicate AllSpace(s: String)
  {
    forall i :: 0 <= i < |s| ==> IsSpace(s[i])
  }

  /** `s` neither begins nor ends with whitespace. */
  predicate Trimmed(s: String)
  {
    |s| == 0 || (!IsSpace(s[0]) && !IsSpace(s[|s| - 1]))
  }

  /** `r` is `s` with some whitespace cut from each end. */
  ghost predicate IsInnerPart(s: String, r: String)
  {
    exists a :: 0 <= a <= |s| - |r| && s[a..a + |r|] == r && AllSpace(s[..a]) && AllSpace(s[a + |r|..])
  }

  /** The first position at or after `i` that does not hold whitespace. */
  function SkipSpaces(s: String, i: nat): (a: nat)
    requires i <= |s|
    ensures i <= a <= |s|
    ensures forall k :: i <= k < a ==> IsSpace(s[k])
    ensures a == |s| || !IsSpace(s[a])
    decreases |s| - i
  {
    if i < |s| && IsSpace(s[i]) then SkipSpaces(s, i + 1) else i
  }

  /** The end of `s[lo..j]` once its trailing whitespace is dropped. */
  function DropSpaces(s: String, lo: nat, j: nat): (b: nat)
    requires lo <= j <= |s|
    ensures lo <= b <= j
    ensures forall k :: b <= k < j ==> IsSpace(s[k])
    ensures b == lo || !IsSpace(s[b - 1])
    decreases j
  {
    if j > lo && IsSpace(s[j - 1]) then DropSpaces(s, lo, j - 1) else j
  }

  /**
   Python's `str.strip()` with no argument: the part of `s` between its
   leading and its trailing whitespace.
   */
  function Strip(s: String): (r: String)
    ensures Trimmed(r) && |r| <= |s|
    ensures IsInnerPart(s, r)
    ensures Trimmed(s) ==> r == s
  {
    var a := SkipSpaces(s, 0);
    var b := DropSpaces(s, a, |s|);
    MarginsAreBlank(s, a, b);
    CutIsTrimmed(s, a, b);
    s[a..b]
  }

  lemma MarginsAreBlank(s: String, a: nat, b: nat)
    requires a <= b <= |s|
    requires forall k :: 0 <= k < a ==> IsSpace(s[k])
    requires forall k :: b <= k < |s| ==> IsSpace(s[k])
    ensures IsInnerPart(s, s[a..b])
  {
    assert s[a..a + |s[a..b]|] == s[a..b];
    assert AllSpace(s[..a]);
    assert AllSpace(s[b..]);
  }

  /** The cut between the two scans is trimmed, and a trimmed string is not cut. */
  lemma CutIsTrimmed(s: String, a: nat, b: nat)
    requires a == SkipSpaces(s, 0) && b == DropSpaces(s, a, |s|)
    ensures Trimmed(s[a..b])
    ensures Trimmed(s) ==> a == 0 && b == |s|
  {
    if a < b {
      assert s[a..b][0] == s[a] && s[a..b][b - a - 1] == s[b - 1];
    }
  }

  /**
   Stripping is determined by its two properties: the only trimmed string
   obtained from `s` by cutting whitespace off its ends is `Strip(s)`.
   */
  lemma StripCharacterized(s: String, r: String)
    requires Trimmed(r) && IsInnerPart(s, r)
    ensures r == Strip(s)
  {
    var c :| 0 <= c <= |s| - |r| && s[c..c + |r|] == r && AllSpace(s[..c]) && AllSpace(s[c + |r|..]);
    StripAt(s, r, c);
  }

  /** `Strip` finds the inner part `r` that sits at position `c`. */
  lemma StripAt(s: String, r: String, c: nat)
    requires Trimmed(r) && c + |r| <= |s| && s[c..c + |r|] == r
    requires AllSpace(s[..c]) && AllSpace(s[c + |r|..])
    ensures r == Strip(s)
  {
    var b := c + |r|;
    BlankMargins(s, c, b);
    if r == [] {
      AllBlank(s);
    } else {
      assert s[c] == r[0] && s[b - 1] == r[|r| - 1];
      SameCut(s, c, b);
    }
  }

  /** The blank margins of an inner part, position by position. */
  lemma BlankMargins(s: String, a: nat, b: nat)
    requires a <= b <= |s| && AllSpace(s[..a]) && AllSpace(s[b..])
    ensures forall k :: 0 <= k < a ==> IsSpace(s[k])
    ensures forall k :: b <= k < |s| ==> IsSpace(s[k])
  {
    assert forall k :: 0 <= k < a ==> s[..a][k] == s[k];
    assert forall k :: b <= k < |s| ==> s[b..][k - b] == s[k];
  }

  /** A string of blanks strips to nothing. */
  lemma AllBlank(s: String)
    requires forall k :: 0 <= k < |s| ==> IsSpace(s[k])
    ensures SkipSpaces(s, 0) == |s|
  {
  }

  /** Blank margins around non-blank ends are exactly where the scans stop. */
  lemma SameCut(s: String, a: nat, b: nat)
    requires a < b <= |s| && !IsSpace(s[a]) && !IsSpace(s[b - 1])
    requires forall k :: 0 <= k < a ==> IsSpace(s[k])
    requires forall k :: b <= k < |s| ==> IsSpace(s[k])
    ensures SkipSpaces(s, 0) == a && DropSpaces(s, a, |s|) == b
  {
  }

  lemma StripIdempotent(s: String)
    ensures Strip(Strip(s)) == Strip(s)
  {
  }

  /** `pat` starts at position `i` of `s`. */
  predicate OccursAt(s: String, pat: String, i: int)
  {
    0 <= i && i + |pat| <= |s| && s[i..i + |pat|] == pat
  }

  predicate Contains(s: String, pat: String)
  {
    exists i :: 0 <= i <= |s| && OccursAt(s, pat, i)
  }

  /** An occurrence in a suffix of `s` is an occurrence in `s`, shifted. */
  lemma OccursInSuffix(s: String, pat: String, k: nat, i: int)
    requires k <= |s|
    ensures OccursAt(s[k..], pat, i) <==> (0 <= i && OccursAt(s, pat, i + k))
  {
    if 0 <= i && i + |pat| <= |s| - k {
      assert s[k..][i..i + |pat|] == s[i + k..i + k + |pat|];
    }
  }

  /**
   Python's `s.replace(pat, "")`: scanning from the left, every occurrence
   that does not overlap an occurrence already removed is deleted. Removing
   the empty string changes nothing.
   */
  function RemoveAll(s: String, pat: String): (r: String)
    ensures |r| <= |s|
    ensures pat == [] ==> r == s
    decreases |s|
  {
    if pat == [] || |s| < |pat| then
      s
    else if s[..|pat|] == pat then
      RemoveAll(s[|pat|..], pat)
    else
      [s[0]] + RemoveAll(s[1..], pat)
  }

  /**
   Removal changes the text exactly when the word occurs in it, and then
   it removes at least one whole occurrence.
   */
  lemma {:induction false} RemoveAllChanges(s: String, pat: String)
    ensures !Contains(s, pat) ==> RemoveAll(s, pat) == s
    ensures Contains(s, pat) ==> |RemoveAll(s, pat)| <= |s| - |pat|
    decreases |s|
  {
    if pat == [] {
    } else if |s| < |pat| {
      assert !Contains(s, pat);
    } else if s[..|pat|] == pat {
      assert OccursAt(s, pat, 0);
    } else {
      ShiftOccurrences(s, pat);
      RemoveAllChanges(s[1..], pat);
      assert s == [s[0]] + s[1..];
    }
  }

  /** With no occurrence at 0, `s` contains `pat` exactly when `s[1..]` does. */
  lemma ShiftOccurrences(s: String, pat: String)
    requires pat != [] && |s| >= |pat| && s[..|pat|] != pat
    ensures Contains(s, pat) <==> Contains(s[1..], pat)
  {
    if Contains(s, pat) {
      var i :| 0 <= i <= |s| && OccursAt(s, pat, i);
      assert s[0..|pat|] == s[..|pat|];
      assert i >= 1;
      OccursInSuffix(s, pat, 1, i - 1);
      assert OccursAt(s[1..], pat, i - 1);
    }
    if Contains(s[1..], pat) {
      var i :| 0 <= i <= |s[1..]| && OccursAt(s[1..], pat, i);
      OccursInSuffix(s, pat, 1, i);
      assert OccursAt(s, pat, i + 1);
    }
  }

  /**
   Python's `s.find(pat, start)`: the leftmost position at or after
   `start` where `pat` occurs, or -1 when there is none.
   */
  function Find(s: String, pat: String, start: nat): (r: int)
    requires start <= |s|
    ensures r == -1 || (start <= r && OccursAt(s, pat, r))
    ensures forall k :: start <= k && (r == -1 || k < r) ==> !OccursAt(s, pat, k)
    decreases |s| - start
  {
    if start + |pat| > |s| then -1
    else if s[start..start + |pat|] == pat then start
    else if start == |s| then -1
    else Find(s, pat, start + 1)
  }

  /**
   When the first occurrence at or after `i` is at `j`, removal on `s[i..]`
   keeps `s[i..j]`, drops that occurrence, and carries on after it.
   */
  lemma {:induction false} RemoveAllSkipsTo(s: String, pat: String, i: nat, j: nat)
    requires pat != [] && i <= j && OccursAt(s, pat, j)
    requires forall k :: i <= k < j ==> !OccursAt(s, pat, k)
    ensures RemoveAll(s[i..], pat) == s[i..j] + RemoveAll(s[j + |pat|..], pat)
    decreases j - i
  {
    if i == j {
      SkipHere(s, pat, j);
    } else {
      RemoveAllSkipsTo(s, pat, i + 1, j);
      SkipOneMore(s, pat, i, j);
    }
  }

  lemma SkipHere(s: String, pat: String, j: nat)
    requires pat != [] && OccursAt(s, pat, j)
    ensures RemoveAll(s[j..], pat) == s[j..j] + RemoveAll(s[j + |pat|..], pat)
  {
    SliceOfSuffix(s, j, |pat|);
    RemoveAllHit(s[j..], pat);
    EmptyFront(s[j..j], RemoveAll(s[j + |pat|..], pat));
  }

  lemma EmptyFront(e: String, x: String)
    requires e == []
    ensures e + x == x
  {
  }

  lemma SkipOneMore(s: String, pat: String, i: nat, j: nat)
    requires pat != [] && i < j && OccursAt(s, pat, j) && !OccursAt(s, pat, i)
    requires RemoveAll(s[i + 1..], pat) == s[i + 1..j] + RemoveAll(s[j + |pat|..], pat)
    ensures RemoveAll(s[i..], pat) == s[i..j] + RemoveAll(s[j + |pat|..], pat)
  {
    MissAtFront(s, pat, i, j);
    ConsSlice(s, i, j);
    AppendAssoc([s[i]], s[i + 1..j], RemoveAll(s[j + |pat|..], pat));
  }

  /** Without an occurrence at `i`, removal on `s[i..]` keeps `s[i]`. */
  lemma MissAtFront(s: String, pat: String, i: nat, j: nat)
    requires pat != [] && i < j && OccursAt(s, pat, j) && !OccursAt(s, pat, i)
    ensures RemoveAll(s[i..], pat) == [s[i]] + RemoveAll(s[i + 1..], pat)
  {
    var t := s[i..];
    SliceOfSuffix(s, i, |pat|);
    SliceOfSuffix(s, i, 1);
    RemoveAllMiss(t, pat);
  }

  lemma SliceOfSuffix(s: String, i: nat, n: nat)
    requires i + n <= |s|
    ensures s[i..][..n] == s[i..i + n] && s[i..][n..] == s[i + n..]
  {
  }

  lemma ConsSlice(s: String, i: nat, j: nat)
    requires i < j <= |s|
    ensures [s[i]] + s[i + 1..j] == s[i..j]
  {
  }

  /** An occurrence at the front is dropped. */
  lemma RemoveAllHit(t: String, pat: String)
    requires pat != [] && |t| >= |pat| && t[..|pat|] == pat
    ensures RemoveAll(t, pat) == RemoveAll(t[|pat|..], pat)
  {
  }

  /** Without an occurrence at the front, the first character is kept. */
  lemma RemoveAllMiss(t: String, pat: String)
    requires pat != [] && |t| >= |pat| && t[..|pat|] != pat
    ensures RemoveAll(t, pat) == [t[0]] + RemoveAll(t[1..], pat)
  {
  }

  /** With no occurrence at or after `i`, removal leaves `s[i..]` alone. */
  lemma RemoveAllNoMore(s: String, pat: String, i: nat)
    requires pat != [] && i <= |s|
    requires forall k :: i <= k ==> !OccursAt(s, pat, k)
    ensures RemoveAll(s[i..], pat) == s[i..]
  {
    forall k | OccursAt(s[i..], pat, k)
      ensures false
    {
      OccursInSuffix(s, pat, i, k);
    }
    RemoveAllChanges(s[i..], pat);
  }

  /** One step of the scan below: keep the text up to the next occurrence. */
  lemma ScanStep(s: String, pat: String, i: nat, j: int, r: String)
    requires pat != [] && i <= |s| && j == Find(s, pat, i) && j >= 0
    requires r + RemoveAll(s[i..], pat) == RemoveAll(s, pat)
    ensures (r + s[i..j]) + RemoveAll(s[j + |pat|..], pat) == RemoveAll(s, pat)
  {
    var mid, rest := SkipToNext(s, pat, i, j);
    AppendAssoc(r, mid, rest);
  }

  /** The two pieces removal leaves of `s[i..]` around the occurrence at `j`. */
  lemma SkipToNext(s: String, pat: String, i: nat, j: int) returns (mid: String, rest: String)
    requires pat != [] && i <= |s| && j == Find(s, pat, i) && j >= 0
    ensures j + |pat| <= |s| && mid == s[i..j] && rest == RemoveAll(s[j + |pat|..], pat)
    ensures RemoveAll(s[i..], pat) == mid + rest
  {
    mid, rest := s[i..j], RemoveAll(s[j + |pat|..], pat);
    RemoveAllSkipsTo(s, pat, i, j);
  }

  /**
   The way CPython carries out `replace`: repeatedly find the next
   occurrence, keep the text before it and jump past it. It computes
   exactly the left-to-right removal.
   */
  method RemoveAllByScanning(s: String, pat: String) returns (r: String)
    requires pat != []
    ensures r == RemoveAll(s, pat)
  {
    r := [];
    var i := 0;
    var j := Find(s, pat, 0);
    while j >= 0
      invariant 0 <= i <= |s|
      invariant j == Find(s, pat, i)
      invariant r + RemoveAll(s[i..], pat) == RemoveAll(s, pat)
      decreases |s| - i
    {
      var kept, next := r + s[i..j], j + |pat|;
      ScanStep(s, pat, i, j, r);
      assert kept + RemoveAll(s[next..], pat) == RemoveAll(s, pat);
      r, i := kept, next;
      j := Find(s, pat, i);
    }
    RemoveAllNoMore(s, pat, i);
    r := r + s[i..];
  }

  /** Python's ordering of strings: lexicographic by code point. */
  predicate LexLess(a: String, b: String)
    decreases |a|
  {
    if |a| == 0 then |b| > 0
    else if |b| == 0 then false
    else a[0] < b[0] || (a[0] == b[0] && LexLess(a[1..], b[1..]))
  }

  lemma {:induction false} LexLessIrreflexive(a: String)
    ensures !LexLess(a, a)
    decreases |a|
  {
    if |a| > 0 {
      LexLessIrreflexive(a[1..]);
    }
  }

  lemma {:induction false} LexLessTransitive(a: String, b: String, c: String)
    requires LexLess(a, b) && LexLess(b, c)
    ensures LexLess(a, c)
    decreases |a|
  {
    if |a| > 0 && a[0] == b[0] && b[0] == c[0] {
      LexLessTransitive(a[1..], b[1..], c[1..]);
    }
  }

  lemma {:induction false} LexLessTotal(a: String, b: String)
    ensures a == b || LexLess(a, b) || LexLess(b, a)
    decreases |a|
  {
    if |a| > 0 && |b| > 0 && a[0] == b[0] {
      LexLessTotal(a[1..], b[1..]);
      if a[1..] == b[1..] {
        assert a == [a[0]] + a[1..] && b == [b[0]] + b[1..];
      }
    }
  }

  lemma LexLessAsymmetric(a: String, b: String)
    requires LexLess(a, b)
    ensures !LexLess(b, a)
  {
    if LexLess(b, a) {
      LexLessTransitive(a, b, a);
      LexLessIrreflexive(a);
    }
  }

}
