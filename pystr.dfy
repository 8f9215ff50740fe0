/**
  The Python `str` operations the inference wrapper relies on, over `seq<char>`:
  `pat in s`, `s.find`, `s.rfind`, `s.count`, `s.split`, `sep.join`,
  `s.replace` and `s.strip()`. Search-based operations take a non-empty pattern.
 */
module PyStr {
  import opened Wrappers

  /** `pat` occurs in `s` starting at index `i`. */
  predicate OccursAt(s: string, pat: string, i: int) {
    0 <= i && i + |pat| <= |s| && s[i..i + |pat|] == pat
  }

  /** Python's `pat in s`: the empty pattern is in every string, and a pattern is in any string it starts. */
  function Contains(s: string, pat: string): (r: bool)
    ensures r ==> |pat| <= |s|
    ensures |pat| == 0 ==> r
    ensures pat <= s ==> r
  {
    assert pat <= s ==> OccursAt(s, pat, 0);
    exists i :: 0 <= i <= |s| - |pat| && OccursAt(s, pat, i)
  }

  /** An occurrence in a slice `s[lo..hi]` is an occurrence in `s`. */
  lemma OccursInSlice(s: string, pat: string, lo: nat, hi: nat, j: int)
    requires lo <= hi <= |s| && OccursAt(s[lo..hi], pat, j)
    ensures OccursAt(s, pat, lo + j)
  {
    var inner, outer := s[lo..hi][j..j + |pat|], s[lo + j..lo + j + |pat|];
    assert forall k :: 0 <= k < |inner| ==> inner[k] == s[lo + j + k] == outer[k];
    assert inner == outer;
  }

  /** A slice of a string that does not contain `pat` does not contain it either. */
  lemma NotContainsSlice(s: string, pat: string, lo: nat, hi: nat)
    requires lo <= hi <= |s| && !Contains(s, pat)
    ensures !Contains(s[lo..hi], pat)
  {
    if Contains(s[lo..hi], pat) {
      var j :| OccursAt(s[lo..hi], pat, j);
      OccursInSlice(s, pat, lo, hi, j);
    }
  }

  /** The lowest index `j >= i` at which `pat` occurs in `s`, if any: the scan behind `s.find`. */
  function FindFrom(s: string, pat: string, i: nat): (r: Option<nat>)
    ensures r.Some? ==> i <= r.value && r.value + |pat| <= |s|
    decreases |s| - i
  {
    if i + |pat| > |s| then None
    else if s[i..i + |pat|] == pat then Some(i)
    else FindFrom(s, pat, i + 1)
  }

  /** Python's `s.find(pat)`: the lowest index at which `pat` occurs, if any. */
  function Find(s: string, pat: string): (r: Option<nat>)
    ensures r.Some? ==> r.value + |pat| <= |s|
  {
    FindFrom(s, pat, 0)
  }

  /** What the scan from `i` returns is an occurrence, and none lies between `i` and it. */
  lemma {:induction false} FindFromFound(s: string, pat: string, i: nat)
    requires FindFrom(s, pat, i).Some?
    ensures OccursAt(s, pat, FindFrom(s, pat, i).value)
    ensures forall j :: i <= j < FindFrom(s, pat, i).value ==> !OccursAt(s, pat, j)
    decreases |s| - i
  {
    if s[i..i + |pat|] != pat {
      FindFromFound(s, pat, i + 1);
    }
  }

  /** When the scan from `i` finds nothing, `pat` occurs nowhere from `i` on. */
  lemma {:induction false} FindFromNone(s: string, pat: string, i: nat)
    requires FindFrom(s, pat, i).None?
    ensures forall j :: i <= j ==> !OccursAt(s, pat, j)
    decreases |s| - i
  {
    if i + |pat| <= |s| {
      FindFromNone(s, pat, i + 1);
    }
  }

  /** What `s.find(pat)` returns is an occurrence of `pat`. */
  lemma FindFound(s: string, pat: string)
    requires Find(s, pat).Some?
    ensures OccursAt(s, pat, Find(s, pat).value)
  {
    FindFromFound(s, pat, 0);
  }

  /** No occurrence of `pat` starts before the index `s.find(pat)` returns. */
  lemma FindFirst(s: string, pat: string)
    requires Find(s, pat).Some?
    ensures forall j :: 0 <= j < Find(s, pat).value ==> !OccursAt(s, pat, j)
  {
    FindFromFound(s, pat, 0);
  }

  /** When `s.find(pat)` finds nothing, `pat` occurs nowhere in `s`. */
  lemma FindNone(s: string, pat: string)
    requires Find(s, pat).None?
    ensures forall j :: !OccursAt(s, pat, j)
  {
    FindFromNone(s, pat, 0);
  }

  /** The highest index `j <= k` at which `pat` occurs in `s`, if any: the scan behind `s.rfind`. */
  function RFindFrom(s: string, pat: string, k: nat): (r: Option<nat>)
    requires k + |pat| <= |s|
    ensures r.Some? ==> r.value <= k
    decreases k
  {
    if s[k..k + |pat|] == pat then Some(k)
    else if k == 0 then None
    else RFindFrom(s, pat, k - 1)
  }

  /** Python's `s.rfind(pat)`: the highest index at which `pat` occurs, if any. */
  function RFind(s: string, pat: string): (r: Option<nat>)
    ensures r.Some? ==> r.value + |pat| <= |s|
  {
    if |s| < |pat| then None else RFindFrom(s, pat, |s| - |pat|)
  }

  /** What the scan down from `k` returns is an occurrence, and none lies between it and `k`. */
  lemma {:induction false} RFindFromFound(s: string, pat: string, k: nat)
    requires k + |pat| <= |s| && RFindFrom(s, pat, k).Some?
    ensures OccursAt(s, pat, RFindFrom(s, pat, k).value)
    ensures forall j :: RFindFrom(s, pat, k).value < j <= k ==> !OccursAt(s, pat, j)
    decreases k
  {
    if s[k..k + |pat|] != pat {
      RFindFromFound(s, pat, k - 1);
    }
  }

  /** When the scan down from `k` finds nothing, `pat` occurs nowhere up to `k`. */
  lemma {:induction false} RFindFromNone(s: string, pat: string, k: nat)
    requires k + |pat| <= |s| && RFindFrom(s, pat, k).None?
    ensures forall j :: j <= k ==> !OccursAt(s, pat, j)
    decreases k
  {
    if k > 0 {
      RFindFromNone(s, pat, k - 1);
    }
  }

  /** What `s.rfind(pat)` returns is an occurrence of `pat`. */
  lemma RFindFound(s: string, pat: string)
    requires RFind(s, pat).Some?
    ensures OccursAt(s, pat, RFind(s, pat).value)
  {
    RFindFromFound(s, pat, |s| - |pat|);
  }

  /** No occurrence of `pat` starts after the index `s.rfind(pat)` returns. */
  lemma RFindLast(s: string, pat: string)
    requires RFind(s, pat).Some?
    ensures forall j :: RFind(s, pat).value < j ==> !OccursAt(s, pat, j)
  {
    RFindFromFound(s, pat, |s| - |pat|);
  }

  /** When `s.rfind(pat)` finds nothing, `pat` occurs nowhere in `s`. */
  lemma RFindNone(s: string, pat: string)
    requires RFind(s, pat).None?
    ensures forall j :: !OccursAt(s, pat, j)
  {
    if |s| >= |pat| {
      RFindFromNone(s, pat, |s| - |pat|);
    }
  }

  /** `pat in s` holds exactly when `s.find(pat)` finds an index. */
  lemma FindIffContains(s: string, pat: string)
    ensures Find(s, pat).Some? <==> Contains(s, pat)
  {
    if Find(s, pat).Some? {
      FindFound(s, pat);
      assert OccursAt(s, pat, Find(s, pat).value);
    } else {
      FindNone(s, pat);
    }
  }

  /** `pat in s` holds exactly when `s.rfind(pat)` finds an index. */
  lemma RFindIffContains(s: string, pat: string)
    ensures RFind(s, pat).Some? <==> Contains(s, pat)
  {
    if RFind(s, pat).Some? {
      RFindFound(s, pat);
      assert OccursAt(s, pat, RFind(s, pat).value);
    } else {
      RFindNone(s, pat);
    }
  }

  /** The occurrences `s.count(pat)` counts from index `i` on: find one, resume after it. */
  function CountFrom(s: string, pat: string, i: nat): nat
    requires |pat| > 0 && i <= |s|
    decreases |s| - i
  {
    match FindFrom(s, pat, i)
    case None => 0
    case Some(r) => 1 + CountFrom(s, pat, r + |pat|)
  }

  /**
    Python's `s.count(pat)`: the number of non-overlapping occurrences found scanning left to right.
    They are disjoint, so together they fit into `s`.
   */
  function Count(s: string, pat: string): (r: nat)
    requires |pat| > 0
    ensures r * |pat| <= |s|
  {
    CountFromBound(s, pat, 0);
    CountFrom(s, pat, 0)
  }

  /** The occurrences counted from `i` on are disjoint and lie in `s[i..]`. */
  lemma {:induction false} CountFromBound(s: string, pat: string, i: nat)
    requires |pat| > 0 && i <= |s|
    ensures CountFrom(s, pat, i) * |pat| <= |s| - i
    decreases |s| - i
  {
    match FindFrom(s, pat, i)
    case None =>
    case Some(r) =>
      CountFromBound(s, pat, r + |pat|);
      MulSucc(CountFrom(s, pat, r + |pat|), |pat|);
  }

  /** `count` is zero exactly when `pat` does not occur in `s`. */
  lemma CountZeroIffAbsent(s: string, pat: string)
    requires |pat| > 0
    ensures Count(s, pat) == 0 <==> !Contains(s, pat)
  {
    FindIffContains(s, pat);
  }

  /** The pieces `s.split(sep)` produces from index `i` on. */
  function SplitFrom(s: string, sep: string, i: nat): (r: seq<string>)
    requires |sep| > 0 && i <= |s|
    ensures |r| > 0
    decreases |s| - i
  {
    match FindFrom(s, sep, i)
    case None => [s[i..]]
    case Some(k) => [s[i..k]] + SplitFrom(s, sep, k + |sep|)
  }

  /** Python's `s.split(sep)`: the pieces between the non-overlapping occurrences of `sep`. */
  function Split(s: string, sep: string): (r: seq<string>)
    requires |sep| > 0
    ensures |r| > 0
  {
    SplitFrom(s, sep, 0)
  }

  /** Python's `sep.join(parts)`: the parts, in order, with `sep` between neighbours. */
  function Join(sep: string, parts: seq<string>): (r: string)
    ensures |parts| > 0 ==> parts[0] <= r
    decreases |parts|
  {
    if |parts| == 0 then ""
    else if |parts| == 1 then parts[0]
    else parts[0] + sep + Join(sep, parts[1..])
  }

  /** The last element of a non-empty sequence: Python's `xs[-1]`. */
  function Last<T>(xs: seq<T>): (r: T)
    requires |xs| > 0
    ensures r in xs
    ensures xs[|xs| - 1..] == [r]
  {
    xs[|xs| - 1]
  }

  /** `s.replace(pat, rep)` from index `i` on: copy up to the next occurrence, emit `rep`, resume after it. */
  function ReplaceFrom(s: string, pat: string, rep: string, i: nat): string
    requires |pat| > 0 && i <= |s|
    decreases |s| - i
  {
    match FindFrom(s, pat, i)
    case None => s[i..]
    case Some(k) => s[i..k] + rep + ReplaceFrom(s, pat, rep, k + |pat|)
  }

  /**
    Python's `s.replace(pat, rep)` for a non-empty `pat`: scanning left to right,
    each occurrence found is replaced by `rep` and the scan resumes after it.
   */
  function Replace(s: string, pat: string, rep: string): (r: string)
    requires |pat| > 0
    ensures rep == pat ==> r == s
  {
    ReplaceSelfFrom(s, pat, 0);
    assert s[0..] == s;
    ReplaceFrom(s, pat, rep, 0)
  }

  /** Replacing each occurrence by itself copies the text unchanged. */
  lemma {:induction false} ReplaceSelfFrom(s: string, pat: string, i: nat)
    requires |pat| > 0 && i <= |s|
    ensures ReplaceFrom(s, pat, pat, i) == s[i..]
    decreases |s| - i
  {
    match FindFrom(s, pat, i)
    case None =>
    case Some(k) =>
      FindFromFound(s, pat, i);
      ReplaceSelfFrom(s, pat, k + |pat|);
      assert s[i..] == s[i..k] + s[k..k + |pat|] + s[k + |pat|..];
  }

  /** A slice in which no occurrence of `pat` fits does not contain `pat`. */
  lemma NotContainsBetween(s: string, pat: string, lo: nat, hi: nat)
    requires lo <= hi <= |s|
    requires forall j :: lo <= j && j + |pat| <= hi ==> !OccursAt(s, pat, j)
    ensures !Contains(s[lo..hi], pat)
  {
    if Contains(s[lo..hi], pat) {
      var j :| 0 <= j <= hi - lo - |pat| && OccursAt(s[lo..hi], pat, j);
      OccursInSlice(s, pat, lo, hi, j);
    }
  }

  // ---------------------------------------------------------------------------
  // split

  /** `s.split(sep)` has one piece more than `s.count(sep)` counts occurrences. */
  lemma SplitCount(s: string, sep: string)
    requires |sep| > 0
    ensures |Split(s, sep)| == Count(s, sep) + 1
  {
    SplitCountFrom(s, sep, 0);
  }

  lemma {:induction false} SplitCountFrom(s: string, sep: string, i: nat)
    requires |sep| > 0 && i <= |s|
    ensures |SplitFrom(s, sep, i)| == CountFrom(s, sep, i) + 1
    decreases |s| - i
  {
    match FindFrom(s, sep, i)
    case None =>
    case Some(k) => SplitCountFrom(s, sep, k + |sep|);
  }

  /** No piece of `s.split(sep)` contains `sep`. */
  lemma SplitPiecesFree(s: string, sep: string)
    requires |sep| > 0
    ensures forall k :: 0 <= k < |Split(s, sep)| ==> !Contains(Split(s, sep)[k], sep)
  {
    SplitPiecesFreeFrom(s, sep, 0);
  }

  lemma {:induction false} SplitPiecesFreeFrom(s: string, sep: string, i: nat)
    requires |sep| > 0 && i <= |s|
    ensures forall k :: 0 <= k < |SplitFrom(s, sep, i)| ==> !Contains(SplitFrom(s, sep, i)[k], sep)
    decreases |s| - i
  {
    match FindFrom(s, sep, i)
    case None =>
      FindFromNone(s, sep, i);
      NotContainsBetween(s, sep, i, |s|);
      assert s[i..|s|] == s[i..];
    case Some(r) =>
      FindFromFound(s, sep, i);
      NotContainsBetween(s, sep, i, r);
      SplitPiecesFreeFrom(s, sep, r + |sep|);
      var tail := SplitFrom(s, sep, r + |sep|);
      assert forall k :: 1 <= k < |tail| + 1 ==> SplitFrom(s, sep, i)[k] == tail[k - 1];
  }

  /** Joining the pieces of `s.split(sep)` with `sep` rebuilds `s`. */
  lemma SplitJoin(s: string, sep: string)
    requires |sep| > 0
    ensures Join(sep, Split(s, sep)) == s
  {
    SplitJoinFrom(s, sep, 0);
  }

  lemma {:induction false} SplitJoinFrom(s: string, sep: string, i: nat)
    requires |sep| > 0 && i <= |s|
    ensures Join(sep, SplitFrom(s, sep, i)) == s[i..]
    decreases |s| - i
  {
    match FindFrom(s, sep, i)
    case None =>
    case Some(r) =>
      FindFromFound(s, sep, i);
      var n := r + |sep|;
      SplitJoinFrom(s, sep, n);
      var tail := SplitFrom(s, sep, n);
      assert ([s[i..r]] + tail)[1..] == tail;
      assert s[i..] == s[i..r] + s[r..n] + s[n..];
  }

  // ---------------------------------------------------------------------------
  // replace

  /** With no occurrence of `pat`, `s.replace(pat, rep)` gives back `s` itself. */
  lemma ReplaceWithoutOccurrence(s: string, pat: string, rep: string)
    requires |pat| > 0 && !Contains(s, pat)
    ensures Replace(s, pat, rep) == s
  {
    FindIffContains(s, pat);
    assert s[0..] == s;
  }

  /** `t` is `s` with its first `n` characters dropped, stated character by character. */
  predicate Shifted(s: string, t: string, n: nat) {
    n + |t| == |s| && forall k :: 0 <= k < |t| ==> t[k] == s[n + k]
  }

  /** A slice of the shifted string is the slice of `s` further on. */
  lemma ShiftedSlice(s: string, t: string, n: nat, a: nat, b: nat)
    requires Shifted(s, t, n) && a <= b <= |t|
    ensures t[a..b] == s[n + a..n + b]
  {
    assert forall k :: 0 <= k < b - a ==> t[a..b][k] == t[a + k];
  }

  /** A scan of the shifted string from `j` finds what the scan of `s` from `n + j` finds, shifted by `n`. */
  lemma {:induction false} FindFromShifted(s: string, t: string, pat: string, n: nat, j: nat)
    requires Shifted(s, t, n)
    ensures FindFrom(t, pat, j)
         == if FindFrom(s, pat, n + j).Some? then Some(FindFrom(s, pat, n + j).value - n) else None
    decreases |t| - j
  {
    if j + |pat| <= |t| {
      ShiftedSlice(s, t, n, j, j + |pat|);
      if t[j..j + |pat|] != pat {
        FindFromShifted(s, t, pat, n, j + 1);
      }
    }
  }

  /** Replacing in the shifted string from `j` is replacing in `s` from `n + j`. */
  lemma {:induction false} ReplaceFromShifted(s: string, t: string, pat: string, rep: string, n: nat, j: nat)
    requires |pat| > 0 && Shifted(s, t, n) && j <= |t|
    ensures ReplaceFrom(t, pat, rep, j) == ReplaceFrom(s, pat, rep, n + j)
    decreases |t| - j
  {
    if FindFrom(t, pat, j).Some? {
      var r := FindFrom(t, pat, j).value;
      assert FindFrom(s, pat, n + j) == Some(n + r) by { FindFromShifted(s, t, pat, n, j); }
      var e := r + |pat|;
      assert ReplaceFrom(t, pat, rep, e) == ReplaceFrom(s, pat, rep, n + e) by {
        ReplaceFromShifted(s, t, pat, rep, n, e);
      }
      assert t[j..r] == s[n + j..n + r] by { ShiftedSlice(s, t, n, j, r); }
      ReplaceFromShiftedStep(s, t, pat, rep, n, j, r, e);
    } else {
      assert FindFrom(s, pat, n + j) == None by { FindFromShifted(s, t, pat, n, j); }
      ReplaceFromShiftedEnd(s, t, pat, rep, n, j);
    }
  }

  /** The step of `ReplaceFromShifted`: both scans find the same occurrence after the same text and
      resume at the same place `e`. */
  lemma ReplaceFromShiftedStep(s: string, t: string, pat: string, rep: string, n: nat, j: nat, r: nat, e: nat)
    requires |pat| > 0 && j <= |t| && n + j <= |s| && e == r + |pat|
    requires FindFrom(t, pat, j) == Some(r) && FindFrom(s, pat, n + j) == Some(n + r)
    requires t[j..r] == s[n + j..n + r]
    requires ReplaceFrom(t, pat, rep, e) == ReplaceFrom(s, pat, rep, n + e)
    ensures ReplaceFrom(t, pat, rep, j) == ReplaceFrom(s, pat, rep, n + j)
  {
    ReplaceFromFound(t, pat, rep, j, r, e);
    ReplaceFromFound(s, pat, rep, n + j, n + r, n + e);
  }

  /** One step of `replace`: the text before the occurrence found at `r`, then the replacement, then the
      rest from `e`, just past the occurrence. */
  lemma ReplaceFromFound(s: string, pat: string, rep: string, i: nat, r: nat, e: nat)
    requires |pat| > 0 && i <= |s| && FindFrom(s, pat, i) == Some(r) && e == r + |pat|
    ensures ReplaceFrom(s, pat, rep, i) == s[i..r] + rep + ReplaceFrom(s, pat, rep, e)
  {
  }

  /** The end of `ReplaceFromShifted`: with nothing left to find, both copy the same remaining text. */
  lemma ReplaceFromShiftedEnd(s: string, t: string, pat: string, rep: string, n: nat, j: nat)
    requires |pat| > 0 && Shifted(s, t, n) && j <= |t|
    requires FindFrom(t, pat, j) == None && FindFrom(s, pat, n + j) == None
    ensures ReplaceFrom(t, pat, rep, j) == ReplaceFrom(s, pat, rep, n + j)
  {
    ShiftedSlice(s, t, n, j, |t|);
    assert t[j..] == t[j..|t|] && s[n + j..] == s[n + j..|s|];
  }

  /** `pat` at the very front of `s` is replaced first and the scan resumes right after it. */
  lemma ReplaceAtFront(pat: string, rep: string, rest: string)
    requires |pat| > 0
    ensures Replace(pat + rest, pat, rep) == rep + Replace(rest, pat, rep)
  {
    var s := pat + rest;
    assert s[0..|pat|] == pat;
    assert Find(s, pat) == Some(0);
    assert Shifted(s, rest, |pat|);
    ReplaceFromShifted(s, rest, pat, rep, |pat|, 0);
  }

  /** One more copy of `d` in a product: `(c + 1) * d == c * d + d`. */
  lemma MulSucc(c: int, d: int)
    ensures (c + 1) * d == c * d + d
  {
  }

  /** Each of the `Count(s, pat)` replacements changes the length by `|rep| - |pat|`. */
  lemma ReplaceLength(s: string, pat: string, rep: string)
    requires |pat| > 0
    ensures |Replace(s, pat, rep)| == |s| + Count(s, pat) * (|rep| - |pat|)
  {
    ReplaceLengthFrom(s, pat, rep, 0);
  }

  lemma {:induction false} ReplaceLengthFrom(s: string, pat: string, rep: string, i: nat)
    requires |pat| > 0 && i <= |s|
    ensures |ReplaceFrom(s, pat, rep, i)| == |s| - i + CountFrom(s, pat, i) * (|rep| - |pat|)
    decreases |s| - i
  {
    match FindFrom(s, pat, i)
    case None =>
    case Some(r) =>
      var n := r + |pat|;
      ReplaceLengthFrom(s, pat, rep, n);
      MulSucc(CountFrom(s, pat, n), |rep| - |pat|);
      assert |ReplaceFrom(s, pat, rep, i)| == (r - i) + |rep| + |ReplaceFrom(s, pat, rep, n)|;
  }

  /**
    Deleting every occurrence can splice a new one together: in `p[0] + p + p[1:]`
    the one occurrence is removed, and what is left is `p` again.
   */
  lemma DeletionCanCreateOccurrence(p: string)
    requires |p| >= 2 && p[0] != p[1]
    ensures Contains([p[0]] + p + p[1..], p)
    ensures Replace([p[0]] + p + p[1..], p, "") == p
  {
    var raw := [p[0]] + p + p[1..];
    assert raw[0..|p|][1] == p[0];
    assert raw[1..1 + |p|] == p;
    assert FindFrom(raw, p, 1) == Some(1);
    assert Find(raw, p) == Some(1);
    assert OccursAt(raw, p, 1);
    assert ReplaceFrom(raw, p, "", 1 + |p|) == raw[1 + |p|..] == p[1..];
    assert Replace(raw, p, "") == raw[0..1] + "" + raw[1 + |p|..];
  }

  /** `s.replace(pat, rep)` equals `rep.join(s.split(pat))`. */
  lemma ReplaceIsJoinOfSplit(s: string, pat: string, rep: string)
    requires |pat| > 0
    ensures Replace(s, pat, rep) == Join(rep, Split(s, pat))
  {
    ReplaceIsJoinOfSplitFrom(s, pat, rep, 0);
  }

  lemma {:induction false} ReplaceIsJoinOfSplitFrom(s: string, pat: string, rep: string, i: nat)
    requires |pat| > 0 && i <= |s|
    ensures ReplaceFrom(s, pat, rep, i) == Join(rep, SplitFrom(s, pat, i))
    decreases |s| - i
  {
    match FindFrom(s, pat, i)
    case None =>
    case Some(r) =>
      ReplaceIsJoinOfSplitFrom(s, pat, rep, r + |pat|);
      var tail := SplitFrom(s, pat, r + |pat|);
      assert ([s[i..r]] + tail)[1..] == tail;
  }

  // ---------------------------------------------------------------------------
  // the last piece of a split

  /**
    When a scan from `i` finds `sep`, the last piece follows an occurrence at some `k`
    and no occurrence starts inside it.
   */
  lemma {:induction false} SplitLastFrom(s: string, sep: string, i: nat)
    requires |sep| > 0 && i <= |s| && FindFrom(s, sep, i).Some?
    ensures var x := Last(SplitFrom(s, sep, i));
      var k := |s| - |x| - |sep|;
      i <= k && OccursAt(s, sep, k) && x == s[k + |sep|..] &&
      forall j :: k + |sep| <= j ==> !OccursAt(s, sep, j)
    decreases |s| - i
  {
    var r := FindFrom(s, sep, i).value;
    var n := r + |sep|;
    var tail := SplitFrom(s, sep, n);
    assert Last(SplitFrom(s, sep, i)) == Last(tail) by {
      assert SplitFrom(s, sep, i) == [s[i..r]] + tail;
      LastOfCons(s[i..r], tail);
    }
    if FindFrom(s, sep, n).Some? {
      SplitLastFrom(s, sep, n);
    } else {
      assert Last(tail) == s[n..];
      SplitLastEnd(s, sep, i, r, n);
    }
  }

  /** Putting an element in front of a non-empty sequence does not change its last element. */
  lemma LastOfCons<T>(x: T, xs: seq<T>)
    requires |xs| > 0
    ensures Last([x] + xs) == Last(xs)
  {
    assert ([x] + xs)[|xs|] == xs[|xs| - 1];
  }

  /** The end of `SplitLastFrom`: the last occurrence is at `r` and the text after it has none. */
  lemma SplitLastEnd(s: string, sep: string, i: nat, r: nat, n: nat)
    requires |sep| > 0 && i <= |s| && n == r + |sep|
    requires FindFrom(s, sep, i) == Some(r) && FindFrom(s, sep, n) == None
    ensures i <= r && OccursAt(s, sep, r) && r == |s| - |s[n..]| - |sep|
    ensures forall j :: n <= j ==> !OccursAt(s, sep, j)
  {
    FindFromFound(s, sep, i);
    FindFromNone(s, sep, n);
  }

  /** `s.split(sep)[-1]` is a suffix of `s` with no occurrence of `sep`. */
  lemma SplitLastIsSuffix(s: string, sep: string)
    requires |sep| > 0
    ensures var x := Last(Split(s, sep));
      |x| <= |s| && x == s[|s| - |x|..] && !Contains(x, sep)
  {
    if Find(s, sep).Some? {
      SplitLastFrom(s, sep, 0);
      var x := Last(Split(s, sep));
      var k := |s| - |x| - |sep|;
      NotContainsBetween(s, sep, k + |sep|, |s|);
      assert s[k + |sep|..|s|] == x;
    } else {
      FindNone(s, sep);
      assert Split(s, sep) == [s[0..]];
      assert s[0..] == s;
    }
  }

  /** No proper suffix of `pat` is also a prefix of it: two occurrences can never overlap. */
  predicate NoSelfOverlap(pat: string) {
    forall d :: 0 < d < |pat| ==> pat[d..] != pat[..|pat| - d]
  }

  /** Two overlapping occurrences of `pat` make a suffix of `pat` equal to a prefix of it. */
  lemma OverlapIsBorder(s: string, pat: string, a: nat, b: nat)
    requires OccursAt(s, pat, a) && OccursAt(s, pat, b) && a < b < a + |pat|
    ensures pat[b - a..] == pat[..|pat| - (b - a)]
  {
    var d := b - a;
    forall k | 0 <= k < |pat| - d
      ensures pat[d..][k] == pat[..|pat| - d][k]
    {
      assert pat[d + k] == s[a..a + |pat|][d + k] == s[b + k] == s[b..b + |pat|][k];
    }
  }

  /**
    For a separator that cannot overlap itself, `s.split(sep)[-1]` is exactly the text
    after the last occurrence of `sep`.
   */
  lemma SplitLastAfterLastOccurrence(s: string, sep: string)
    requires |sep| > 0 && NoSelfOverlap(sep) && Contains(s, sep)
    ensures RFind(s, sep).Some?
    ensures Last(Split(s, sep)) == s[RFind(s, sep).value + |sep|..]
  {
    FindIffContains(s, sep);
    RFindIffContains(s, sep);
    SplitLastFrom(s, sep, 0);
    var k := |s| - |Last(Split(s, sep))| - |sep|;
    var j := RFind(s, sep).value;
    RFindFound(s, sep);
    assert k <= j by {
      RFindLast(s, sep);
    }
    NoOccurrenceAfterFollower(s, sep, k, j);
  }

  /**
    If no occurrence of `sep` starts after an occurrence at `k`, and `sep` cannot
    overlap itself, then every occurrence from `k` on is the one at `k`.
   */
  lemma NoOccurrenceAfterFollower(s: string, sep: string, k: nat, j: nat)
    requires NoSelfOverlap(sep) && OccursAt(s, sep, k) && OccursAt(s, sep, j) && k <= j
    requires forall i :: k + |sep| <= i ==> !OccursAt(s, sep, i)
    ensures j == k
  {
    if k < j < k + |sep| {
      OverlapIsBorder(s, sep, k, j);
    }
  }

  // ---------------------------------------------------------------------------
  // strip

  /** Whitespace as Python's `str.isspace` defines it, listed by code point. */
  function IsSpace(c: char): (r: bool)
    ensures c as int < 0x80 ==> (r <==> c as int in {0x09, 0x0A, 0x0B, 0x0C, 0x0D, 0x1C, 0x1D, 0x1E, 0x1F, 0x20})
    ensures r ==> 0x09 <= c as int <= 0x3000
  {
    var n := c as int;
    (0x09 <= n <= 0x0D) || (0x1C <= n <= 0x20) || n == 0x85 || n == 0xA0 || n == 0x1680 ||
    (0x2000 <= n <= 0x200A) || n == 0x2028 || n == 0x2029 || n == 0x202F || n == 0x205F || n == 0x3000
  }

  /** Scanning right from `i`, the index of the first character not in `ws` (or `|s|`). */
  function SkipLeft(s: string, ws: char -> bool, i: nat): (j: nat)
    requires i <= |s|
    ensures i <= j <= |s|
    ensures forall k :: i <= k < j ==> ws(s[k])
    ensures j == |s| || !ws(s[j])
    decreases |s| - i
  {
    if i < |s| && ws(s[i]) then SkipLeft(s, ws, i + 1) else i
  }

  /** Scanning left from `j` but not past `lo`, the end of the last character not in `ws` (or `lo`). */
  function SkipRight(s: string, ws: char -> bool, lo: nat, j: nat): (m: nat)
    requires lo <= j <= |s|
    ensures lo <= m <= j
    ensures forall k :: m <= k < j ==> ws(s[k])
    ensures m == lo || !ws(s[m - 1])
    decreases j
  {
    if j > lo && ws(s[j - 1]) then SkipRight(s, ws, lo, j - 1) else j
  }

  /** The string neither starts nor ends with a character in `ws`. */
  predicate Trimmed(s: string, ws: char -> bool) {
    s == [] || (!ws(s[0]) && !ws(s[|s| - 1]))
  }

  /**
    Python's `s.strip(chars)` with the stripped characters given by `ws`: skip the
    leading characters in `ws`, then the trailing ones, and keep what lies between.
    What is dropped on either side is in `ws`, what is kept is `Trimmed`, and
    nothing is kept exactly when every character is in `ws`. Python's `s.strip()`
    is `Strip(s, IsSpace)`.
   */
  function Strip(s: string, ws: char -> bool): (r: string)
    ensures var i := SkipLeft(s, ws, 0);
      i + |r| <= |s| && r == s[i..i + |r|] &&
      (forall k :: 0 <= k < i ==> ws(s[k])) &&
      (forall k :: i + |r| <= k < |s| ==> ws(s[k]))
    ensures Trimmed(r, ws)
    ensures r == [] <==> forall k :: 0 <= k < |s| ==> ws(s[k])
  {
    var i := SkipLeft(s, ws, 0);
    var j := SkipRight(s, ws, i, |s|);
    assert i < j ==> s[i..j][0] == s[i] && s[i..j][j - i - 1] == s[j - 1];
    s[i..j]
  }

  /** `strip` keeps a slice of its input, so it cannot bring in a pattern the input lacks. */
  lemma StripKeepsAbsence(s: string, pat: string, ws: char -> bool)
    requires !Contains(s, pat)
    ensures !Contains(Strip(s, ws), pat)
  {
    var i := SkipLeft(s, ws, 0);
    NotContainsSlice(s, pat, i, i + |Strip(s, ws)|);
  }

  /** A string that is already trimmed is left alone by `strip`. */
  lemma StripTrimmed(s: string, ws: char -> bool)
    requires Trimmed(s, ws)
    ensures Strip(s, ws) == s
  {
  }

  /** `strip` is idempotent. */
  lemma StripIdempotent(s: string, ws: char -> bool)
    ensures Strip(Strip(s, ws), ws) == Strip(s, ws)
  {
    StripTrimmed(Strip(s, ws), ws);
  }

  /**
    `strip` against an independent description: whatever characters of `ws` the
    strings `a` and `b` put around a trimmed `r`, stripping gives back `r`.
   */
  lemma StripCharacterised(a: string, r: string, b: string, ws: char -> bool)
    requires forall k :: 0 <= k < |a| ==> ws(a[k])
    requires forall k :: 0 <= k < |b| ==> ws(b[k])
    requires Trimmed(r, ws)
    ensures Strip(a + r + b, ws) == r
  {
    var s := a + r + b;
    var t := Strip(s, ws);
    var i := SkipLeft(s, ws, 0);
    assert forall k :: 0 <= k < |a| ==> s[k] == a[k];
    assert forall k :: |a| + |r| <= k < |s| ==> s[k] == b[k - |a| - |r|];
    if |r| > 0 {
      assert s[|a|] == r[0] && s[|a| + |r| - 1] == r[|r| - 1];
      if |t| > 0 {
        assert s[i] == t[0] && s[i + |t| - 1] == t[|t| - 1];
      }
      assert i == |a| && |t| == |r|;
      assert s[|a|..|a| + |r|] == r;
    } else {
      assert forall k :: 0 <= k < |s| ==> ws(s[k]);
    }
  }
}
