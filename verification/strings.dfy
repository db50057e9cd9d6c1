/** The Python `str` operations the application calls, over `seq<char>`: `strip` (with the
    whitespace set of `isspace`), `split` and `join`. `find` and `count` are not called by
    the application; they define `split` and state its properties. Like CPython, these walk
    the string by index; a separator is always non-empty (Python rejects an empty one). */
module Strings {
  import opened Wrappers

  /** Python's `str.isspace()` for one character: the characters `str.strip()` removes
      when it is called without an argument. */
  predicate IsSpace(c: char) {
    '\t' <= c <= '\r' || c == ' ' || '\U{001C}' <= c <= '\U{001F}' || c == '\U{0085}'
    || c == '\U{00A0}' || c == '\U{1680}' || '\U{2000}' <= c <= '\U{200A}' || c == '\U{2028}'
    || c == '\U{2029}' || c == '\U{202F}' || c == '\U{205F}' || c == '\U{3000}'
  }

  /** The same whitespace set written out character by character, as CPython's Unicode
      database lists it: the characters whose bidirectional type is WS, B or S, or whose
      category is Zs. */
  const SpaceChars: set<char> := {
    '\t', '\n', '\U{000B}', '\U{000C}', '\r',
    '\U{001C}', '\U{001D}', '\U{001E}', '\U{001F}', ' ', '\U{0085}', '\U{00A0}', '\U{1680}',
    '\U{2000}', '\U{2001}', '\U{2002}', '\U{2003}', '\U{2004}', '\U{2005}', '\U{2006}',
    '\U{2007}', '\U{2008}', '\U{2009}', '\U{200A}',
    '\U{2028}', '\U{2029}', '\U{202F}', '\U{205F}', '\U{3000}'
  }

  /** The range form of `IsSpace` names exactly the characters of the list. */
  lemma IsSpaceChars(c: char)
    ensures IsSpace(c) <==> c in SpaceChars
  {
    if '\U{2000}' <= c <= '\U{200A}' {
      SpaceRun(c, ['\U{2000}', '\U{2001}', '\U{2002}', '\U{2003}', '\U{2004}', '\U{2005}',
                   '\U{2006}', '\U{2007}', '\U{2008}', '\U{2009}', '\U{200A}']);
    } else if '\t' <= c <= '\r' {
      SpaceRun(c, ['\t', '\n', '\U{000B}', '\U{000C}', '\r']);
    } else if '\U{001C}' <= c <= '\U{001F}' {
      SpaceRun(c, ['\U{001C}', '\U{001D}', '\U{001E}', '\U{001F}']);
    }
  }

  /** A character inside a run of consecutive listed code points is listed. */
  lemma SpaceRun(c: char, run: seq<char>)
    requires |run| > 0 && run[0] <= c <= run[|run| - 1]
    requires forall k :: 0 <= k < |run| ==>
      run[k] as int == run[0] as int + k && run[k] in SpaceChars
    ensures c in SpaceChars
  {
    var k := c as int - run[0] as int;
    assert run[k] as int == c as int;
  }

  /** Every character of `s[i..j]` is whitespace. */
  predicate SpaceBetween(s: string, i: nat, j: nat)
    requires i <= j <= |s|
  {
    forall k :: i <= k < j ==> IsSpace(s[k])
  }

  /** Every character is whitespace (the empty string included): Python's `not s.strip()`. */
  predicate AllSpace(s: string) {
    SpaceBetween(s, 0, |s|)
  }

  /** Neither end is whitespace: what `strip()` leaves behind. */
  predicate Trimmed(s: string) {
    s == [] || (!IsSpace(s[0]) && !IsSpace(s[|s| - 1]))
  }

  /** The first index at or after `i` that holds no whitespace, or `|s|`. */
  function SkipSpace(s: string, i: nat): (n: nat)
    requires i <= |s|
    ensures i <= n <= |s|
    ensures SpaceBetween(s, i, n)
    ensures n == |s| || !IsSpace(s[n])
    decreases |s| - i
  {
    if i < |s| && IsSpace(s[i]) then SkipSpace(s, i + 1) else i
  }

  /** The index after the last non-whitespace character of `s[lo..j]`, or `lo`. */
  function SkipSpaceBack(s: string, lo: nat, j: nat): (e: nat)
    requires lo <= j <= |s|
    ensures lo <= e <= j
    ensures SpaceBetween(s, e, j)
    ensures e == lo || !IsSpace(s[e - 1])
    decreases j
  {
    if lo < j && IsSpace(s[j - 1]) then SkipSpaceBack(s, lo, j - 1) else j
  }

  /** Python's `str.strip()` with no argument: skip whitespace from the front, then from
      the back without crossing the front. */
  function Strip(s: string): (r: string)
    ensures |r| <= |s|
    ensures r == [] <==> AllSpace(s)
    ensures Trimmed(r)
  {
    var i := SkipSpace(s, 0);
    var j := SkipSpaceBack(s, i, |s|);
    assert i < |s| ==> i < j;
    s[i..j]
  }

  /** `Strip` is characterised by its bounds: the slice of `s` with only whitespace on
      either side of it and none at either of its ends is the stripped string. */
  lemma StripUnique(s: string, i: nat, j: nat)
    requires i <= j <= |s|
    requires SpaceBetween(s, 0, i) && SpaceBetween(s, j, |s|)
    requires Trimmed(s[i..j])
    ensures Strip(s) == s[i..j]
  {
    var a := SkipSpace(s, 0);
    var b := SkipSpaceBack(s, a, |s|);
    if i == j {
      assert AllSpace(s);
    } else {
      assert !IsSpace(s[i]) && !IsSpace(s[j - 1]);
      assert a == i;
      assert b == j;
    }
  }

  /** A trimmed string is its own `strip()`. */
  lemma StripTrimmed(s: string)
    requires Trimmed(s)
    ensures Strip(s) == s
  {
    assert s[0..|s|] == s;
    StripUnique(s, 0, |s|);
  }

  /** `strip()` is idempotent. */
  lemma StripIdempotent(s: string)
    ensures Strip(Strip(s)) == Strip(s)
  {
    StripTrimmed(Strip(s));
  }

  /** `sub` occurs in `s` starting at index `i`. */
  predicate OccursAt(s: string, sub: string, i: nat) {
    i + |sub| <= |s| && s[i..i + |sub|] == sub
  }

  /** Python's `sub in s`. */
  predicate Contains(s: string, sub: string) {
    exists i: nat :: i <= |s| - |sub| && OccursAt(s, sub, i)
  }

  /** An occurrence inside a slice is an occurrence in the whole string. */
  lemma OccursInSlice(s: string, sub: string, a: nat, b: nat, j: nat)
    requires a <= b <= |s| && OccursAt(s[a..b], sub, j)
    ensures OccursAt(s, sub, a + j)
  {
    forall k | 0 <= k < |sub| ensures s[a + j + k] == sub[k] {
      assert s[a..b][j..j + |sub|][k] == sub[k];
    }
  }

  /** A slice of a string that does not contain `sub` does not contain it either. */
  lemma SliceFree(s: string, sub: string, a: nat, b: nat)
    requires a <= b <= |s| && !Contains(s, sub)
    ensures !Contains(s[a..b], sub)
  {
    if Contains(s[a..b], sub) {
      var j: nat :| j <= b - a - |sub| && OccursAt(s[a..b], sub, j);
      OccursInSlice(s, sub, a, b, j);
    }
  }

  /** Stripping cannot introduce a substring that was not there. */
  lemma StripFree(s: string, sub: string)
    requires !Contains(s, sub)
    ensures !Contains(Strip(s), sub)
  {
    var i := SkipSpace(s, 0);
    SliceFree(s, sub, i, SkipSpaceBack(s, i, |s|));
  }

  /** Python's `s.find(sep, i)`, with `None` for -1: the leftmost occurrence at or
      after `i`. */
  function FindFrom(s: string, sep: string, i: nat): (r: Option<nat>)
    requires |sep| > 0 && i <= |s|
    ensures r.Some? ==> i <= r.value && OccursAt(s, sep, r.value)
    ensures r.Some? ==> forall j: nat :: i <= j < r.value ==> !OccursAt(s, sep, j)
    ensures r.None? ==> forall j: nat :: i <= j ==> !OccursAt(s, sep, j)
    decreases |s| - i
  {
    if |s| < i + |sep| then None
    else if OccursAt(s, sep, i) then Some(i)
    else FindFrom(s, sep, i + 1)
  }

  /** Python's `s[i:].split(sep)`: cut at the leftmost occurrence, then keep cutting
      what follows it. */
  function SplitFrom(s: string, sep: string, i: nat): (r: seq<string>)
    requires |sep| > 0 && i <= |s|
    ensures |r| >= 1
    ensures forall k :: 0 <= k < |r| ==> !Contains(r[k], sep)
    decreases |s| - i
  {
    match FindFrom(s, sep, i)
    case None =>
      assert !Contains(s[i..], sep) by {
        NoneFree(s, sep, i, |s|);
        assert s[i..] == s[i..|s|];
      }
      [s[i..]]
    case Some(p) =>
      assert !Contains(s[i..p], sep) by { NoneFree(s, sep, i, p); }
      [s[i..p]] + SplitFrom(s, sep, p + |sep|)
  }

  /** A slice in which no occurrence starts holds no occurrence. */
  lemma NoneFree(s: string, sep: string, i: nat, p: nat)
    requires |sep| > 0 && i <= p <= |s|
    requires forall j: nat :: i <= j < p ==> !OccursAt(s, sep, j)
    ensures !Contains(s[i..p], sep)
  {
    if Contains(s[i..p], sep) {
      var j: nat :| j <= p - i - |sep| && OccursAt(s[i..p], sep, j);
      OccursInSlice(s, sep, i, p, j);
    }
  }

  /** Python's `s.split(sep)` for a non-empty separator. */
  function Split(s: string, sep: string): (r: seq<string>)
    requires |sep| > 0
    ensures |r| >= 1
    ensures forall k :: 0 <= k < |r| ==> !Contains(r[k], sep)
  {
    SplitFrom(s, sep, 0)
  }

  /** Python's `sep.join(ps)`. */
  function Join(ps: seq<string>, sep: string): (r: string)
    ensures |ps| >= 1 ==> |r| == TotalLength(ps) + (|ps| - 1) * |sep|
  {
    if |ps| == 0 then []
    else if |ps| == 1 then ps[0]
    else ps[0] + sep + Join(ps[1..], sep)
  }

  /** Sum of the lengths of a list of strings. */
  function TotalLength(ps: seq<string>): nat {
    if ps == [] then 0 else |ps[0]| + TotalLength(ps[1..])
  }

  /** Python's `s[i:].count(sub)` for a non-empty `sub`: non-overlapping occurrences,
      scanning left to right. */
  function CountFrom(s: string, sub: string, i: nat): nat
    requires |sub| > 0 && i <= |s|
    decreases |s| - i
  {
    if |s| < i + |sub| then 0
    else if OccursAt(s, sub, i) then 1 + CountFrom(s, sub, i + |sub|)
    else CountFrom(s, sub, i + 1)
  }

  /** Python's `s.count(sub)` for a non-empty `sub`. */
  function Count(s: string, sub: string): nat
    requires |sub| > 0
  {
    CountFrom(s, sub, 0)
  }

  /** Splitting and joining again with the same separator gives back the string. */
  lemma {:induction false} JoinSplitFrom(s: string, sep: string, i: nat)
    requires |sep| > 0 && i <= |s|
    ensures Join(SplitFrom(s, sep, i), sep) == s[i..]
    decreases |s| - i
  {
    match FindFrom(s, sep, i)
    case None =>
      SplitFromLast(s, sep, i);
      assert s[i..] == s[i..|s|];
    case Some(p) =>
      var q := p + |sep|;
      SplitFromCut(s, sep, i, p, q);
      JoinSplitFrom(s, sep, q);
      JoinCons(s[i..p], SplitFrom(s, sep, q), sep);
      assert s[p..q] == sep;
      SliceThree(s, i, p, q);
  }

  /** Joining a list with a first element puts the separator after that element. */
  lemma JoinCons(x: string, t: seq<string>, sep: string)
    requires |t| >= 1
    ensures Join([x] + t, sep) == x + sep + Join(t, sep)
  {
    assert ([x] + t)[1..] == t;
  }

  /** A suffix is the concatenation of the slices between two cut points. */
  lemma SliceThree(s: string, i: nat, p: nat, q: nat)
    requires i <= p <= q <= |s|
    ensures s[i..] == s[i..p] + s[p..q] + s[q..]
  {
  }

  /** `s.split(sep)` joined by `sep` is `s`. */
  lemma JoinSplit(s: string, sep: string)
    requires |sep| > 0
    ensures Join(Split(s, sep), sep) == s
  {
    JoinSplitFrom(s, sep, 0);
  }

  /** Counting skips to the occurrence `find` reports and consumes it. */
  lemma {:induction false} CountAfterFind(s: string, sep: string, i: nat)
    requires |sep| > 0 && i <= |s|
    ensures FindFrom(s, sep, i).None? ==> CountFrom(s, sep, i) == 0
    ensures FindFrom(s, sep, i).Some? ==>
      CountFrom(s, sep, i) == 1 + CountFrom(s, sep, FindFrom(s, sep, i).value + |sep|)
    decreases |s| - i
  {
    if |s| < i + |sep| {
    } else if OccursAt(s, sep, i) {
    } else {
      CountAfterFind(s, sep, i + 1);
    }
  }

  /** `s[i:].split(sep)` has exactly `s[i:].count(sep) + 1` pieces. */
  lemma {:induction false} SplitCountFrom(s: string, sep: string, i: nat)
    requires |sep| > 0 && i <= |s|
    ensures |SplitFrom(s, sep, i)| == CountFrom(s, sep, i) + 1
    decreases |s| - i
  {
    CountAfterFind(s, sep, i);
    match FindFrom(s, sep, i)
    case None =>
      SplitFromLast(s, sep, i);
    case Some(p) =>
      var q := p + |sep|;
      SplitFromCut(s, sep, i, p, q);
      SplitCountFrom(s, sep, q);
      ConsLength(SplitFrom(s, sep, i), s[i..p], SplitFrom(s, sep, q));
  }

  /** A list built from a head and a tail is one longer than the tail. */
  lemma ConsLength<T>(l: seq<T>, h: T, t: seq<T>)
    requires l == [h] + t
    ensures |l| == |t| + 1
  {
  }

  /** `s.split(sep)` has exactly `s.count(sep) + 1` pieces. */
  lemma SplitCount(s: string, sep: string)
    requires |sep| > 0
    ensures |Split(s, sep)| == Count(s, sep) + 1
  {
    SplitCountFrom(s, sep, 0);
  }

  /** Whitespace-only is preserved by concatenation and inherited by both parts. */
  lemma AllSpaceConcat(a: string, b: string)
    ensures AllSpace(a + b) <==> AllSpace(a) && AllSpace(b)
  {
    if AllSpace(a + b) {
      forall k | 0 <= k < |a| ensures IsSpace(a[k]) { assert a[k] == (a + b)[k]; }
      forall k | 0 <= k < |b| ensures IsSpace(b[k]) { assert b[k] == (a + b)[|a| + k]; }
    }
    if AllSpace(a) && AllSpace(b) {
      forall k | 0 <= k < |a + b| ensures IsSpace((a + b)[k]) {
        if k < |a| { assert (a + b)[k] == a[k]; } else { assert (a + b)[k] == b[k - |a|]; }
      }
    }
  }

  /** A join with a whitespace separator is all whitespace exactly when every piece is. */
  lemma {:induction false} JoinAllSpace(ps: seq<string>, sep: string)
    requires |ps| >= 1 && AllSpace(sep)
    ensures AllSpace(Join(ps, sep)) <==> forall k :: 0 <= k < |ps| ==> AllSpace(ps[k])
    decreases |ps|
  {
    if |ps| > 1 {
      var rest := Join(ps[1..], sep);
      JoinAllSpace(ps[1..], sep);
      AllSpaceConcat(ps[0], sep);
      AllSpaceConcat(ps[0] + sep, rest);
      assert Join(ps, sep) == ps[0] + sep + rest;
      assert (forall k :: 0 <= k < |ps| ==> AllSpace(ps[k]))
        <==> AllSpace(ps[0]) && forall k :: 0 <= k < |ps| - 1 ==> AllSpace(ps[1..][k]) by {
        if AllSpace(ps[0]) && forall k :: 0 <= k < |ps| - 1 ==> AllSpace(ps[1..][k]) {
          forall k | 0 <= k < |ps| ensures AllSpace(ps[k]) {
            if k > 0 { assert ps[k] == ps[1..][k - 1]; }
          }
        }
      }
    }
  }

  /** A `find` that succeeds inside a prefix is not disturbed by what follows. */
  lemma {:induction false} FindFromExtend(a: string, b: string, sep: string, i: nat)
    requires |sep| > 0 && i <= |a| && FindFrom(a, sep, i).Some?
    ensures FindFrom(a + b, sep, i) == FindFrom(a, sep, i)
    decreases |a| - i
  {
    assert (a + b)[i..i + |sep|] == a[i..i + |sep|];
    if !OccursAt(a, sep, i) {
      FindFromExtend(a, b, sep, i + 1);
    }
  }

  /** Concatenation is associative. */
  lemma ConcatAssoc<T>(x: seq<T>, y: seq<T>, z: seq<T>)
    ensures x + (y + z) == (x + y) + z
  {
  }

  /** A slice of the second part of a concatenation. */
  lemma ConcatSlice(x: string, y: string, a: nat, b: nat)
    requires a <= b <= |y|
    ensures (x + y)[|x| + a..|x| + b] == y[a..b]
  {
  }

  /** Splitting the second part of a concatenation ignores the first part. */
  lemma {:induction false} SplitFromShift(x: string, y: string, sep: string, i: nat)
    requires |sep| > 0 && i <= |y|
    ensures SplitFrom(x + y, sep, |x| + i) == SplitFrom(y, sep, i)
    decreases |y| - i
  {
    var s := x + y;
    FindFromShift(x, y, sep, i);
    match FindFrom(y, sep, i)
    case None =>
      ConcatSlice(x, y, i, |y|);
      SplitFromLast(y, sep, i);
      SplitFromLast(s, sep, |x| + i);
    case Some(p) =>
      SplitFromShift(x, y, sep, p + |sep|);
      ShiftCut(x, y, sep, i, p, p + |sep|);
  }

  /** The inductive step of `SplitFromShift`: the first cuts agree and so do the rests. */
  lemma ShiftCut(x: string, y: string, sep: string, i: nat, p: nat, q: nat)
    requires |sep| > 0 && i <= |y| && FindFrom(y, sep, i) == Some(p) && q == p + |sep|
    requires FindFrom(x + y, sep, |x| + i) == Some(|x| + p)
    requires SplitFrom(x + y, sep, |x| + q) == SplitFrom(y, sep, q)
    ensures SplitFrom(x + y, sep, |x| + i) == SplitFrom(y, sep, i)
  {
    SplitFromCut(y, sep, i, p, q);
    SplitFromCut(x + y, sep, |x| + i, |x| + p, |x| + q);
    ConcatSlice(x, y, i, p);
    ConsEqual(SplitFrom(x + y, sep, |x| + i), SplitFrom(y, sep, i),
              (x + y)[|x| + i..|x| + p], y[i..p],
              SplitFrom(x + y, sep, |x| + q), SplitFrom(y, sep, q));
  }

  /** Two lists built from equal heads and equal tails are equal. */
  lemma ConsEqual<T>(l1: seq<T>, l2: seq<T>, h1: T, h2: T, t1: seq<T>, t2: seq<T>)
    requires l1 == [h1] + t1 && l2 == [h2] + t2 && h1 == h2 && t1 == t2
    ensures l1 == l2
  {
  }

  /** The last piece of a split runs to the end of the text. */
  lemma SplitFromLast(s: string, sep: string, i: nat)
    requires |sep| > 0 && i <= |s| && FindFrom(s, sep, i).None?
    ensures SplitFrom(s, sep, i) == [s[i..|s|]]
  {
    assert s[i..] == s[i..|s|];
  }

  /** One cut of a split. */
  lemma SplitFromCut(s: string, sep: string, i: nat, p: nat, q: nat)
    requires |sep| > 0 && i <= |s| && FindFrom(s, sep, i) == Some(p) && q == p + |sep|
    ensures q <= |s|
    ensures SplitFrom(s, sep, i) == [s[i..p]] + SplitFrom(s, sep, q)
  {
  }

  /** A search result moved `n` positions to the right. */
  function ShiftBy(found: Option<nat>, n: nat): Option<nat> {
    match found
    case None => None
    case Some(p) => Some(n + p)
  }

  /** Finding in the second part of a concatenation ignores the first part. */
  lemma FindFromShift(x: string, y: string, sep: string, i: nat)
    requires |sep| > 0 && i <= |y|
    ensures FindFrom(x + y, sep, |x| + i) == ShiftBy(FindFrom(y, sep, i), |x|)
  {
    forall j: nat | j + |sep| <= |y|
      ensures OccursAt(x + y, sep, |x| + j) <==> OccursAt(y, sep, j)
    {
      ConcatSlice(x, y, j, j + |sep|);
    }
    FindFromOffset(x + y, y, sep, |x|, i);
  }

  /** Finding in a text whose occurrences are those of `y`, moved `n` positions to the
      right. */
  lemma {:induction false} FindFromOffset(s: string, y: string, sep: string, n: nat, i: nat)
    requires |sep| > 0 && i <= |y| && |s| == n + |y|
    requires forall j: nat :: j + |sep| <= |y| ==>
      (OccursAt(s, sep, n + j) <==> OccursAt(y, sep, j))
    ensures FindFrom(s, sep, n + i) == ShiftBy(FindFrom(y, sep, i), n)
    decreases |y| - i
  {
    if i + |sep| <= |y| {
      if !OccursAt(y, sep, i) {
        FindFromOffset(s, y, sep, n, i + 1);
      }
      OffsetStep(s, y, sep, n, i, OccursAt(y, sep, i));
    }
  }

  /** One step of `FindFromOffset`: both searches test corresponding positions. */
  lemma OffsetStep(s: string, y: string, sep: string, n: nat, i: nat, hit: bool)
    requires |sep| > 0 && i + |sep| <= |y| && |s| == n + |y|
    requires hit == OccursAt(y, sep, i) && hit == OccursAt(s, sep, n + i)
    requires !hit ==> FindFrom(s, sep, n + (i + 1)) == ShiftBy(FindFrom(y, sep, i + 1), n)
    ensures FindFrom(s, sep, n + i) == ShiftBy(FindFrom(y, sep, i), n)
  {
  }

  /** `find` reports the occurrence that has no other occurrence before it. */
  lemma FindFirst(s: string, sep: string, i: nat)
    requires |sep| > 0 && OccursAt(s, sep, i)
    requires forall j: nat :: j < i ==> !OccursAt(s, sep, j)
    ensures FindFrom(s, sep, 0) == Some(i)
  {
  }

  /** `find` fails on a string that does not contain the separator. */
  lemma FindAbsent(s: string, sep: string, i: nat)
    requires |sep| > 0 && i <= |s| && !Contains(s, sep)
    ensures FindFrom(s, sep, i).None?
  {
  }

  /** `p` ends exactly where the first separator of `p + sep` begins, so that splitting
      `p + sep + rest` cuts right after `p`. */
  predicate CutsCleanly(p: string, sep: string)
    requires |sep| > 0
  {
    FindFrom(p + sep, sep, 0) == Some(|p|)
  }

  /** A clean cut is the first cut a split makes. */
  lemma SplitAfterCleanCut(p: string, rest: string, sep: string)
    requires |sep| > 0 && CutsCleanly(p, sep)
    ensures Split(p + sep + rest, sep) == [p] + Split(rest, sep)
  {
    var s := (p + sep) + rest;
    FindFromExtend(p + sep, rest, sep, 0);
    assert s[0..|p|] == p;
    SplitFromShift(p + sep, rest, sep, 0);
  }

  /** Joining and splitting again with the same separator gives back the pieces, when
      every piece but the last cuts cleanly and the last holds no separator. */
  lemma {:induction false} SplitJoin(ps: seq<string>, sep: string)
    requires |sep| > 0 && |ps| >= 1
    requires forall k :: 0 <= k < |ps| - 1 ==> CutsCleanly(ps[k], sep)
    requires !Contains(ps[|ps| - 1], sep)
    ensures Split(Join(ps, sep), sep) == ps
    decreases |ps|
  {
    var p := ps[0];
    if |ps| == 1 {
      FindAbsent(p, sep, 0);
      assert p[0..] == p;
    } else {
      var tail := ps[1..];
      assert forall k :: 0 <= k < |tail| - 1 ==> CutsCleanly(tail[k], sep) by {
        forall k | 0 <= k < |tail| - 1 ensures CutsCleanly(tail[k], sep) {
          assert tail[k] == ps[k + 1];
        }
      }
      assert tail[|tail| - 1] == ps[|ps| - 1];
      SplitJoin(tail, sep);
      var rest := Join(tail, sep);
      assert CutsCleanly(p, sep);
      assert Join(ps, sep) == p + sep + rest;
      SplitAfterCleanCut(p, rest, sep);
      assert ps == [p] + ps[1..];
    }
  }
}
