/**
 * The two .NET string operations the calculator relies on:
 * `string.Split` with `StringSplitOptions.None` (empty pieces are kept, the
 * separator is matched leftmost and without overlap) and `string.Join`.
 * Splitting on a single character, `s.Split('+')`, is splitting on the
 * one-character separator `"+"`.
 */
module Strings {
  import opened Options

  /** `sep` occurs in `s` starting at index `i`. */
  ghost predicate OccursAt(s: string, sep: string, i: int) {
    0 <= i && i + |sep| <= |s| && s[i..i + |sep|] == sep
  }

  ghost predicate Contains(s: string, sep: string) {
    exists i :: OccursAt(s, sep, i)
  }

  lemma OccursAtTail(s: string, sep: string, j: int)
    requires |s| > 0 && j >= 0
    ensures OccursAt(s, sep, j + 1) <==> OccursAt(s[1..], sep, j)
  {
    if 0 <= j && j + 1 + |sep| <= |s| {
      assert s[j + 1..j + 1 + |sep|] == s[1..][j..j + |sep|];
    }
  }

  /** The first occurrence of `sep` in `s`, as `IndexOf` finds it. */
  function Find(s: string, sep: string): (r: Option<nat>)
    requires |sep| > 0
    ensures r.Some? ==> OccursAt(s, sep, r.value)
    ensures r.Some? ==> forall j :: 0 <= j < r.value ==> !OccursAt(s, sep, j)
    ensures r.None? ==> forall j :: !OccursAt(s, sep, j)
    decreases |s|
  {
    if |s| < |sep| then None
    else if s[..|sep|] == sep then Some(0)
    else
      assert !OccursAt(s, sep, 0);
      assert forall j :: 1 <= j ==> (OccursAt(s, sep, j) <==> OccursAt(s[1..], sep, j - 1)) by {
        forall j | 1 <= j ensures OccursAt(s, sep, j) <==> OccursAt(s[1..], sep, j - 1) {
          OccursAtTail(s, sep, j - 1);
        }
      }
      match Find(s[1..], sep)
      case None => None
      case Some(j) => Some(j + 1)
  }

  /** `string.Split(new[] { sep }, StringSplitOptions.None)`. */
  function Split(s: string, sep: string): (r: seq<string>)
    requires |sep| > 0
    ensures |r| > 0
    ensures r[0] <= s
    decreases |s|
  {
    match Find(s, sep)
    case None => [s]
    case Some(i) => [s[..i]] + Split(s[i + |sep|..], sep)
  }

  /** `string.Join(sep, parts)`; joining no parts gives the empty string. */
  function Join(sep: string, parts: seq<string>): (r: string)
    ensures |parts| == 0 ==> r == ""
    ensures |parts| > 0 ==> parts[0] <= r
    ensures |parts| > 1 ==> parts[0] + sep <= r
  {
    if |parts| == 0 then ""
    else if |parts| == 1 then parts[0]
    else parts[0] + sep + Join(sep, parts[1..])
  }

  /**
   * The number of non-overlapping occurrences of `sep` in `s`, scanning
   * from the left: a reference definition independent of `Find`.
   */
  function CountOccurrences(s: string, sep: string): nat
    requires |sep| > 0
    decreases |s|
  {
    if |s| < |sep| then 0
    else if s[..|sep|] == sep then 1 + CountOccurrences(s[|sep|..], sep)
    else CountOccurrences(s[1..], sep)
  }

  /** Splitting loses nothing: joining the pieces rebuilds the input. */
  lemma {:induction false} JoinSplit(s: string, sep: string)
    requires |sep| > 0
    ensures Join(sep, Split(s, sep)) == s
    decreases |s|
  {
    match Find(s, sep)
    case None =>
    case Some(i) =>
      var rest := s[i + |sep|..];
      JoinSplit(rest, sep);
      assert Split(s, sep) == [s[..i]] + Split(rest, sep);
      assert s == s[..i] + sep + rest by {
        assert s[i..i + |sep|] == sep;
      }
  }

  /** No piece produced by `Split` contains the separator. */
  lemma {:induction false} SplitPiecesAreSeparatorFree(s: string, sep: string)
    requires |sep| > 0
    ensures forall k :: 0 <= k < |Split(s, sep)| ==> !Contains(Split(s, sep)[k], sep)
    decreases |s|
  {
    match Find(s, sep)
    case None =>
      forall j ensures !OccursAt(s, sep, j) { }
    case Some(i) =>
      var rest := s[i + |sep|..];
      SplitPiecesAreSeparatorFree(rest, sep);
      forall j | OccursAt(s[..i], sep, j) ensures false {
        assert s[..i][j..j + |sep|] == s[j..j + |sep|];
        assert OccursAt(s, sep, j);
      }
      assert Split(s, sep) == [s[..i]] + Split(rest, sep);
  }

  /**
   * `parts` are the pieces of `s` cut the way .NET cuts: the first piece runs
   * up to the leftmost occurrence of `sep`, that occurrence is dropped, and
   * the rest of `s` is cut the same way; with no occurrence left, the whole
   * remainder is the last piece.
   */
  ghost predicate IsLeftmostSplit(s: string, sep: string, parts: seq<string>)
    decreases |parts|
  {
    && |parts| > 0
    && if |parts| == 1 then parts[0] == s && !Contains(s, sep)
       else
         var n := |parts[0]|;
         && n + |sep| <= |s| && s[..n] == parts[0] && OccursAt(s, sep, n)
         && (forall j :: 0 <= j < n ==> !OccursAt(s, sep, j))
         && IsLeftmostSplit(s[n + |sep|..], sep, parts[1..])
  }

  /** `Split` cuts at the leftmost remaining occurrence each time. */
  lemma {:induction false} SplitIsLeftmost(s: string, sep: string)
    requires |sep| > 0
    ensures IsLeftmostSplit(s, sep, Split(s, sep))
    decreases |s|
  {
    match Find(s, sep)
    case None =>
      assert Split(s, sep) == [s];
    case Some(i) =>
      var rest := s[i + |sep|..];
      SplitIsLeftmost(rest, sep);
      var parts := Split(s, sep);
      assert parts == [s[..i]] + Split(rest, sep);
      assert parts[1..] == Split(rest, sep);
  }

  /** Leftmost cutting has one outcome only: any such list of pieces is `Split`'s. */
  lemma {:induction false} LeftmostSplitIsSplit(s: string, sep: string, parts: seq<string>)
    requires |sep| > 0 && IsLeftmostSplit(s, sep, parts)
    ensures Split(s, sep) == parts
    decreases |parts|
  {
    if |parts| == 1 {
      assert Find(s, sep).None?;
    } else {
      var rest := s[|parts[0]| + |sep|..];
      LeftmostFirstCut(s, sep, parts);
      LeftmostSplitIsSplit(rest, sep, parts[1..]);
      assert parts == [parts[0]] + parts[1..];
    }
  }

  /** With more than one piece, `Split` cuts off the first piece and splits the rest. */
  lemma LeftmostFirstCut(s: string, sep: string, parts: seq<string>)
    requires |sep| > 0 && IsLeftmostSplit(s, sep, parts) && |parts| > 1
    ensures Split(s, sep) == [parts[0]] + Split(s[|parts[0]| + |sep|..], sep)
    ensures IsLeftmostSplit(s[|parts[0]| + |sep|..], sep, parts[1..])
  {
    assert Find(s, sep) == Some(|parts[0]|);
  }

  /** The separator can start inside `p` only where it would run past `p` into a following separator. */
  ghost predicate CleanCut(p: string, sep: string) {
    forall j :: 0 <= j < |p| ==> !OccursAt(p + sep, sep, j)
  }

  /** An occurrence that starts inside `p` in `p + sep + t` lies within `p + sep`. */
  lemma OccursInsideFirst(p: string, sep: string, t: string, j: int)
    requires 0 <= j < |p|
    ensures OccursAt(p + sep + t, sep, j) <==> OccursAt(p + sep, sep, j)
  {
    var s := p + sep + t;
    assert s[..|p| + |sep|] == p + sep;
    if j + |sep| <= |p| + |sep| {
      assert s[j..j + |sep|] == (p + sep)[j..j + |sep|];
    }
  }

  /**
   * Join-then-split gives the parts back exactly when the separator starts
   * inside no part other than where a part ends just before the separator,
   * and the last part does not contain it.
   */
  lemma {:induction false} SplitJoinExactly(parts: seq<string>, sep: string)
    requires |sep| > 0 && |parts| > 0
    ensures Split(Join(sep, parts), sep) == parts <==>
      && (forall k :: 0 <= k < |parts| - 1 ==> CleanCut(parts[k], sep))
      && !Contains(parts[|parts| - 1], sep)
    decreases |parts|
  {
    var s := Join(sep, parts);
    SplitIsLeftmost(s, sep);
    if IsLeftmostSplit(s, sep, parts) {
      LeftmostSplitIsSplit(s, sep, parts);
    }
    LeftmostJoinExactly(parts, sep);
  }

  /** The leftmost-cut condition on a joined text, part by part. */
  lemma {:induction false} LeftmostJoinExactly(parts: seq<string>, sep: string)
    requires |sep| > 0 && |parts| > 0
    ensures IsLeftmostSplit(Join(sep, parts), sep, parts) <==>
      && (forall k :: 0 <= k < |parts| - 1 ==> CleanCut(parts[k], sep))
      && !Contains(parts[|parts| - 1], sep)
    decreases |parts|
  {
    if |parts| > 1 {
      var p, rest := parts[0], Join(sep, parts[1..]);
      var s := p + sep + rest;
      assert Join(sep, parts) == s;
      LeftmostJoinExactly(parts[1..], sep);
      assert s[..|p|] == p;
      assert s[|p|..|p| + |sep|] == sep;
      assert s[|p| + |sep|..] == rest;
      forall j | 0 <= j < |p| {
        OccursInsideFirst(p, sep, rest, j);
      }
      assert (forall j :: 0 <= j < |p| ==> !OccursAt(s, sep, j)) <==> CleanCut(p, sep);
      assert parts[|parts| - 1] == parts[1..][|parts[1..]| - 1];
      assert (forall k :: 0 <= k < |parts| - 1 ==> CleanCut(parts[k], sep)) <==>
        CleanCut(p, sep) && (forall k :: 0 <= k < |parts[1..]| - 1 ==> CleanCut(parts[1..][k], sep)) by {
        forall k | 0 <= k < |parts[1..]| - 1 ensures parts[1..][k] == parts[k + 1] { }
      }
    }
  }

  /** A string without the separator's first character does not contain it. */
  lemma FirstCharAbsent(p: string, sep: string)
    requires |sep| > 0 && sep[0] !in p
    ensures forall j :: !OccursAt(p, sep, j)
  {
  }

  /** A string without the separator's first character splits into itself alone. */
  lemma SplitClean(p: string, sep: string)
    requires |sep| > 0 && sep[0] !in p
    ensures Split(p, sep) == [p]
  {
    FirstCharAbsent(p, sep);
    assert Find(p, sep).None?;
  }

  /** The first occurrence in `p + sep + t` is the one right after `p`. */
  lemma FindAfterCleanPrefix(p: string, sep: string, t: string)
    requires |sep| > 0 && sep[0] !in p
    ensures Find(p + sep + t, sep) == Some(|p|)
  {
    var s := p + sep + t;
    assert s[|p|..|p| + |sep|] == sep;
    assert OccursAt(s, sep, |p|);
    forall j | 0 <= j < |p| ensures !OccursAt(s, sep, j) {
      assert s[j] == p[j];
    }
  }

  /** Splitting `p + sep + t` cuts off exactly `p`. */
  lemma SplitAfterCleanPrefix(p: string, sep: string, t: string)
    requires |sep| > 0 && sep[0] !in p
    ensures Split(p + sep + t, sep) == [p] + Split(t, sep)
  {
    var s := p + sep + t;
    FindAfterCleanPrefix(p, sep, t);
    assert s[..|p|] == p;
    assert s[|p| + |sep|..] == t;
  }

  /**
   * Joining and then splitting gives the parts back when no part holds the
   * separator's first character.
   */
  lemma {:induction false} SplitJoin(parts: seq<string>, sep: string)
    requires |sep| > 0 && |parts| > 0
    requires forall k :: 0 <= k < |parts| ==> sep[0] !in parts[k]
    ensures Split(Join(sep, parts), sep) == parts
    decreases |parts|
  {
    if |parts| == 1 {
      FirstCharAbsent(parts[0], sep);
    } else {
      var rest := Join(sep, parts[1..]);
      SplitJoin(parts[1..], sep);
      SplitAfterCleanPrefix(parts[0], sep, rest);
      assert parts == [parts[0]] + parts[1..];
    }
  }

  /** An entry that contains the separator never survives join-then-split. */
  lemma SplitJoinBreaks(parts: seq<string>, sep: string, k: int)
    requires |sep| > 0 && 0 <= k < |parts| && Contains(parts[k], sep)
    ensures Split(Join(sep, parts), sep) != parts
  {
    SplitPiecesAreSeparatorFree(Join(sep, parts), sep);
  }

  /** Joined text is empty exactly for no parts or for one empty part. */
  lemma JoinIsEmpty(sep: string, parts: seq<string>)
    requires |sep| > 0
    ensures Join(sep, parts) == "" <==> parts == [] || parts == [""]
  {
    if |parts| >= 2 {
      assert |Join(sep, parts)| >= |sep|;
    }
  }

  /** Scanning skips a prefix in which the separator does not start. */
  lemma {:induction false} CountSkipsClearPrefix(s: string, sep: string, i: nat)
    requires |sep| > 0 && i <= |s|
    requires forall j :: 0 <= j < i ==> !OccursAt(s, sep, j)
    ensures CountOccurrences(s, sep) == CountOccurrences(s[i..], sep)
    decreases i
  {
    if i > 0 && |s| >= |sep| {
      assert !OccursAt(s, sep, 0);
      forall j | 0 <= j < i - 1 ensures !OccursAt(s[1..], sep, j) {
        OccursAtTail(s, sep, j);
      }
      CountSkipsClearPrefix(s[1..], sep, i - 1);
      assert s[1..][i - 1..] == s[i..];
    } else if i > 0 {
      assert CountOccurrences(s, sep) == 0 == CountOccurrences(s[i..], sep);
    }
  }

  /** Without any occurrence the count is zero. */
  lemma CountNone(s: string, sep: string)
    requires |sep| > 0
    requires forall j :: !OccursAt(s, sep, j)
    ensures CountOccurrences(s, sep) == 0
  {
    CountSkipsClearPrefix(s, sep, |s|);
    assert s[|s|..] == "";
  }

  /** Split yields one piece more than there are separator occurrences. */
  lemma {:induction false} SplitCount(s: string, sep: string)
    requires |sep| > 0
    ensures |Split(s, sep)| == CountOccurrences(s, sep) + 1
    decreases |s|
  {
    match Find(s, sep)
    case None =>
      CountNone(s, sep);
    case Some(i) =>
      var rest := s[i + |sep|..];
      CountSkipsClearPrefix(s, sep, i);
      var t := s[i..];
      assert t[..|sep|] == sep;
      assert t[|sep|..] == rest;
      SplitCount(rest, sep);
  }
}
