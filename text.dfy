/**
 * The string operations the booking code relies on, with JavaScript's meaning:
 * `indexOf`, `split` on a non-empty separator, and `replace` with a string pattern
 * (which replaces the first occurrence only).
 */
module Text {
  import opened Wrappers

  /** `pat` occurs in `s` starting at index `i`. */
  predicate OccursAt(s: string, pat: string, i: nat)
  {
    i + |pat| <= |s| && s[i..i + |pat|] == pat
  }

  lemma OccursAtShift(s: string, pat: string, j: nat)
    requires |s| > 0
    ensures OccursAt(s, pat, j + 1) <==> OccursAt(s[1..], pat, j)
  {
    if j + 1 + |pat| <= |s| {
      assert s[j + 1..j + 1 + |pat|] == s[1..][j..j + |pat|];
    }
  }

  /** The leftmost occurrence of `pat` in `s`, as `s.indexOf(pat)` finds it. */
  function Find(s: string, pat: string): (r: Option<nat>)
    ensures r.Some? ==> r.value + |pat| <= |s|
    decreases |s|
  {
    if |s| < |pat| then None
    else if s[..|pat|] == pat then Some(0)
    else match Find(s[1..], pat)
      case None => None
      case Some(k) => Some(k + 1)
  }

  /** `Find` gives an occurrence with none before it, or `None` when there is none at all. */
  lemma {:induction false} FindSpec(s: string, pat: string)
    ensures Find(s, pat).Some? ==> OccursAt(s, pat, Find(s, pat).value)
    ensures Find(s, pat).Some? ==> forall j: nat :: j < Find(s, pat).value ==> !OccursAt(s, pat, j)
    ensures Find(s, pat).None? ==> forall j: nat :: !OccursAt(s, pat, j)
    decreases |s|
  {
    if |s| < |pat| {
    } else if s[..|pat|] == pat {
    } else {
      FindSpec(s[1..], pat);
      assert !OccursAt(s, pat, 0);
      forall j: nat ensures OccursAt(s, pat, j + 1) <==> OccursAt(s[1..], pat, j) {
        OccursAtShift(s, pat, j);
      }
      match Find(s[1..], pat)
      case None =>
        forall j: nat ensures !OccursAt(s, pat, j) {
          if j > 0 { assert !OccursAt(s[1..], pat, j - 1); }
        }
      case Some(k) =>
        forall j: nat | j < k + 1 ensures !OccursAt(s, pat, j) {
          if j > 0 { assert !OccursAt(s[1..], pat, j - 1); }
        }
    }
  }

  predicate Contains(s: string, pat: string)
  {
    Find(s, pat).Some?
  }

  /** Pieces joined back with the separator between them. */
  function Join(parts: seq<string>, sep: string): string
  {
    if |parts| == 0 then ""
    else if |parts| == 1 then parts[0]
    else parts[0] + sep + Join(parts[1..], sep)
  }

  /**
   * `s.split(sep)` for a non-empty separator: the pieces between the occurrences of
   * `sep` found left to right, each search starting after the previous match.
   */
  function Split(s: string, sep: string): (parts: seq<string>)
    requires sep != ""
    ensures |parts| >= 1
    decreases |s|
  {
    match Find(s, sep)
    case None => [s]
    case Some(k) => [s[..k]] + Split(s[k + |sep|..], sep)
  }

  /** The pieces joined with the separator give the text back, and no piece holds the separator. */
  lemma {:induction false} SplitJoins(s: string, sep: string)
    requires sep != ""
    ensures Join(Split(s, sep), sep) == s
    ensures forall i :: 0 <= i < |Split(s, sep)| ==> !Contains(Split(s, sep)[i], sep)
    decreases |s|
  {
    match Find(s, sep)
    case None =>
    case Some(k) =>
      var tail := s[k + |sep|..];
      var rest := Split(tail, sep);
      SplitJoins(tail, sep);
      PieceBeforeFirst(s, sep);
      var parts := [s[..k]] + rest;
      assert parts[1..] == rest;
      assert s[..k] + sep + tail == s by { FindSpec(s, sep); }
      assert forall i :: 1 <= i < |parts| ==> parts[i] == rest[i - 1];
  }

  /** The text before the first occurrence of `sep` holds no occurrence of it. */
  lemma PieceBeforeFirst(s: string, sep: string)
    requires sep != "" && Find(s, sep).Some?
    ensures !Contains(s[..Find(s, sep).value], sep)
  {
    var k := Find(s, sep).value;
    var head := s[..k];
    FindSpec(s, sep);
    forall j: nat ensures !OccursAt(head, sep, j) {
      if j + |sep| <= k {
        assert head[j..j + |sep|] == s[j..j + |sep|];
        assert !OccursAt(s, sep, j);
      }
    }
    Absent(head, sep);
  }

  /** Splitting at an occurrence that is known to be the first one. */
  lemma SplitAtFirst(a: string, sep: string, b: string)
    requires sep != ""
    requires forall j: nat :: j < |a| ==> !OccursAt(a + sep + b, sep, j)
    ensures Split(a + sep + b, sep) == [a] + Split(b, sep)
  {
    var s := a + sep + b;
    assert s[|a|..|a| + |sep|] == sep;
    assert OccursAt(s, sep, |a|);
    FindFirst(s, sep, |a|);
    assert s[..|a|] == a;
    assert s[|a| + |sep|..] == b;
  }

  /**
   * No occurrence of `sep` in `a + sep + b` starts inside `a` when none occurs in `a`
   * followed by all but the last character of `sep`.
   */
  lemma NoEarlierOccurrence(a: string, sep: string, b: string)
    requires sep != "" && !Contains(a + sep[..|sep| - 1], sep)
    ensures forall j: nat :: j < |a| ==> !OccursAt(a + sep + b, sep, j)
  {
    var s := a + sep + b;
    var t := a + sep[..|sep| - 1];
    FindSpec(t, sep);
    forall j: nat | j < |a| ensures !OccursAt(s, sep, j) {
      assert s[j..j + |sep|] == t[j..j + |sep|];
      assert !OccursAt(t, sep, j);
    }
  }

  /** `c` appears nowhere in `s`. */
  predicate Lacks(s: string, c: char)
  {
    forall i :: 0 <= i < |s| ==> s[i] != c
  }

  lemma LacksNotContains(s: string, c: char)
    requires Lacks(s, c)
    ensures !Contains(s, [c])
  {
    forall k: nat | k + 1 <= |s| ensures !OccursAt(s, [c], k) {
      assert s[k..k + 1] == [s[k]];
    }
    Absent(s, [c]);
  }

  /** Splitting on a one-character separator that occurs exactly once, between `a` and `b`. */
  lemma SplitOnce(a: string, c: char, b: string)
    requires Lacks(a, c) && Lacks(b, c)
    ensures Split(a + [c] + b, [c]) == [a, b]
  {
    LacksNotContains(a, c);
    assert a + [c][..0] == a;
    NoEarlierOccurrence(a, [c], b);
    SplitAtFirst(a, [c], b);
    LacksNotContains(b, c);
  }

  /** An occurrence found in `a` stays the first one when text is appended. */
  lemma FindInPrefix(a: string, pat: string, b: string)
    requires Contains(a, pat)
    ensures Find(a + b, pat) == Find(a, pat)
  {
    var s := a + b;
    FindSpec(a, pat);
    var k := Find(a, pat).value;
    assert OccursAt(s, pat, k) by {
      assert s[k..k + |pat|] == a[k..k + |pat|];
    }
    forall j: nat | j < k ensures !OccursAt(s, pat, j) {
      PrefixOccurrence(a, pat, b, j);
    }
    FindFirst(s, pat, k);
  }

  /** Within `a`, an occurrence in `a + b` is one in `a`. */
  lemma PrefixOccurrence(a: string, pat: string, b: string, j: nat)
    requires j + |pat| <= |a|
    ensures OccursAt(a + b, pat, j) <==> OccursAt(a, pat, j)
  {
    assert (a + b)[j..j + |pat|] == a[j..j + |pat|];
  }

  /** An occurrence with none before it is the one `Find` returns. */
  lemma FindFirst(s: string, pat: string, k: nat)
    requires OccursAt(s, pat, k)
    requires forall j: nat :: j < k ==> !OccursAt(s, pat, j)
    ensures Find(s, pat) == Some(k)
  {
    FindSpec(s, pat);
  }

  /** A pattern that occurs at no index is not contained. */
  lemma Absent(s: string, pat: string)
    requires forall j: nat :: !OccursAt(s, pat, j)
    ensures !Contains(s, pat)
  {
    FindSpec(s, pat);
  }

  /** The first piece of a text is cut at the first occurrence of the separator in any prefix holding one. */
  lemma FirstPieceInPrefix(a: string, sep: string, b: string)
    requires sep != "" && Contains(a, sep)
    ensures Split(a + b, sep)[0] == a[..Find(a, sep).value]
  {
    FindInPrefix(a, sep, b);
    var k := Find(a, sep).value;
    assert (a + b)[..k] == a[..k];
  }

  /** A text in which `sep` does not occur is one piece. */
  lemma SplitWithout(s: string, sep: string)
    requires sep != "" && !Contains(s, sep)
    ensures Split(s, sep) == [s]
  {
  }

  /** `s.replace(pat, rep)` with a string pattern: only the first occurrence is replaced. */
  function ReplaceFirst(s: string, pat: string, rep: string): string
  {
    match Find(s, pat)
    case None => s
    case Some(k) => s[..k] + rep + s[k + |pat|..]
  }

  /** Removing a pattern that starts the text leaves exactly the rest, later occurrences included. */
  lemma ReplaceLeadingOccurrence(pat: string, rest: string)
    ensures ReplaceFirst(pat + rest, pat, "") == rest
  {
    var s := pat + rest;
    FindAtStart(pat, rest);
    assert s[|pat|..] == rest;
  }

  /** A text that starts with the pattern has its first occurrence at 0. */
  lemma FindAtStart(pat: string, rest: string)
    ensures Find(pat + rest, pat) == Some(0)
  {
    var s := pat + rest;
    assert s[..|pat|] == pat;
    assert OccursAt(s, pat, 0);
  }
}
