/**
  The java.lang.String operations the site generator relies on, written out
  over Dafny strings (sequences of characters).
 */
module Strings {

  predicate StartsWith(s: string, p: string) {
    |p| <= |s| && s[..|p|] == p
  }

  predicate EndsWith(s: string, p: string) {
    |p| <= |s| && s[|s| - |p|..] == p
  }

  /** `p` occurs in `s` starting at index `i`. */
  predicate OccursAt(s: string, p: string, i: int) {
    0 <= i && i + |p| <= |s| && s[i..i + |p|] == p
  }

  predicate Occurs(s: string, p: string) {
    exists i :: 0 <= i <= |s| && OccursAt(s, p, i)
  }

  /** String.indexOf(p, from): the first occurrence of `p` at or after `from`, or -1. */
  function IndexOf(s: string, p: string, from: nat): (r: int)
    requires from <= |s|
    ensures r == -1 || (from <= r && OccursAt(s, p, r))
    ensures forall i :: from <= i && (r == -1 || i < r) ==> !OccursAt(s, p, i)
    decreases |s| - from
  {
    if from + |p| > |s| then -1
    else if s[from..from + |p|] == p then from
    else IndexOf(s, p, from + 1)
  }

  /** String.lastIndexOf(c): the last index holding `c`, or -1. */
  function LastIndexOf(s: string, c: char): (r: int)
    ensures -1 <= r < |s|
    ensures r >= 0 ==> s[r] == c
    ensures forall i :: r < i < |s| ==> s[i] != c
  {
    if s == [] then -1
    else if s[|s| - 1] == c then |s| - 1
    else LastIndexOf(s[..|s| - 1], c)
  }

  /** The last `c` in `s` is at `i` when `s[i]` is `c` and no later character is. */
  lemma LastIndexOfAt(s: string, c: char, i: nat)
    requires i < |s| && s[i] == c
    requires forall j :: i < j < |s| ==> s[j] != c
    ensures LastIndexOf(s, c) == i
  {
  }

  /**
    String.replace(p, r): every occurrence of `p`, found left to right without
    overlap, is replaced by `r`; the inserted text is never scanned again. An
    empty `p` inserts `r` before every character and at the end.
   */
  function ReplaceAll(s: string, p: string, r: string): string
    decreases |s|
  {
    if p == [] then
      if s == [] then r else r + [s[0]] + ReplaceAll(s[1..], p, r)
    else if |s| < |p| then s
    else if s[..|p|] == p then r + ReplaceAll(s[|p|..], p, r)
    else [s[0]] + ReplaceAll(s[1..], p, r)
  }

  /**
    String.replaceFirst(p, r) for a pattern and a replacement free of regular
    expression metacharacters: only the first occurrence is replaced.
   */
  function ReplaceFirst(s: string, p: string, r: string): (t: string)
    ensures !Occurs(s, p) ==> t == s
    ensures Occurs(s, p) ==>
      var i := IndexOf(s, p, 0);
      OccursAt(s, p, i) && (forall j :: 0 <= j < i ==> !OccursAt(s, p, j)) &&
      t == s[..i] + r + s[i + |p|..]
  {
    var i := IndexOf(s, p, 0);
    if i < 0 then s else s[..i] + r + s[i + |p|..]
  }

  /** Collectors.joining(sep) over a list of strings. */
  function Join(parts: seq<string>, sep: string): string {
    if parts == [] then ""
    else if |parts| == 1 then parts[0]
    else parts[0] + sep + Join(parts[1..], sep)
  }

  /** Regrouping a concatenation of three strings. */
  lemma Assoc(x: string, y: string, z: string)
    ensures x + y + z == x + (y + z)
  {
  }

  /** `p` found at `i` in `b` is found at |a| + i in a + b + c. */
  lemma OccursInMiddle(a: string, b: string, c: string, p: string, i: nat)
    requires OccursAt(b, p, i)
    ensures OccursAt(a + b + c, p, |a| + i)
  {
    assert (a + b + c)[|a| + i..|a| + i + |p|] == b[i..i + |p|];
  }

  /** The first part of a join starts it. */
  lemma JoinHead(parts: seq<string>, sep: string)
    requires parts != []
    ensures OccursAt(Join(parts, sep), parts[0], 0)
  {
    if |parts| > 1 {
      OccursInMiddle([], parts[0], sep + Join(parts[1..], sep), parts[0], 0);
      assert parts[0] == parts[0][0..|parts[0]|];
    }
  }

  /**
    Collectors.joining keeps the parts in order: part m starts right after
    the join of the parts before it and one separator.
   */
  lemma {:induction false} JoinPart(parts: seq<string>, sep: string, m: nat)
    requires m < |parts|
    ensures OccursAt(Join(parts, sep), parts[m], if m == 0 then 0 else |Join(parts[..m], sep)| + |sep|)
    decreases m
  {
    if m == 0 {
      JoinHead(parts, sep);
    } else {
      var tail := parts[1..];
      JoinPart(tail, sep, m - 1);
      var off := if m - 1 == 0 then 0 else |Join(tail[..m - 1], sep)| + |sep|;
      if m > 1 {
        assert parts[..m][1..] == tail[..m - 1];
      }
      assert |Join(parts[..m], sep)| + |sep| == |parts[0] + sep| + off;
      OccursInMiddle(parts[0] + sep, Join(tail, sep), [], parts[m], off);
      assert parts[0] + sep + Join(tail, sep) + [] == Join(parts, sep);
    }
  }

  /** With no occurrence of a non-empty pattern, String.replace changes nothing. */
  lemma {:induction false} ReplaceAllAbsent(s: string, p: string, r: string)
    requires p != [] && !Occurs(s, p)
    ensures ReplaceAll(s, p, r) == s
    decreases |s|
  {
    if |s| >= |p| {
      assert !OccursAt(s, p, 0);
      forall i | 0 <= i <= |s[1..]| ensures !OccursAt(s[1..], p, i) {
        OccursAtTail(s, p, i);
      }
      ReplaceAllAbsent(s[1..], p, r);
    }
  }

  lemma OccursAtTail(s: string, p: string, i: nat)
    requires s != []
    ensures OccursAt(s[1..], p, i) <==> OccursAt(s, p, i + 1)
  {
    if i + 1 + |p| <= |s| {
      assert s[1..][i..i + |p|] == s[i + 1..i + 1 + |p|];
    }
  }

  /** Where no occurrence starts, String.replace copies one character and moves on. */
  lemma ReplaceAllStep(s: string, p: string, r: string)
    requires p != [] && s != [] && !OccursAt(s, p, 0)
    ensures ReplaceAll(s, p, r) == [s[0]] + ReplaceAll(s[1..], p, r)
  {
    if |s| >= |p| {
      assert s[0..|p|] == s[..|p|];
    } else {
      assert s == [s[0]] + s[1..];
    }
  }

  lemma ConsAssoc(c: char, a: string, b: string)
    ensures [c] + (a + b) == ([c] + a) + b
  {
  }

  /**
    A prefix in which no occurrence of `p` starts is copied unchanged, and the
    scan resumes right after it.
   */
  lemma {:induction false} ReplaceAllSkip(x: string, y: string, p: string, r: string)
    requires p != []
    requires forall i :: 0 <= i < |x| ==> !OccursAt(x + y, p, i)
    ensures ReplaceAll(x + y, p, r) == x + ReplaceAll(y, p, r)
    decreases |x|
  {
    if x != [] {
      var s := x + y;
      var t := x[1..] + y;
      assert s[1..] == t;
      forall i | 0 <= i < |x[1..]| ensures !OccursAt(t, p, i) {
        OccursAtTail(s, p, i);
      }
      ReplaceAllSkip(x[1..], y, p, r);
      assert !OccursAt(s, p, 0);
      ReplaceAllStep(s, p, r);
      ConsAssoc(x[0], x[1..], ReplaceAll(y, p, r));
      assert x == [x[0]] + x[1..];
    } else {
      assert x + y == y;
    }
  }
}
