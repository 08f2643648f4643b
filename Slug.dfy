/**
  The heading slug of JoobySiteGenerator.id: every maximal run of characters
  that are not ASCII letters becomes one hyphen, then every run of hyphens is
  collapsed to one. Leading and trailing hyphens are kept.
 */
module Slug {
  import Strings

  predicate IsLetter(c: char) {
    'A' <= c <= 'Z' || 'a' <= c <= 'z'
  }

  /** The characters of `s` that are ASCII letters, in order. */
  function Letters(s: string): string {
    if s == [] then ""
    else if IsLetter(s[0]) then [s[0]] + Letters(s[1..])
    else Letters(s[1..])
  }

  /** The strings a slug can be: letters and hyphens, never two hyphens in a row. */
  predicate Clean(t: string) {
    (forall i :: 0 <= i < |t| ==> IsLetter(t[i]) || t[i] == '-') &&
    (forall i :: 0 <= i < |t| - 1 ==> !(t[i] == '-' && t[i + 1] == '-'))
  }

  /** The rest of `s` from its first ASCII letter on. */
  function DropNonLetters(s: string): (r: string)
    ensures |r| <= |s| && r == s[|s| - |r|..]
    ensures r == [] || IsLetter(r[0])
    ensures forall i :: 0 <= i < |s| - |r| ==> !IsLetter(s[i])
  {
    if s == [] || IsLetter(s[0]) then s else DropNonLetters(s[1..])
  }

  /** replaceAll("[^A-Za-z]+", "-") */
  function ReplaceNonLetterRuns(s: string): string
    decreases |s|
  {
    if s == [] then ""
    else if IsLetter(s[0]) then [s[0]] + ReplaceNonLetterRuns(s[1..])
    else "-" + ReplaceNonLetterRuns(DropNonLetters(s[1..]))
  }

  /** The rest of `s` after its leading hyphens. */
  function DropHyphens(s: string): (r: string)
    ensures |r| <= |s|
    ensures r == [] || r[0] != '-'
  {
    if s == [] || s[0] != '-' then s else DropHyphens(s[1..])
  }

  /** replaceAll("\\-+", "-") */
  function CollapseHyphens(s: string): string
    decreases |s|
  {
    if s == [] then ""
    else if s[0] == '-' then "-" + CollapseHyphens(DropHyphens(s[1..]))
    else [s[0]] + CollapseHyphens(s[1..])
  }

  /** JoobySiteGenerator.id */
  function Id(text: string): string {
    CollapseHyphens(ReplaceNonLetterRuns(text))
  }

  lemma {:induction false} LettersOfDropped(s: string)
    ensures Letters(DropNonLetters(s)) == Letters(s)
    decreases |s|
  {
    if s != [] && !IsLetter(s[0]) {
      LettersOfDropped(s[1..]);
    }
  }

  /** The first replacement alone already yields a clean string that keeps the input's letters. */
  lemma CleanCons(c: char, t: string)
    requires Clean(t)
    requires IsLetter(c) || (c == '-' && (t == [] || t[0] != '-'))
    ensures Clean([c] + t)
  {
    var r := [c] + t;
    assert forall i :: 1 <= i < |r| ==> r[i] == t[i - 1];
  }

  lemma LettersCons(c: char, t: string)
    ensures Letters([c] + t) == if IsLetter(c) then [c] + Letters(t) else Letters(t)
  {
    assert ([c] + t)[1..] == t;
  }

  lemma {:induction false} ReplaceNonLetterRunsClean(s: string)
    ensures Clean(ReplaceNonLetterRuns(s))
    ensures Letters(ReplaceNonLetterRuns(s)) == Letters(s)
    ensures ReplaceNonLetterRuns(s) == [] <==> s == []
    ensures s != [] && IsLetter(s[0]) ==> ReplaceNonLetterRuns(s)[0] == s[0]
    decreases |s|
  {
    if s != [] {
      if IsLetter(s[0]) {
        var t := ReplaceNonLetterRuns(s[1..]);
        ReplaceNonLetterRunsClean(s[1..]);
        CleanCons(s[0], t);
        LettersCons(s[0], t);
        LettersCons(s[0], s[1..]);
        assert s == [s[0]] + s[1..];
      } else {
        var rest := DropNonLetters(s[1..]);
        var t := ReplaceNonLetterRuns(rest);
        ReplaceNonLetterRunsClean(rest);
        LettersOfDropped(s[1..]);
        CleanCons('-', t);
        LettersCons('-', t);
        LettersCons(s[0], s[1..]);
        assert s == [s[0]] + s[1..];
      }
    }
  }

  /** A clean string has no run of non-letters longer than a single hyphen, so the first replacement keeps it. */
  lemma {:induction false} ReplaceNonLetterRunsFixes(t: string)
    requires Clean(t)
    ensures ReplaceNonLetterRuns(t) == t
    decreases |t|
  {
    if t != [] {
      assert Clean(t[1..]);
      ReplaceNonLetterRunsFixes(t[1..]);
      if !IsLetter(t[0]) {
        assert t[1..] == [] || IsLetter(t[1..][0]);
        assert DropNonLetters(t[1..]) == t[1..];
      }
    }
  }

  /** A clean string has no run of two hyphens, so collapsing changes nothing. */
  lemma {:induction false} CollapseHyphensFixes(t: string)
    requires Clean(t)
    ensures CollapseHyphens(t) == t
    decreases |t|
  {
    if t != [] {
      assert Clean(t[1..]);
      CollapseHyphensFixes(t[1..]);
      if t[0] == '-' {
        assert t[1..] == [] || t[1..][0] != '-';
        assert DropHyphens(t[1..]) == t[1..];
      }
    }
  }

  /** The second replacement of `id` never has anything to do. */
  lemma CollapseIsRedundant(text: string)
    ensures Id(text) == ReplaceNonLetterRuns(text)
  {
    ReplaceNonLetterRunsClean(text);
    CollapseHyphensFixes(ReplaceNonLetterRuns(text));
  }

  /**
    An id holds only ASCII letters and hyphens, never two hyphens in a row,
    keeps exactly the letters of the heading in their order, and is empty
    only for an empty heading.
   */
  lemma IdShape(text: string)
    ensures Clean(Id(text))
    ensures Letters(Id(text)) == Letters(text)
    ensures Id(text) == [] <==> text == []
  {
    CollapseIsRedundant(text);
    ReplaceNonLetterRunsClean(text);
  }

  /** The ids are exactly the clean strings: `id` fixes a string if and only if it is clean. */
  lemma IdFixedPoints(t: string)
    ensures Id(t) == t <==> Clean(t)
  {
    IdShape(t);
    if Clean(t) {
      ReplaceNonLetterRunsFixes(t);
      CollapseIsRedundant(t);
    }
  }

  /** A non-letter run ahead of a letter (or of the end) is dropped whole by `DropNonLetters`. */
  lemma {:induction false} DropNonLettersRun(run: string, y: string)
    requires forall i :: 0 <= i < |run| ==> !IsLetter(run[i])
    requires y == [] || IsLetter(y[0])
    ensures DropNonLetters(run + y) == y
    decreases |run|
  {
    if run == [] {
      assert run + y == y;
    } else {
      assert (run + y)[1..] == run[1..] + y;
      DropNonLettersRun(run[1..], y);
    }
  }

  /** `DropNonLetters` of a text that holds a letter stops inside it, so what follows is kept. */
  lemma {:induction false} DropNonLettersAppend(x: string, z: string)
    requires Letters(x) != []
    ensures DropNonLetters(x + z) == DropNonLetters(x) + z
    decreases |x|
  {
    assert x != [];
    AppendTail(x, z);
    if !IsLetter(x[0]) {
      assert Letters(x[1..]) != [] by {
        LettersCons(x[0], x[1..]);
        assert x == [x[0]] + x[1..];
      }
      DropNonLettersAppend(x[1..], z);
    }
  }

  /** A text ending in a letter still ends in that letter after its leading non-letters are dropped. */
  lemma DropNonLettersLast(x: string)
    requires x != [] && IsLetter(x[|x| - 1])
    ensures DropNonLetters(x) != [] && DropNonLetters(x)[|DropNonLetters(x)| - 1] == x[|x| - 1]
  {
  }

  /** A letter passes the first replacement unchanged. */
  lemma ReplaceLetterCons(c: char, t: string)
    requires IsLetter(c)
    ensures ReplaceNonLetterRuns([c] + t) == [c] + ReplaceNonLetterRuns(t)
  {
    assert ([c] + t)[1..] == t;
  }

  /** A whole run of non-letters becomes a single hyphen, in its place. */
  lemma ReplaceRun(run: string, y: string)
    requires run != [] && forall i :: 0 <= i < |run| ==> !IsLetter(run[i])
    requires y == [] || IsLetter(y[0])
    ensures ReplaceNonLetterRuns(run + y) == "-" + ReplaceNonLetterRuns(y)
  {
    assert (run + y)[0] == run[0];
    assert (run + y)[1..] == run[1..] + y;
    DropNonLettersRun(run[1..], y);
  }

  /** No run of non-letters spans a letter, so the first replacement splits after any letter. */
  lemma {:induction false} ReplaceAppend(x: string, z: string)
    requires x == [] || IsLetter(x[|x| - 1])
    ensures ReplaceNonLetterRuns(x + z) == ReplaceNonLetterRuns(x) + ReplaceNonLetterRuns(z)
    decreases |x|
  {
    if x == [] {
      assert x + z == z;
    } else if IsLetter(x[0]) {
      ReplaceAppend(x[1..], z);
      ReplaceHeadLetter(x, z);
      Strings.Assoc([x[0]], ReplaceNonLetterRuns(x[1..]), ReplaceNonLetterRuns(z));
    } else {
      var t := x[1..];
      assert Letters(t) != [] by {
        assert t[|t| - 1] == x[|x| - 1];
        LettersOfLast(t);
      }
      DropNonLettersLast(t);
      ReplaceAppend(DropNonLetters(t), z);
      ReplaceHeadRun(x, z);
      Strings.Assoc("-", ReplaceNonLetterRuns(DropNonLetters(t)), ReplaceNonLetterRuns(z));
    }
  }

  /** One step of the first replacement over `x + z` when `x` starts with a letter. */
  lemma ReplaceHeadLetter(x: string, z: string)
    requires x != [] && IsLetter(x[0])
    ensures ReplaceNonLetterRuns(x + z) == [x[0]] + ReplaceNonLetterRuns(x[1..] + z)
    ensures ReplaceNonLetterRuns(x) == [x[0]] + ReplaceNonLetterRuns(x[1..])
  {
    AppendTail(x, z);
  }

  /** One step of the first replacement over `x + z` when `x` starts with a non-letter and holds a letter later. */
  lemma ReplaceHeadRun(x: string, z: string)
    requires x != [] && !IsLetter(x[0]) && Letters(x[1..]) != []
    ensures ReplaceNonLetterRuns(x + z) == "-" + ReplaceNonLetterRuns(DropNonLetters(x[1..]) + z)
    ensures ReplaceNonLetterRuns(x) == "-" + ReplaceNonLetterRuns(DropNonLetters(x[1..]))
  {
    AppendTail(x, z);
    DropNonLettersAppend(x[1..], z);
  }

  lemma AppendTail(x: string, z: string)
    requires x != []
    ensures x + z != [] && (x + z)[0] == x[0] && (x + z)[1..] == x[1..] + z
  {
  }

  lemma {:induction false} LettersOfLast(t: string)
    requires t != [] && IsLetter(t[|t| - 1])
    ensures Letters(t) != []
    decreases |t|
  {
    LettersCons(t[0], t[1..]);
    assert t == [t[0]] + t[1..];
    if !IsLetter(t[0]) {
      LettersOfLast(t[1..]);
    }
  }

  /** The first replacement ends in a hyphen exactly when the input ends in a non-letter, and otherwise in that letter. */
  lemma {:induction false} ReplaceLast(s: string)
    requires s != []
    ensures var r := ReplaceNonLetterRuns(s);
      r != [] && r[|r| - 1] == if IsLetter(s[|s| - 1]) then s[|s| - 1] else '-'
    decreases |s|
  {
    if IsLetter(s[0]) {
      if |s| > 1 {
        ReplaceLast(s[1..]);
      }
    } else {
      var rest := DropNonLetters(s[1..]);
      if rest != [] {
        ReplaceLast(rest);
      }
    }
  }

  /**
    Each maximal run of non-letters between two letters (or the ends of the
    heading) becomes exactly one hyphen in its place: the id of `x + run + y`
    is the id of `x`, a hyphen, and the id of `y`.
   */
  lemma IdSeparates(x: string, run: string, y: string)
    requires run != [] && forall i :: 0 <= i < |run| ==> !IsLetter(run[i])
    requires x == [] || IsLetter(x[|x| - 1])
    requires y == [] || IsLetter(y[0])
    ensures Id(x + run + y) == Id(x) + "-" + Id(y)
  {
    var rx, ry := ReplaceNonLetterRuns(x), ReplaceNonLetterRuns(y);
    var r := ReplaceNonLetterRuns(x + run + y);
    assert r == rx + "-" + ry by {
      Strings.Assoc(x, run, y);
      ReplaceAppend(x, run + y);
      ReplaceRun(run, y);
      Strings.Assoc(rx, "-", ry);
    }
    assert Id(x + run + y) == r by {
      CollapseIsRedundant(x + run + y);
    }
    assert Id(x) == rx && Id(y) == ry by {
      CollapseIsRedundant(x);
      CollapseIsRedundant(y);
    }
  }

  /**
    Leading and trailing hyphens are kept: an id starts (ends) with a hyphen
    exactly when the heading starts (ends) with a non-letter, and otherwise
    with the heading's first (last) letter.
   */
  lemma IdEnds(text: string)
    requires text != []
    ensures var r := Id(text);
      r != [] && r[0] == (if IsLetter(text[0]) then text[0] else '-')
    ensures var r := Id(text);
      r != [] && r[|r| - 1] == (if IsLetter(text[|text| - 1]) then text[|text| - 1] else '-')
  {
    CollapseIsRedundant(text);
    ReplaceLast(text);
  }

  /** A heading of two words joined by " & " gets one hyphen between them. */
  lemma IdExample()
    ensures Id("A & B") == "A-B"
  {
    IdSeparates("A", " & ", "B");
    assert "A" + " & " + "B" == "A & B";
    ReplaceLetterCons('A', "");
    ReplaceLetterCons('B', "");
    CollapseIsRedundant("A");
    CollapseIsRedundant("B");
  }

  /** `id` is idempotent. */
  lemma IdIdempotent(text: string)
    ensures Id(Id(text)) == Id(text)
  {
    IdShape(text);
    IdFixedPoints(Id(text));
  }
}
