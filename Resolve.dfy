/**
  JoobySiteGenerator.process: the two passes that resolve the {{...}}
  placeholders of every Markdown page of the documentation tree.
 */
module Resolve {
  import opened Wrappers
  import opened Strings
  import opened Appendix

  /** A Markdown page: its path relative to the source root and its lines joined by "\n". */
  datatype Page = Page(path: string, text: string)

  /**
    A variable table (a HashMap<String, String>) as the sequence of its
    entries in iteration order.
   */
  type Table = seq<(string, string)>

  const AppendixToken: string := "{{appendix}}"
  const GithubTree: string := "https://github.com/jooby-project/jooby/tree/master/jooby-"
  const DocLink: string := "/doc/"
  const FrontMatterDelimiter: string := "---"
  const TocKey: string := "toc.md"

  /** The placeholder a variable is written as in a page. */
  function Token(key: string): string {
    "{{" + key + "}}"
  }

  // ---- the variable table ----

  predicate UniqueKeys(t: Table) {
    forall i, j :: 0 <= i < j < |t| ==> t[i].0 != t[j].0
  }

  /** The position of key `k` in `t`, or -1. */
  function KeyIndex(t: Table, k: string): (i: int)
    ensures -1 <= i < |t|
    ensures i >= 0 ==> t[i].0 == k
    ensures forall j :: 0 <= j < |t| && (i == -1 || j < i) ==> t[j].0 != k
  {
    if t == [] then -1
    else if t[0].0 == k then 0
    else
      var j := KeyIndex(t[1..], k);
      if j == -1 then -1 else j + 1
  }

  /** Map.get */
  function Lookup(t: Table, k: string): Option<string> {
    var i := KeyIndex(t, k);
    if i == -1 then None else Some(t[i].1)
  }

  /** Map.put: a present key keeps its place and takes the new value, a new key is added. */
  function Put(t: Table, k: string, v: string): Table {
    var i := KeyIndex(t, k);
    if i == -1 then t + [(k, v)] else t[i := (k, v)]
  }

  /** After a put the key maps to the new value, every other key to what it did, and no key appears twice. */
  lemma PutSpec(t: Table, k: string, v: string)
    ensures Lookup(Put(t, k, v), k) == Some(v)
    ensures forall k' :: k' != k ==> Lookup(Put(t, k, v), k') == Lookup(t, k')
    ensures Keys(Put(t, k, v)) == Keys(t) + {k}
    ensures UniqueKeys(t) ==> UniqueKeys(Put(t, k, v))
  {
    var i := KeyIndex(t, k);
    var r := Put(t, k, v);
    if i == -1 {
      forall k' | k' != k ensures KeyIndex(r, k') == KeyIndex(t, k') {
        KeyIndexAppend(t, k', k, v);
      }
      assert r[|t|].0 == k;
      KeysAppend(t, (k, v));
    } else {
      assert forall j :: 0 <= j < |t| ==> r[j].0 == t[j].0;
      forall k' ensures KeyIndex(r, k') == KeyIndex(t, k') {
        KeyIndexSameKeys(r, t, k');
      }
      KeysSameKeys(r, t);
      assert t[i] in t;
    }
  }

  function Keys(t: Table): set<string> {
    set e | e in t :: e.0
  }

  lemma KeysAppend(t: Table, e: (string, string))
    ensures Keys(t + [e]) == Keys(t) + {e.0}
  {
    assert forall x :: x in t + [e] <==> x in t || x == e;
  }

  lemma KeysSameKeys(t: Table, u: Table)
    requires |t| == |u| && forall j :: 0 <= j < |t| ==> t[j].0 == u[j].0
    ensures Keys(t) == Keys(u)
  {
    forall k | k in Keys(t) ensures k in Keys(u) {
      var e :| e in t && e.0 == k;
      var j :| 0 <= j < |t| && t[j] == e;
      assert u[j] in u;
    }
    forall k | k in Keys(u) ensures k in Keys(t) {
      var e :| e in u && e.0 == k;
      var j :| 0 <= j < |u| && u[j] == e;
      assert t[j] in t;
    }
  }

  lemma {:induction false} KeyIndexSameKeys(t: Table, u: Table, k: string)
    requires |t| == |u| && forall j :: 0 <= j < |t| ==> t[j].0 == u[j].0
    ensures KeyIndex(t, k) == KeyIndex(u, k)
  {
    if t != [] {
      KeyIndexSameKeys(t[1..], u[1..], k);
    }
  }

  lemma {:induction false} KeyIndexAppend(t: Table, k: string, k2: string, v: string)
    requires k != k2
    ensures KeyIndex(t + [(k2, v)], k) == KeyIndex(t, k)
  {
    if t != [] {
      assert (t + [(k2, v)])[1..] == t[1..] + [(k2, v)];
      KeyIndexAppend(t[1..], k, k2, v);
    }
  }

  /** Map.putAll: the entries put in order. */
  function PutAll(t: Table, entries: Table): Table {
    if entries == [] then t
    else Put(PutAll(t, entries[..|entries| - 1]), entries[|entries| - 1].0, entries[|entries| - 1].1)
  }

  // ---- the text steps of both passes ----

  /**
    Removes front matter: a text starting with "---" loses everything up to
    the end of the next "---" found from index 1 on; with no such "---",
    indexOf gives -1 and the text loses its first two characters.
   */
  function StripFrontMatter(s: string): string {
    if StartsWith(s, FrontMatterDelimiter) then s[IndexOf(s, FrontMatterDelimiter, 1) + 3..] else s
  }

  /** Every variable of the table, in table order, replaced by its value in a single scan each. */
  function Substitute(s: string, t: Table): string
    decreases |t|
  {
    if t == [] then s else Substitute(ReplaceAll(s, Token(t[0].0), t[0].1), t[1..])
  }

  /** Pass 1 on one page: appendix, links to the source tree, front matter, then the link variables only. */
  function Pass1Text(p: Page, links: Table, resources: Resources): string {
    var injected := ReplaceAll(p.text, AppendixToken, AppendixOf(p.path, resources));
    var relinked := ReplaceAll(injected, GithubTree, DocLink);
    Substitute(StripFrontMatter(relinked), links)
  }

  /** Pass 2 preparation: the same steps as pass 1, but front matter goes first. */
  function Pass2Prepared(p: Page, resources: Resources): string {
    var stripped := StripFrontMatter(p.text);
    var injected := ReplaceAll(stripped, AppendixToken, AppendixOf(p.path, resources));
    ReplaceAll(injected, GithubTree, DocLink)
  }

  /** Pass 2 on one page: every variable of the combined table. */
  function Pass2Text(p: Page, vars: Table, resources: Resources): string {
    Substitute(Pass2Prepared(p, resources), vars)
  }

  /** The table before any page is read: a copy of the link table and toc.md mapped to "". */
  function InitialTable(links: Table): Table {
    Put(PutAll([], links), TocKey, "")
  }

  /** The table after pass 1 has put the pages, in walk order, each under its path. */
  function PutPages(t: Table, pages: seq<Page>, links: Table, resources: Resources): Table {
    if pages == [] then t
    else
      var last := pages[|pages| - 1];
      Put(PutPages(t, pages[..|pages| - 1], links, resources), last.path, Pass1Text(last, links, resources))
  }

  lemma PutPagesSnoc(t: Table, pages: seq<Page>, i: nat, links: Table, resources: Resources)
    requires i < |pages|
    ensures PutPages(t, pages[..i + 1], links, resources) ==
      Put(PutPages(t, pages[..i], links, resources), pages[i].path, Pass1Text(pages[i], links, resources))
  {
    assert pages[..i + 1][..i] == pages[..i];
  }

  function Pass1Table(pages: seq<Page>, links: Table, resources: Resources): Table {
    PutPages(InitialTable(links), pages, links, resources)
  }

  // ---- the imperative code ----

  /** The loop over a table's entries that replaces each variable's placeholder by its value. */
  method ReplaceVariables(text: string, table: Table) returns (main: string)
    ensures main == Substitute(text, table)
  {
    main := text;
    var i := 0;
    while i < |table|
      invariant 0 <= i <= |table|
      invariant Substitute(main, table[i..]) == Substitute(text, table)
    {
      assert table[i..][1..] == table[i + 1..];
      main := ReplaceAll(main, Token(table[i].0), table[i].1);
      i := i + 1;
    }
  }

  /** The body of the first loop of process: one page's text with its link variables replaced. */
  method ResolveLinks(page: Page, links: Table, resources: Resources) returns (main: string)
    ensures main == Pass1Text(page, links, resources)
  {
    main := page.text;
    var appendix := AppendixOf(page.path, resources);
    main := ReplaceAll(main, AppendixToken, appendix);
    main := ReplaceAll(main, GithubTree, DocLink);
    if StartsWith(main, FrontMatterDelimiter) {
      main := main[IndexOf(main, FrontMatterDelimiter, 1) + 3..];
    }
    main := ReplaceVariables(main, links);
  }

  /** The body of the second loop of process: one page's text re-read and every variable replaced. */
  method ResolveAll(page: Page, vars: Table, resources: Resources) returns (main: string)
    ensures main == Pass2Text(page, vars, resources)
  {
    main := page.text;
    if StartsWith(main, FrontMatterDelimiter) {
      main := main[IndexOf(main, FrontMatterDelimiter, 1) + 3..];
    }
    var appendix := AppendixOf(page.path, resources);
    main := ReplaceAll(main, AppendixToken, appendix);
    main := ReplaceAll(main, GithubTree, DocLink);
    main := ReplaceVariables(main, vars);
  }

  /** Pass 1 of process ("collect vars"): the link table, toc.md, then every page under its path. */
  method CollectVariables(pages: seq<Page>, links: Table, resources: Resources) returns (vars: Table)
    ensures vars == Pass1Table(pages, links, resources)
  {
    vars := PutAll([], links);
    vars := Put(vars, TocKey, "");
    var i := 0;
    while i < |pages|
      invariant 0 <= i <= |pages|
      invariant vars == PutPages(InitialTable(links), pages[..i], links, resources)
    {
      var main := ResolveLinks(pages[i], links, resources);
      PutPagesSnoc(InitialTable(links), pages, i, links, resources);
      vars := Put(vars, pages[i].path, main);
      i := i + 1;
    }
    assert pages[..i] == pages;
  }

  /** Pass 2 over the pages, in walk order: each page keeps its path and gets its resolved text. */
  function Pass2Pages(pages: seq<Page>, vars: Table, resources: Resources): seq<Page> {
    MapText(pages, p => Pass2Text(p, vars, resources))
  }

  lemma Pass2PagesSnoc(pages: seq<Page>, i: nat, vars: Table, resources: Resources)
    requires i < |pages|
    ensures Pass2Pages(pages[..i + 1], vars, resources) ==
      Pass2Pages(pages[..i], vars, resources) + [Page(pages[i].path, Pass2Text(pages[i], vars, resources))]
  {
    assert pages[..i + 1][..i] == pages[..i];
  }

  /** Pass 2 of process ("replace content"): every page resolved against the full table, iterated in the given order. */
  method ReplaceContent(pages: seq<Page>, vars: Table, resources: Resources) returns (resolved: seq<Page>)
    ensures resolved == Pass2Pages(pages, vars, resources)
  {
    resolved := [];
    var i := 0;
    while i < |pages|
      invariant 0 <= i <= |pages|
      invariant resolved == Pass2Pages(pages[..i], vars, resources)
    {
      var main := ResolveAll(pages[i], vars, resources);
      Pass2PagesSnoc(pages, i, vars, resources);
      resolved := resolved + [Page(pages[i].path, main)];
      i := i + 1;
    }
    assert pages[..i] == pages;
  }

  /** Each page, keeping its path, with its text given by `f`. */
  function MapText(pages: seq<Page>, f: Page -> string): seq<Page> {
    if pages == [] then []
    else MapText(pages[..|pages| - 1], f) + [Page(pages[|pages| - 1].path, f(pages[|pages| - 1]))]
  }

  lemma {:induction false} MapTextAt(pages: seq<Page>, f: Page -> string, i: nat)
    requires i < |pages|
    ensures |MapText(pages, f)| == |pages|
    ensures MapText(pages, f)[i] == Page(pages[i].path, f(pages[i]))
    decreases |pages|
  {
    var n := |pages| - 1;
    if i < n {
      MapTextAt(pages[..n], f, i);
    } else if n > 0 {
      MapTextAt(pages[..n], f, 0);
    }
  }

  /** Pass 2 resolves every page on its own: the i-th result is the i-th page, resolved. */
  lemma Pass2PagesAt(pages: seq<Page>, vars: Table, resources: Resources, i: nat)
    requires i < |pages|
    ensures |Pass2Pages(pages, vars, resources)| == |pages|
    ensures Pass2Pages(pages, vars, resources)[i] == Page(pages[i].path, Pass2Text(pages[i], vars, resources))
  {
    MapTextAt(pages, p => Pass2Text(p, vars, resources), i);
  }

  /**
    JoobySiteGenerator.process over the pages found by the walk, in walk
    order: pass 1 builds the variable table, pass 2 gives each page its
    resolved text. Pass 2 iterates the table as a HashMap does, in an order
    that depends on the hashes of its keys; `iteration` is that order: each
    entry of the table exactly once, and nothing else.
   */
  method Process(pages: seq<Page>, links: Table, resources: Resources, iteration: Table)
    returns (vars: Table, resolved: seq<Page>)
    requires UniqueKeys(links)
    requires UniqueKeys(iteration)
    requires forall k :: Lookup(iteration, k) == Lookup(Pass1Table(pages, links, resources), k)
    ensures vars == Pass1Table(pages, links, resources)
    ensures resolved == Pass2Pages(pages, iteration, resources)
  {
    vars := CollectVariables(pages, links, resources);
    resolved := ReplaceContent(pages, iteration, resources);
  }

  // ---- properties ----

  /** A key is in the table exactly when looking it up finds a value. */
  lemma KeysByLookup(t: Table, k: string)
    ensures k in Keys(t) <==> Lookup(t, k).Some?
  {
    if KeyIndex(t, k) != -1 {
      assert t[KeyIndex(t, k)] in t;
    }
    if k in Keys(t) {
      var j :| 0 <= j < |t| && t[j].0 == k;
    }
  }

  /** Two tables with the same lookups have the same keys. */
  lemma SameLookupsSameKeys(t: Table, u: Table)
    requires forall k :: Lookup(u, k) == Lookup(t, k)
    ensures Keys(u) == Keys(t)
  {
    forall k ensures k in Keys(u) <==> k in Keys(t) {
      KeysByLookup(u, k);
      KeysByLookup(t, k);
    }
  }

  /**
    Whatever order pass 2 iterates the table in, it sees the keys and values
    pass 1 left: the link keys, toc.md and the page paths, each page path
    with the pass-1 text of the last page walked under it.
   */
  lemma Pass2TableContents(pages: seq<Page>, links: Table, resources: Resources, iteration: Table)
    requires forall k :: Lookup(iteration, k) == Lookup(Pass1Table(pages, links, resources), k)
    ensures Keys(iteration) == Keys(links) + {TocKey} + Paths(pages)
    ensures forall i :: 0 <= i < |pages| && (forall j :: i < j < |pages| ==> pages[j].path != pages[i].path) ==>
      Lookup(iteration, pages[i].path) == Some(Pass1Text(pages[i], links, resources))
  {
    SameLookupsSameKeys(Pass1Table(pages, links, resources), iteration);
    Pass1TableContents(pages, links, resources);
  }


  /**
    Front matter: a text not starting with "---" is kept; one that does
    becomes the suffix after the first "---" found at index 1 or later, or,
    when there is none, the suffix from index 2.
   */
  lemma StripFrontMatterSpec(s: string)
    ensures !StartsWith(s, "---") ==> StripFrontMatter(s) == s
    ensures StartsWith(s, "---") ==>
      forall i :: 1 <= i && OccursAt(s, "---", i) && (forall j :: 1 <= j < i ==> !OccursAt(s, "---", j)) ==>
        StripFrontMatter(s) == s[i + 3..]
    ensures StartsWith(s, "---") && (forall i :: 1 <= i ==> !OccursAt(s, "---", i)) ==>
      StripFrontMatter(s) == s[2..]
  {
    if StartsWith(s, "---") {
      var k := IndexOf(s, "---", 1);
      forall i | 1 <= i && OccursAt(s, "---", i) && (forall j :: 1 <= j < i ==> !OccursAt(s, "---", j))
        ensures k == i
      {
      }
    }
  }

  /** A placeholder can only occur where "{{" does. */
  lemma TokenNeedsBraces(s: string, key: string)
    requires !Occurs(s, "{{")
    ensures !Occurs(s, Token(key))
  {
    forall i | 0 <= i <= |s| ensures !OccursAt(s, Token(key), i) {
      if OccursAt(s, Token(key), i) {
        assert s[i..i + 2] == s[i..i + |Token(key)|][..2] == "{{";
        assert OccursAt(s, "{{", i);
      }
    }
  }

  /** Substitution leaves a text alone when none of the table's placeholders occurs in it at any step. */
  lemma {:induction false} SubstituteWithoutBraces(s: string, t: Table)
    requires !Occurs(s, "{{")
    ensures Substitute(s, t) == s
  {
    if t != [] {
      TokenNeedsBraces(s, t[0].0);
      ReplaceAllAbsent(s, Token(t[0].0), t[0].1);
      SubstituteWithoutBraces(s, t[1..]);
    }
  }

  /** Substitution leaves a text alone when the text holds no placeholder of the table and no value brings one in. */
  lemma {:induction false} SubstituteAbsent(s: string, t: Table)
    requires forall e :: e in t ==> !Occurs(s, Token(e.0))
    ensures Substitute(s, t) == s
  {
    if t != [] {
      assert t[0] in t;
      ReplaceAllAbsent(s, Token(t[0].0), t[0].1);
      SubstituteAbsent(s, t[1..]);
    }
  }

  /**
    A page without front matter whose prepared text has no "{{" comes out of
    pass 2 as its text with the appendix injected and the source links
    rewritten, whatever the table.
   */
  lemma Pass2PlainPage(p: Page, vars: Table, resources: Resources)
    requires !StartsWith(p.text, "---")
    requires !Occurs(Pass2Prepared(p, resources), "{{")
    ensures Pass2Text(p, vars, resources) ==
      ReplaceAll(ReplaceAll(p.text, AppendixToken, AppendixOf(p.path, resources)), GithubTree, DocLink)
  {
    SubstituteWithoutBraces(Pass2Prepared(p, resources), vars);
  }

  /** The paths of the pages. */
  function Paths(pages: seq<Page>): set<string> {
    set p | p in pages :: p.path
  }

  lemma {:induction false} PutAllKeys(t: Table, entries: Table)
    ensures UniqueKeys(t) ==> UniqueKeys(PutAll(t, entries))
    ensures Keys(PutAll(t, entries)) == Keys(t) + Keys(entries)
    decreases |entries|
  {
    if entries != [] {
      var init := entries[..|entries| - 1];
      var last := entries[|entries| - 1];
      PutAllKeys(t, init);
      PutSpec(PutAll(t, init), last.0, last.1);
      assert entries == init + [last];
      KeysAppend(init, last);
    }
  }

  lemma {:induction false} PutAllOther(t: Table, entries: Table, k: string)
    requires k !in Keys(entries)
    ensures Lookup(PutAll(t, entries), k) == Lookup(t, k)
    decreases |entries|
  {
    if entries != [] {
      var init := entries[..|entries| - 1];
      var last := entries[|entries| - 1];
      assert entries == init + [last];
      KeysAppend(init, last);
      PutAllOther(t, init, k);
      PutSpec(PutAll(t, init), last.0, last.1);
    }
  }

  lemma {:induction false} PutAllLast(t: Table, entries: Table, n: nat)
    requires UniqueKeys(entries) && n < |entries|
    ensures Lookup(PutAll(t, entries), entries[n].0) == Some(entries[n].1)
    decreases |entries|
  {
    var init := entries[..|entries| - 1];
    var last := entries[|entries| - 1];
    PutSpec(PutAll(t, init), last.0, last.1);
    if n < |init| {
      assert init[n] == entries[n];
      assert UniqueKeys(init);
      PutAllLast(t, init, n);
    }
  }

  /**
    Map.putAll: the keys are added, a key not put keeps its value, and with
    distinct keys every put key maps to its value.
   */
  lemma PutAllContents(t: Table, entries: Table)
    ensures UniqueKeys(t) ==> UniqueKeys(PutAll(t, entries))
    ensures Keys(PutAll(t, entries)) == Keys(t) + Keys(entries)
    ensures forall k :: k !in Keys(entries) ==> Lookup(PutAll(t, entries), k) == Lookup(t, k)
    ensures UniqueKeys(entries) ==>
      forall n :: 0 <= n < |entries| ==> Lookup(PutAll(t, entries), entries[n].0) == Some(entries[n].1)
  {
    PutAllKeys(t, entries);
    forall k | k !in Keys(entries) ensures Lookup(PutAll(t, entries), k) == Lookup(t, k) {
      PutAllOther(t, entries, k);
    }
    if UniqueKeys(entries) {
      forall n | 0 <= n < |entries| ensures Lookup(PutAll(t, entries), entries[n].0) == Some(entries[n].1) {
        PutAllLast(t, entries, n);
      }
    }
  }

  lemma PathsSnoc(pages: seq<Page>)
    requires pages != []
    ensures Paths(pages) == Paths(pages[..|pages| - 1]) + {pages[|pages| - 1].path}
  {
    var init := pages[..|pages| - 1];
    assert pages == init + [pages[|pages| - 1]];
    assert forall p :: p in pages <==> p in init || p == pages[|pages| - 1];
  }

  /** Putting the pages adds exactly their paths as keys, each once. */
  lemma {:induction false} PutPagesKeys(t: Table, pages: seq<Page>, links: Table, resources: Resources)
    ensures UniqueKeys(t) ==> UniqueKeys(PutPages(t, pages, links, resources))
    ensures Keys(PutPages(t, pages, links, resources)) == Keys(t) + Paths(pages)
  {
    if pages != [] {
      var init := pages[..|pages| - 1];
      var last := pages[|pages| - 1];
      PutPagesKeys(t, init, links, resources);
      PutSpec(PutPages(t, init, links, resources), last.path, Pass1Text(last, links, resources));
      PathsSnoc(pages);
    }
  }

  /** A key that is no page path keeps its entry. */
  lemma {:induction false} PutPagesOther(t: Table, pages: seq<Page>, links: Table, resources: Resources, k: string)
    requires k !in Paths(pages)
    ensures Lookup(PutPages(t, pages, links, resources), k) == Lookup(t, k)
  {
    if pages != [] {
      var init := pages[..|pages| - 1];
      var last := pages[|pages| - 1];
      PathsSnoc(pages);
      PutPagesOther(t, init, links, resources, k);
      PutSpec(PutPages(t, init, links, resources), last.path, Pass1Text(last, links, resources));
    }
  }

  /** A page path maps to the pass-1 text of the last page walked under it. */
  lemma {:induction false} PutPagesLast(t: Table, pages: seq<Page>, links: Table, resources: Resources, i: nat)
    requires i < |pages|
    requires forall j :: i < j < |pages| ==> pages[j].path != pages[i].path
    ensures Lookup(PutPages(t, pages, links, resources), pages[i].path) == Some(Pass1Text(pages[i], links, resources))
  {
    var init := pages[..|pages| - 1];
    var last := pages[|pages| - 1];
    PutSpec(PutPages(t, init, links, resources), last.path, Pass1Text(last, links, resources));
    if i < |pages| - 1 {
      assert init[i] == pages[i];
      PutPagesLast(t, init, links, resources, i);
    }
  }

  /**
    The table pass 2 works with: its keys are exactly the link keys, toc.md
    and the page paths, each once; a page's path maps to the pass-1 text of
    the last page walked under that path; toc.md maps to "" unless a page is
    itself called toc.md; a link key that no page path shadows keeps its link.
   */
  lemma Pass1TableContents(pages: seq<Page>, links: Table, resources: Resources)
    ensures UniqueKeys(Pass1Table(pages, links, resources))
    ensures Keys(Pass1Table(pages, links, resources)) == Keys(links) + {TocKey} + Paths(pages)
    ensures forall i :: 0 <= i < |pages| && (forall j :: i < j < |pages| ==> pages[j].path != pages[i].path) ==>
      Lookup(Pass1Table(pages, links, resources), pages[i].path) == Some(Pass1Text(pages[i], links, resources))
    ensures TocKey !in Paths(pages) ==> Lookup(Pass1Table(pages, links, resources), TocKey) == Some("")
    ensures UniqueKeys(links) ==>
      forall n :: 0 <= n < |links| && links[n].0 != TocKey && links[n].0 !in Paths(pages) ==>
        Lookup(Pass1Table(pages, links, resources), links[n].0) == Some(links[n].1)
  {
    var empty: Table := [];
    assert UniqueKeys(empty);
    assert Keys(empty) == {};
    PutAllContents(empty, links);
    PutSpec(PutAll(empty, links), TocKey, "");
    PutPagesKeys(InitialTable(links), pages, links, resources);
    forall i | 0 <= i < |pages| && (forall j :: i < j < |pages| ==> pages[j].path != pages[i].path)
      ensures Lookup(Pass1Table(pages, links, resources), pages[i].path) == Some(Pass1Text(pages[i], links, resources))
    {
      PutPagesLast(InitialTable(links), pages, links, resources, i);
    }
    if TocKey !in Paths(pages) {
      PutPagesOther(InitialTable(links), pages, links, resources, TocKey);
    }
    if UniqueKeys(links) {
      forall n | 0 <= n < |links| && links[n].0 != TocKey && links[n].0 !in Paths(pages)
        ensures Lookup(Pass1Table(pages, links, resources), links[n].0) == Some(links[n].1)
      {
        PutPagesOther(InitialTable(links), pages, links, resources, links[n].0);
      }
    }
  }

  lemma SubstituteStep(s: string, k: string, v: string, rest: Table)
    ensures Substitute(s, [(k, v)] + rest) == Substitute(ReplaceAll(s, Token(k), v), rest)
  {
    assert ([(k, v)] + rest)[1..] == rest;
  }

  /** A pattern replaced where it is the whole text leaves just the replacement. */
  lemma ReplaceAllWhole(p: string, r: string)
    requires p != []
    ensures ReplaceAll(p, p, r) == r
  {
    assert p[|p|..] == [];
  }

  /** A pattern holding a character the text lacks does not occur in it. */
  lemma MissingChar(s: string, p: string, k: nat)
    requires k < |p| && forall j :: 0 <= j < |s| ==> s[j] != p[k]
    ensures !Occurs(s, p)
  {
    forall i | 0 <= i <= |s| ensures !OccursAt(s, p, i) {
      if i + |p| <= |s| {
        assert s[i..i + |p|][k] == s[i + k];
      }
    }
  }

  /** Pass 2 depends on the order of the table: a later key scans what an earlier one inserted. */
  lemma SubstitutionOrderMatters()
    ensures Substitute("{{a.md}}", [("a.md", "{{x}}"), ("x", "X")]) == "X"
    ensures Substitute("{{a.md}}", [("x", "X"), ("a.md", "{{x}}")]) == "{{x}}"
  {
    var page, x := "{{a.md}}", "{{x}}";
    assert Token("a.md") == page && Token("x") == x;
    assert Substitute(page, [("a.md", x), ("x", "X")]) == "X" by {
      SubstituteStep(page, "a.md", x, [("x", "X")]);
      SubstituteStep(x, "x", "X", []);
      ReplaceAllWhole(page, x);
      ReplaceAllWhole(x, "X");
      assert [("a.md", x), ("x", "X")] == [("a.md", x)] + [("x", "X")];
      assert [("x", "X")] == [("x", "X")] + [];
    }
    assert Substitute(page, [("x", "X"), ("a.md", x)]) == x by {
      SubstituteStep(page, "x", "X", [("a.md", x)]);
      SubstituteStep(page, "a.md", x, []);
      MissingChar(page, x, 2);
      ReplaceAllAbsent(page, x, "X");
      ReplaceAllWhole(page, x);
      assert [("x", "X"), ("a.md", x)] == [("x", "X")] + [("a.md", x)];
      assert [("a.md", x)] == [("a.md", x)] + [];
    }
  }
}
