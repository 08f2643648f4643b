/**
  JoobySiteGenerator.markdownToHtml: after the Markdown renderer has turned a
  page into HTML, headings are shifted one level down, every h2 becomes a
  collapsible "datalist" section holding the elements up to the next h2, and
  a table of contents and a page title are built alongside.

  The document body is modelled as the flat sequence of its top-level
  elements, as the renderer produces them.
 */
module Sections {
  import opened Wrappers
  import opened Strings
  import opened Slug

  /**
    An element's tag: a heading h1, h2, ... by its level, a div, or any other
    tag by its name. Headings and divs are always written with `H` and `Div`:
    an `Other` never names "div" or a heading, just as an HTML parser gives
    every h2 the one tag name "h2".
   */
  datatype Tag = H(level: nat) | Div | Other(name: string)

  /**
    A top-level element of the body: its tag, its id and class attributes
    (None when absent), its text and its inner HTML.
   */
  datatype Element = Element(tag: Tag, id: Option<string>, cls: Option<string>, text: string, inner: string)

  /** An h2 together with the elements that follow it up to the next h2. */
  datatype Section = Section(heading: Element, content: seq<Element>)

  function DecimalString(n: nat): (r: string)
    ensures r != []
  {
    if n < 10 then [('0' as int + n) as char] else DecimalString(n / 10) + [('0' as int + n % 10) as char]
  }

  function TagName(t: Tag): string {
    match t
    case H(level) => "h" + DecimalString(level)
    case Div => "div"
    case Other(name) => name
  }

  /** An attribute as written in a start tag. */
  function Attribute(name: string, value: Option<string>): string {
    match value
    case None => ""
    case Some(v) => " " + name + "=\"" + v + "\""
  }

  /** The outer HTML of an element: class first, then id, as Jsoup writes attributes in insertion order. */
  function Outer(e: Element): string {
    "<" + TagName(e.tag) + Attribute("class", e.cls) + Attribute("id", e.id) + ">" + e.inner + "</" + TagName(e.tag) + ">"
  }

  /** The HTML of the body: the outer HTML of every top-level element, one per line. */
  function BodyHtml(body: seq<Element>): string {
    Join(seq(|body|, i requires 0 <= i < |body| => Outer(body[i])), "\n")
  }

  // ---- the two pre-edits ----

  /** The edits made to the Markdown text before it is rendered, chosen by the page's path. */
  function PreEdit(filename: string, text: string): string {
    if filename == "quickstart/index.md" then ReplaceFirst(text, "quickstart", "start")
    else if filename == "doc/index.md" then ReplaceFirst(text, "documentation\n=====", "")
    else text
  }

  // ---- heading shift ----

  /** A fresh heading that keeps only the text of the one it replaces. */
  function NewHeading(level: nat, text: string): Element {
    Element(H(level), None, None, text, text)
  }

  /** One element seen by the replacement of the h`level` headings by h`level+1` ones. */
  function ResetOne(e: Element, level: nat): Element {
    if e.tag == H(level) then NewHeading(level + 1, e.text) else e
  }

  function ResetAll(body: seq<Element>, level: nat): (r: seq<Element>)
    ensures |r| == |body|
  {
    seq(|body|, i requires 0 <= i < |body| => ResetOne(body[i], level))
  }

  /** The body after the heading shift: h4, h3, h2 and h1 in that order, except on the site's index.md. */
  function Shifted(filename: string, body: seq<Element>): seq<Element> {
    if filename == "index.md" then body
    else ResetAll(ResetAll(ResetAll(ResetAll(body, 4), 3), 2), 1)
  }

  /** The intended outcome of the shift on one element: h1-h4 one level deeper with only their text, others untouched. */
  function ShiftOnce(e: Element): Element {
    if e.tag == H(1) then Element(H(2), None, None, e.text, e.text)
    else if e.tag == H(2) then Element(H(3), None, None, e.text, e.text)
    else if e.tag == H(3) then Element(H(4), None, None, e.text, e.text)
    else if e.tag == H(4) then Element(H(5), None, None, e.text, e.text)
    else e
  }

  /** The replacement loop for one level: every h`level` of the body, in place. */
  method ResetLevel(body: seq<Element>, level: nat) returns (r: seq<Element>)
    ensures r == ResetAll(body, level)
  {
    r := body;
    var i := 0;
    while i < |r|
      invariant 0 <= i <= |r| && |r| == |body|
      invariant forall m :: 0 <= m < i ==> r[m] == ResetOne(body[m], level)
      invariant forall m :: i <= m < |r| ==> r[m] == body[m]
    {
      if r[i].tag == H(level) {
        r := r[i := NewHeading(level + 1, r[i].text)];
      }
      i := i + 1;
    }
  }

  // ---- sectioning ----

  /** The index of the first h2 of `s`, or |s| when there is none. */
  function SpanEnd(s: seq<Element>): (j: nat)
    ensures j <= |s|
    ensures j < |s| ==> s[j].tag == H(2)
    ensures forall m :: 0 <= m < j ==> s[m].tag != H(2)
  {
    if s == [] || s[0].tag == H(2) then 0 else 1 + SpanEnd(s[1..])
  }

  /** The sections of a body that starts at an h2: each h2 with the siblings up to the next h2. */
  function SplitSections(s: seq<Element>): seq<Section>
    decreases |s|
  {
    if s == [] then []
    else
      var j := 1 + SpanEnd(s[1..]);
      [Section(s[0], s[1..j])] + SplitSections(s[j..])
  }

  /** The elements before the first h2, which stay where they are. */
  function Prefix(body: seq<Element>): seq<Element> {
    body[..SpanEnd(body)]
  }

  function Sections(body: seq<Element>): seq<Section> {
    SplitSections(body[SpanEnd(body)..])
  }

  /** The sections laid out again, each h2 followed by its content. */
  function Flatten(secs: seq<Section>): seq<Element> {
    if secs == [] then [] else [secs[0].heading] + secs[0].content + Flatten(secs[1..])
  }

  /** The class of the first section's title and table-of-contents entry. */
  function Active(k: nat): string {
    if k == 0 then "active" else ""
  }

  /** An h3 inside the section with id `sid` takes the id sid-id(text); other elements are kept as they are. */
  function Renamed(sid: string, e: Element): Element {
    if e.tag == H(3) then e.(id := Some(sid + "-" + Id(e.text))) else e
  }

  /** An entry of a section's nested table of contents. */
  function SubTocItem(href: string, text: string): string {
    "\n<li>\n<a href=\"#" + href + "\">" + text + "</a></li>"
  }

  /** The nested table-of-contents entry of an element of a section: only h3s have one. */
  function SubTocEntry(sid: string, e: Element): string {
    if e.tag == H(3) then SubTocItem(sid + "-" + Id(e.text), e.text) else ""
  }

  /** The nested table of contents of a section: one entry per h3. */
  function SubToc(sid: string, content: seq<Element>): string {
    ConcatMap(content, e => SubTocEntry(sid, e))
  }

  function ConcatMap(c: seq<Element>, f: Element -> string): string {
    if c == [] then "" else ConcatMap(c[..|c| - 1], f) + f(c[|c| - 1])
  }

  lemma ConcatMapSnoc(c: seq<Element>, f: Element -> string, j: nat)
    requires j < |c|
    ensures ConcatMap(c[..j + 1], f) == ConcatMap(c[..j], f) + f(c[j])
  {
    assert c[..j + 1][..j] == c[..j];
  }

  /** The HTML of a section's content, h3s renamed. */
  function ContentHtml(sid: string, content: seq<Element>): string {
    ConcatMap(content, e => Outer(Renamed(sid, e)))
  }

  /** The title part of a section: the class carries `active`, the h2 is kept as it is. */
  function TitleDiv(active: string, h2: Element): string {
    "<div class=\"datalist-title " + active + "\">\n" + Outer(h2) + "\n</div>\n"
  }

  function ContentDiv(content: string): string {
    "<div class=\"datalist-content\">\n" + content + "</div>\n"
  }

  /** The inner HTML of the k-th section's div. */
  function SectionHtml(s: Section, k: nat): string {
    TitleDiv(Active(k), s.heading) + ContentDiv(ContentHtml(Id(s.heading.text), s.content))
  }

  /** The div that replaces the k-th h2; its text is never read again. */
  function SectionElement(s: Section, k: nat): Element {
    Element(Div, Some(Id(s.heading.text)), Some("datalist"), "", SectionHtml(s, k))
  }

  function SectionElements(secs: seq<Section>): (r: seq<Element>)
    ensures |r| == |secs|
  {
    Numbered(secs, SectionElement)
  }

  /** `f` applied to each section and its position. */
  function Numbered(secs: seq<Section>, f: (Section, nat) -> Element): (r: seq<Element>)
    ensures |r| == |secs|
  {
    seq(|secs|, k requires 0 <= k < |secs| => f(secs[k], k))
  }

  /** The body once every section has been built: what came before the first h2, then one div per h2. */
  function Rendered(body: seq<Element>): seq<Element> {
    Prefix(body) + SectionElements(Sections(body))
  }

  function TocLink(active: string, sid: string, header: string): string {
    "\n<li class=\"" + active + "\">\n<a href=\"#" + sid + "\">" + header + "</a>"
  }

  /** The nested list of a table-of-contents entry, only when there is something to list. */
  function Nested(subtoc: string): string {
    if |subtoc| > 0 then "<ul>" + subtoc + "</ul>" else ""
  }

  /** The table-of-contents entry of the k-th section. */
  function TocEntry(s: Section, k: nat): string {
    var sid := Id(s.heading.text);
    TocLink(Active(k), sid, s.heading.text) + Nested(SubToc(sid, s.content)) + "</li>"
  }

  /** The table of contents as far as `secs` goes: the opening tag, then one entry per section. */
  function TocSoFar(secs: seq<Section>): string {
    if secs == [] then "<ul>" else TocSoFar(secs[..|secs| - 1]) + TocEntry(secs[|secs| - 1], |secs| - 1)
  }

  function TocHtml(secs: seq<Section>): string {
    TocSoFar(secs) + "\n</ul>"
  }

  /** The page header: the text of the first h2, or null. */
  function Title(secs: seq<Section>): Option<string> {
    if secs == [] then None else Some(secs[0].heading.text)
  }

  // ---- the imperative code ----

  lemma TocSoFarSnoc(secs: seq<Section>, n: nat)
    requires n < |secs|
    ensures TocSoFar(secs[..n + 1]) == TocSoFar(secs[..n]) + TocEntry(secs[n], n)
  {
    assert secs[..n + 1][..n] == secs[..n];
  }

  lemma SectionElementsSnoc(secs: seq<Section>, n: nat)
    requires n < |secs|
    ensures SectionElements(secs[..n + 1]) == SectionElements(secs[..n]) + [SectionElement(secs[n], n)]
  {
    NumberedSnoc(secs, SectionElement, n);
  }

  lemma NumberedSnoc(secs: seq<Section>, f: (Section, nat) -> Element, n: nat)
    requires n < |secs|
    ensures Numbered(secs[..n + 1], f) == Numbered(secs[..n], f) + [f(secs[n], n)]
  {
    assert Numbered(secs[..n + 1], f)[n] == f(secs[n], n);
  }

  lemma DetachStep(siblings: seq<Element>, sid: string, j: nat)
    requires j < |siblings|
    ensures ContentHtml(sid, siblings[..j + 1]) == ContentHtml(sid, siblings[..j]) + Outer(Renamed(sid, siblings[j]))
    ensures SubToc(sid, siblings[..j + 1]) == SubToc(sid, siblings[..j]) + SubTocEntry(sid, siblings[j])
  {
    ConcatMapSnoc(siblings, e => Outer(Renamed(sid, e)), j);
    ConcatMapSnoc(siblings, e => SubTocEntry(sid, e), j);
  }

  /** The body of the sibling loop for one element: an h3 is renamed and listed, then the element's HTML is taken. */
  method DetachOne(sibling: Element, sid: string) returns (html: string, entry: string)
    ensures html == Outer(Renamed(sid, sibling)) && entry == SubTocEntry(sid, sibling)
  {
    var e := sibling;
    entry := "";
    if sibling.tag == H(3) {
      var anchor := sid + "-" + Id(sibling.text);
      entry := SubTocItem(anchor, sibling.text);
      e := sibling.(id := Some(anchor));
    }
    html := Outer(e);
  }

  /**
    The inner sibling loop over the elements that follow an h2: each one up
    to the next h2 is detached from the front, its HTML appended to the
    section content (h3s first renamed) and each h3 listed in the nested
    table of contents. `rest` is what stays in the document.
   */
  method DetachSiblings(siblings: seq<Element>, sid: string) returns (rest: seq<Element>, html: string, subtoc: string)
    ensures var n := SpanEnd(siblings);
      rest == siblings[n..] && html == ContentHtml(sid, siblings[..n]) && subtoc == SubToc(sid, siblings[..n])
  {
    rest := siblings;
    html := "";
    subtoc := "";
    ghost var j := 0;
    while rest != [] && rest[0].tag != H(2)
      invariant j <= |siblings| && rest == siblings[j..]
      invariant j <= SpanEnd(siblings)
      invariant html == ContentHtml(sid, siblings[..j])
      invariant subtoc == SubToc(sid, siblings[..j])
    {
      var h, entry := DetachOne(rest[0], sid);
      DetachStep(siblings, sid, j);
      html := html + h;
      subtoc := subtoc + entry;
      rest := rest[1..];
      j := j + 1;
    }
    assert SpanEnd(siblings) == j;
  }

  /** The document once the h2 after `done` has been replaced by `x` and its siblings detached. */
  lemma Splice(done: seq<Element>, x: Element, rest: seq<Element>, a: seq<Element>, b: seq<Element>)
    requires done == a + b
    ensures (done + [x] + rest)[..|done| + 1] == a + (b + [x])
    ensures (done + [x] + rest)[|done| + 1..] == rest
  {
    assert (done + [x] + rest)[..|done| + 1] == done + [x];
  }

  lemma SectionAt(secs: seq<Section>, doc: seq<Element>, k: nat, n: nat)
    requires k < |doc| && n <= |secs|
    requires SplitSections(doc[k..]) == secs[n..]
    ensures n < |secs|
    ensures var e := SpanEnd(doc[k + 1..]);
      secs[n] == Section(doc[k], doc[k + 1..][..e]) &&
      SplitSections(doc[k + 1..][e..]) == secs[n + 1..]
  {
    var s := doc[k..];
    assert s[1..] == doc[k + 1..];
    assert secs[n..][1..] == secs[n + 1..];
  }

  lemma TitleSnoc(secs: seq<Section>, n: nat)
    requires n < |secs|
    ensures Title(secs[..n + 1]) == (if Title(secs[..n]).None? then Some(secs[n].heading.text) else Title(secs[..n]))
  {
  }

  /**
    What one turn of the loop over the h2s does to the specification: the
    h2 at `k` opens the n-th section, and the document with that section's
    div in place of the h2 and its siblings meets the loop invariant for n + 1.
   */
  lemma RestructureStep(body: seq<Element>, doc: seq<Element>, k: nat, n: nat)
    requires n <= |Sections(body)| && k == |Prefix(body)| + n && k < |doc|
    requires doc[..k] == Prefix(body) + SectionElements(Sections(body)[..n])
    requires SplitSections(doc[k..]) == Sections(body)[n..]
    ensures n < |Sections(body)|
    ensures var secs, e := Sections(body), SpanEnd(doc[k + 1..]);
      var s := Section(doc[k], doc[k + 1..][..e]);
      var next := doc[..k] + [SectionElement(s, n)] + doc[k + 1..][e..];
      n < |secs| && secs[n] == s &&
      next[..k + 1] == Prefix(body) + SectionElements(secs[..n + 1]) &&
      SplitSections(next[k + 1..]) == secs[n + 1..] &&
      TocSoFar(secs[..n + 1]) == TocSoFar(secs[..n]) + TocEntry(s, n) &&
      Title(secs[..n + 1]) == (if Title(secs[..n]).None? then Some(doc[k].text) else Title(secs[..n]))
  {
    var secs := Sections(body);
    SectionAt(secs, doc, k, n);
    var e := SpanEnd(doc[k + 1..]);
    var s := Section(doc[k], doc[k + 1..][..e]);
    SectionElementsSnoc(secs, n);
    TocSoFarSnoc(secs, n);
    TitleSnoc(secs, n);
    Splice(doc[..k], SectionElement(s, n), doc[k + 1..][e..], Prefix(body), SectionElements(secs[..n]));
  }

  /**
    One turn of the loop over the h2s: the k-th h2 of the body with the
    elements that follow it; gives the div that replaces the h2, the
    table-of-contents entry and the elements left after the section.
   */
  method BuildSection(h2: Element, siblings: seq<Element>, active: string, ghost k: nat)
    returns (section: Element, entry: string, rest: seq<Element>)
    requires active == Active(k)
    ensures var s := Section(h2, siblings[..SpanEnd(siblings)]);
      section == SectionElement(s, k) && entry == TocEntry(s, k) && rest == siblings[SpanEnd(siblings)..]
  {
    var header := h2.text;
    var id := Id(header);
    var html := TitleDiv(active, h2);
    var content, subtoc;
    rest, content, subtoc := DetachSiblings(siblings, id);
    html := html + ContentDiv(content);
    section := Element(Div, Some(id), Some("datalist"), "", html);
    var nested := "";
    if |subtoc| > 0 {
      nested := "<ul>" + subtoc + "</ul>";
    }
    entry := TocLink(active, id, header) + nested + "</li>";
  }

  /** The position of the first h2 of the body, or its length when there is none. */
  method FirstH2(body: seq<Element>) returns (k: nat)
    ensures k == SpanEnd(body)
  {
    k := 0;
    while k < |body| && body[k].tag != H(2)
      invariant k <= |body|
      invariant forall m :: 0 <= m < k ==> body[m].tag != H(2)
    {
      k := k + 1;
    }
  }

  /**
    The loop over the h2s of the body: each h2 is replaced by its section
    div, the table of contents grows by one entry, the first h2 gives the
    title, and only the first section is active.
   */
  method Restructure(body: seq<Element>) returns (doc: seq<Element>, toc: string, title: Option<string>)
    ensures doc == Rendered(body)
    ensures toc == TocHtml(Sections(body))
    ensures title == Title(Sections(body))
  {
    ghost var secs := Sections(body);
    doc := body;
    toc := "<ul>";
    title := None;
    var active := "active";
    var k := FirstH2(doc);
    ghost var n := 0;
    while k < |doc|
      invariant k == |Prefix(body)| + n && k <= |doc| && n <= |secs|
      invariant doc[..k] == Prefix(body) + SectionElements(secs[..n])
      invariant SplitSections(doc[k..]) == secs[n..]
      invariant toc == TocSoFar(secs[..n])
      invariant title == Title(secs[..n])
      invariant active == Active(n)
      decreases |doc| - k
    {
      RestructureStep(body, doc, k, n);
      var h2 := doc[k];
      if title == None {
        title := Some(h2.text);
      }
      var section, entry, rest := BuildSection(h2, doc[k + 1..], active, n);
      toc := toc + entry;
      doc := doc[..k] + [section] + rest;
      active := "";
      k := k + 1;
      n := n + 1;
    }
    assert secs[..n] == secs;
    assert doc == doc[..k];
    toc := toc + "\n</ul>";
  }

  /**
    markdownToHtml for the page at `filename` whose Markdown text is `text`:
    the HTML body, the table of contents and the page header. `render`
    stands for the Markdown renderer and yields the top-level elements of
    the rendered HTML.
   */
  method MarkdownToHtml(filename: string, text: string, render: string -> seq<Element>)
    returns (main: string, toc: string, title: Option<string>)
    ensures var body := Shifted(filename, render(PreEdit(filename, text)));
      main == BodyHtml(Rendered(body)) && toc == TocHtml(Sections(body)) && title == Title(Sections(body))
  {
    var input := text;
    var resetH1 := filename != "index.md";
    if filename == "quickstart/index.md" {
      input := ReplaceFirst(input, "quickstart", "start");
    } else if filename == "doc/index.md" {
      input := ReplaceFirst(input, "documentation\n=====", "");
    }
    var doc := render(input);
    if resetH1 {
      doc := ResetLevel(doc, 4);
      doc := ResetLevel(doc, 3);
      doc := ResetLevel(doc, 2);
      doc := ResetLevel(doc, 1);
    }
    var body;
    body, toc, title := Restructure(doc);
    main := BodyHtml(body);
  }

  // ---- properties ----

  /**
    The four replacement passes shift every h1-h4 exactly one level down and
    keep only its text; h5, h6 and every other element are untouched. The
    site's own index.md is left alone.
   */
  lemma ShiftedSpec(filename: string, body: seq<Element>)
    ensures |Shifted(filename, body)| == |body|
    ensures forall m :: 0 <= m < |body| ==>
      Shifted(filename, body)[m] == if filename == "index.md" then body[m] else ShiftOnce(body[m])
  {
    if filename != "index.md" {
      var b4 := ResetAll(body, 4);
      var b3 := ResetAll(b4, 3);
      var b2 := ResetAll(b3, 2);
      forall m | 0 <= m < |body|
        ensures Shifted(filename, body)[m] == ShiftOnce(body[m])
      {
        assert b4[m] == ResetOne(body[m], 4);
        assert b3[m] == ResetOne(b4[m], 3);
        assert b2[m] == ResetOne(b3[m], 2);
      }
    }
  }

  /** Three consecutive pieces of a sequence, split at two cut points. */
  lemma SplitTwice<T>(s: seq<T>, j: nat)
    requires 1 <= j <= |s|
    ensures s == [s[0]] + s[1..j] + s[j..]
  {
  }

  /** The sections of a body that starts at an h2 lay it out again: each h2, then its content. */
  lemma {:induction false} SplitSectionsFlatten(s: seq<Element>)
    ensures Flatten(SplitSections(s)) == s
    decreases |s|
  {
    if s != [] {
      var j := 1 + SpanEnd(s[1..]);
      var rest := s[j..];
      SplitSectionsFlatten(rest);
      var secs := SplitSections(s);
      assert secs[0] == Section(s[0], s[1..j]);
      assert secs[1..] == SplitSections(rest);
      SplitTwice(s, j);
    }
  }

  /** Every section of a body that starts at an h2 is headed by an h2, and its content holds no h2. */
  lemma {:induction false} SplitSectionsShape(s: seq<Element>)
    requires s == [] || s[0].tag == H(2)
    ensures forall i :: 0 <= i < |SplitSections(s)| ==>
      SplitSections(s)[i].heading.tag == H(2) &&
      forall m :: 0 <= m < |SplitSections(s)[i].content| ==> SplitSections(s)[i].content[m].tag != H(2)
    decreases |s|
  {
    if s != [] {
      var j := 1 + SpanEnd(s[1..]);
      var rest := s[j..];
      SplitSectionsShape(rest);
      var secs := SplitSections(s);
      assert secs == [Section(s[0], s[1..j])] + SplitSections(rest);
      forall i | 0 <= i < |secs|
        ensures secs[i].heading.tag == H(2) &&
          forall m :: 0 <= m < |secs[i].content| ==> secs[i].content[m].tag != H(2)
      {
        if i > 0 {
          assert secs[i] == SplitSections(rest)[i - 1];
        }
      }
    }
  }

  /** The sections of a body that starts at an h2 lay it out again: each h2, then its content, which holds no h2. */
  lemma SplitSectionsPartition(s: seq<Element>)
    requires s == [] || s[0].tag == H(2)
    ensures Flatten(SplitSections(s)) == s
    ensures forall i :: 0 <= i < |SplitSections(s)| ==>
      SplitSections(s)[i].heading.tag == H(2) &&
      forall m :: 0 <= m < |SplitSections(s)[i].content| ==> SplitSections(s)[i].content[m].tag != H(2)
  {
    SplitSectionsFlatten(s);
    SplitSectionsShape(s);
  }

  /**
    Sectioning partitions the body: the elements before the first h2 stay
    in place, and every h2 is followed by exactly the elements up to the
    next h2, none of them an h2.
   */
  lemma Partition(body: seq<Element>)
    ensures body == Prefix(body) + Flatten(Sections(body))
    ensures forall m :: 0 <= m < |Prefix(body)| ==> Prefix(body)[m].tag != H(2)
    ensures forall i :: 0 <= i < |Sections(body)| ==>
      Sections(body)[i].heading.tag == H(2) &&
      forall m :: 0 <= m < |Sections(body)[i].content| ==> Sections(body)[i].content[m].tag != H(2)
  {
    var e := SpanEnd(body);
    var pre, tail := body[..e], body[e..];
    assert Prefix(body) == pre && Sections(body) == SplitSections(tail);
    SplitSectionsPartition(tail);
    SplitAt(body, e);
  }

  lemma SplitAt<T>(s: seq<T>, e: nat)
    requires e <= |s|
    ensures s == s[..e] + s[e..]
  {
  }

  /** There is a section for each h2: none exactly when the body has no h2, and the first one opens at the first h2. */
  lemma SectionsOfBody(body: seq<Element>)
    ensures Sections(body) == [] <==> forall m :: 0 <= m < |body| ==> body[m].tag != H(2)
    ensures Sections(body) != [] ==> Sections(body)[0].heading == body[SpanEnd(body)]
  {
  }

  /** The page header is the text of the first h2 of the body, and null when there is none. */
  lemma TitleIsFirstH2(body: seq<Element>)
    ensures Title(Sections(body)) == None <==> forall m :: 0 <= m < |body| ==> body[m].tag != H(2)
    ensures Title(Sections(body)) != None ==>
      exists m :: 0 <= m < |body| && body[m].tag == H(2) && Title(Sections(body)) == Some(body[m].text) &&
        forall i :: 0 <= i < m ==> body[i].tag != H(2)
  {
    SectionsOfBody(body);
  }

  lemma {:induction false} TocSoFarLength(secs: seq<Section>)
    ensures |TocSoFar(secs)| >= 4 + |secs|
    ensures TocSoFar(secs)[..4] == "<ul>"
  {
    if secs != [] {
      TocSoFarLength(secs[..|secs| - 1]);
    }
  }

  /** The table of contents is the empty list "<ul>\n</ul>" exactly when there is no section. */
  lemma TocEmpty(secs: seq<Section>)
    ensures TocHtml(secs) == "<ul>\n</ul>" <==> secs == []
  {
    TocSoFarLength(secs);
  }

  /**
    A text made of `x`, then either the word `w` or nothing, then a rest that
    starts with `q` (whose first character cannot start `w`), begins with
    x + w + q exactly when the word is there.
   */
  lemma MarkedPrefix(x: string, a: string, w: string, q: string, r: string)
    requires a == w || a == []
    requires w != [] && q != [] && w[0] != q[0]
    requires StartsWith(r, q)
    ensures StartsWith(x + a + r, x + w + q) <==> a == w
  {
    if a == w {
      assert (x + a + r)[..|x + w + q|] == x + w + r[..|q|];
    } else {
      assert (x + a + r)[|x|] == q[0];
      assert (x + w + q)[|x|] == w[0];
    }
  }

  /** Only the first section's title carries the class "active". */
  lemma OnlyFirstTitleActive(s: Section, k: nat)
    ensures StartsWith(SectionElement(s, k).inner, "<div class=\"datalist-title active\">") <==> k == 0
  {
    var x := "<div class=\"datalist-title ";
    var b := "\">\n";
    var e := ContentDiv(ContentHtml(Id(s.heading.text), s.content));
    var xa, h := x + Active(k), Outer(s.heading);
    Assoc(xa, b, h);
    Assoc(xa, b + h, "\n</div>\n");
    Assoc(xa, b + h + "\n</div>\n", e);
    var r := b + h + "\n</div>\n" + e;
    assert r[..2] == "\">";
    MarkedPrefix(x, Active(k), "active", "\">", r);
    assert x + "active" + "\">" == "<div class=\"datalist-title active\">";
  }

  /** A table-of-contents link, followed by anything, opens with class "active" exactly when it is marked active. */
  lemma ActiveMarked(a: string, sid: string, header: string, rest: string)
    requires a == "active" || a == []
    ensures StartsWith(TocLink(a, sid, header) + rest, "\n<li class=\"active\">") <==> a == "active"
  {
    var x, r := "\n<li class=\"", "\">\n<a href=\"#" + sid + "\">" + header + "</a>" + rest;
    assert TocLink(a, sid, header) + rest == x + a + r;
    assert r[..2] == "\">";
    assert x + "active" + "\">" == "\n<li class=\"active\">";
    MarkedPrefix(x, a, "active", "\">", r);
  }

  /** Only the first section's table-of-contents entry carries the class "active". */
  lemma OnlyFirstEntryActive(s: Section, k: nat)
    ensures StartsWith(TocEntry(s, k), "\n<li class=\"active\">") <==> k == 0
  {
    var sid := Id(s.heading.text);
    var link, nested := TocLink(Active(k), sid, s.heading.text), Nested(SubToc(sid, s.content));
    Assoc(link, nested, "</li>");
    ActiveMarked(Active(k), sid, s.heading.text, nested + "</li>");
  }

  lemma SubTocSnoc(sid: string, s: seq<Element>, x: Element)
    ensures SubToc(sid, s + [x]) == SubToc(sid, s) + SubTocEntry(sid, x)
  {
    assert (s + [x])[..|s|] == s;
  }

  lemma {:induction false} SubTocAppend(sid: string, a: seq<Element>, b: seq<Element>)
    ensures SubToc(sid, a + b) == SubToc(sid, a) + SubToc(sid, b)
    decreases |b|
  {
    if b == [] {
      assert a + b == a;
    } else {
      var init, last := b[..|b| - 1], b[|b| - 1];
      assert a + b == (a + init) + [last];
      assert b == init + [last];
      SubTocAppend(sid, a, init);
      SubTocSnoc(sid, a + init, last);
      SubTocSnoc(sid, init, last);
      Assoc(SubToc(sid, a), SubToc(sid, init), SubTocEntry(sid, last));
    }
  }

  /** A section's nested table of contents is empty exactly when the section has no h3. */
  lemma {:induction false} SubTocEmpty(sid: string, content: seq<Element>)
    ensures SubToc(sid, content) == "" <==> forall m :: 0 <= m < |content| ==> content[m].tag != H(3)
    decreases |content|
  {
    if content != [] {
      var init := content[..|content| - 1];
      SubTocEmpty(sid, init);
      assert forall m :: 0 <= m < |init| ==> init[m] == content[m];
    }
  }

  /** The table-of-contents entry of a section holds a nested list exactly when the section has an h3. */
  lemma NestedListIffH3(s: Section)
    ensures Nested(SubToc(Id(s.heading.text), s.content)) != "" <==>
      exists m :: 0 <= m < |s.content| && s.content[m].tag == H(3)
  {
    SubTocEmpty(Id(s.heading.text), s.content);
  }

  lemma SubTocAround(sid: string, content: seq<Element>, m: nat)
    requires m < |content|
    ensures SubToc(sid, content) ==
      SubToc(sid, content[..m]) + SubTocEntry(sid, content[m]) + SubToc(sid, content[m + 1..])
  {
    assert content == content[..m] + [content[m]] + content[m + 1..];
    SubTocAppend(sid, content[..m] + [content[m]], content[m + 1..]);
    SubTocSnoc(sid, content[..m], content[m]);
  }

  lemma SubTocItemLink(href: string, text: string)
    ensures OccursAt(SubTocItem(href, text), "<a href=\"#" + href + "\">", 6)
  {
    var link := "<a href=\"#" + href + "\">";
    assert SubTocItem(href, text) == "\n<li>\n" + link + (text + "</a></li>");
    OccursInMiddle("\n<li>\n", link, text + "</a></li>", link, 0);
  }

  /**
    Within a section with id `sid`, every h3 takes the id sid-id(text), and
    the nested table of contents links to exactly that anchor; every other
    element keeps its attributes.
   */
  lemma H3AnchorsMatchLinks(sid: string, content: seq<Element>, m: nat)
    requires m < |content|
    ensures content[m].tag == H(3) ==>
      Renamed(sid, content[m]).id == Some(sid + "-" + Id(content[m].text)) &&
      Occurs(SubToc(sid, content), "<a href=\"#" + (sid + "-" + Id(content[m].text)) + "\">")
    ensures content[m].tag != H(3) ==> Renamed(sid, content[m]) == content[m]
  {
    var e := content[m];
    if e.tag == H(3) {
      var href := sid + "-" + Id(e.text);
      var link := "<a href=\"#" + href + "\">";
      var before := SubToc(sid, content[..m]);
      SubTocAround(sid, content, m);
      SubTocItemLink(href, e.text);
      OccursInMiddle(before, SubTocEntry(sid, e), SubToc(sid, content[m + 1..]), link, 6);
      assert OccursAt(SubToc(sid, content), link, |before| + 6);
    }
  }

  lemma LinkInEntry(x: string, a: string, p: string, q: string, sid: string, e: string, h: string, c: string, l: string)
    ensures OccursAt(x + a + (p + q) + sid + e + h + c + l, q + sid + e, |x + a + p|)
  {
    assert x + a + (p + q) + sid + e + h + c + l == (x + a + p) + (q + sid + e) + (h + c + l);
    OccursInMiddle(x + a + p, q + sid + e, h + c + l, q + sid + e, 0);
  }

  /** A table-of-contents entry, cut where the link to the section begins. */
  lemma TocEntryShape(s: Section, k: nat)
    ensures var sid := Id(s.heading.text);
      TocEntry(s, k) == "\n<li class=\"" + Active(k) + ("\">\n" + "<a href=\"#") + sid + "\">" + s.heading.text +
        ("</a>" + Nested(SubToc(sid, s.content))) + "</li>"
  {
    var sid := Id(s.heading.text);
    assert "\">\n" + "<a href=\"#" == "\">\n<a href=\"#";
    Assoc("\n<li class=\"" + Active(k) + "\">\n<a href=\"#" + sid + "\">" + s.heading.text, "</a>", Nested(SubToc(sid, s.content)));
  }

  /** A section's div takes the id of its h2's text, and its table-of-contents entry links to that anchor. */
  lemma SectionAnchorMatchesLink(s: Section, k: nat)
    ensures SectionElement(s, k).id == Some(Id(s.heading.text))
    ensures Occurs(TocEntry(s, k), "<a href=\"#" + Id(s.heading.text) + "\">")
  {
    var sid := Id(s.heading.text);
    TocEntryShape(s, k);
    LinkInEntry("\n<li class=\"", Active(k), "\">\n", "<a href=\"#", sid, "\">", s.heading.text,
      "</a>" + Nested(SubToc(sid, s.content)), "</li>");
  }
}
