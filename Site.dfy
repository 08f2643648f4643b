/**
  JoobySiteGenerator.main: the pages of the resolved Markdown tree that make
  up the site are turned into HTML one after the other, each under the
  Handlebars template named after its path, and written under
  target/gh-pages.

  Reading and writing files, the directory walk and the Handlebars
  rendering are not modelled; a page is the data handed to the template.
 */
module Site {
  import opened Wrappers
  import opened Strings
  import opened Sections

  /** The directory the site is written to. */
  const OutDir := "target/gh-pages/"

  /** The template fallback for pages under doc/. */
  const ModuleTemplate := "doc/mod"

  /**
    A file found by the walk over the resolved Markdown tree: its path
    relative to the tree, the number of name components of the path the
    walk produced (the tree's own location included) and its lines.
   */
  datatype SourceFile = SourceFile(rel: string, nameCount: nat, lines: seq<string>)

  /** The data a page's template receives, with the file it is written to and the template used. */
  datatype Page = Page(output: string, template: string, main: string, toc: string, header: Option<string>)

  /** The last name component of a relative path. */
  function FileName(rel: string): (name: string)
    ensures EndsWith(rel, name)
    ensures forall k :: 0 <= k < |name| ==> name[k] != '/'
    ensures |name| == |rel| || rel[|rel| - |name| - 1] == '/'
  {
    rel[LastIndexOf(rel, '/') + 1..]
  }

  /** Only README.md files (when the walked path has more than one component) and index.md files are pages. */
  predicate Selected(f: SourceFile) {
    var name := FileName(f.rel);
    (name == "README.md" && f.nameCount > 1) || name == "index.md"
  }

  /** The file's lines joined with "\n", as they are read: no trailing line break. */
  function Text(f: SourceFile): string {
    Join(f.lines, "\n")
  }

  /** The template name: ".md" dropped and "README" read as "index", wherever they occur in the path. */
  function TemplateName(rel: string): string {
    ReplaceAll(ReplaceAll(rel, ".md", ""), "README", "index")
  }

  /**
    The template a page is rendered with: the one named after it, else, for
    pages under doc/, the module template; else there is none and the page
    is skipped.
   */
  function ChooseTemplate(available: set<string>, name: string): (r: Option<string>)
    ensures r.Some? <==> name in available || (StartsWith(name, "doc/") && ModuleTemplate in available)
    ensures r.Some? ==> r.value in available
    ensures name in available ==> r == Some(name)
    ensures r.Some? && r.value != name ==> StartsWith(name, "doc/") && r.value == ModuleTemplate
  {
    if name in available then Some(name)
    else if StartsWith(name, "doc/") && ModuleTemplate in available then Some(ModuleTemplate)
    else None
  }

  /** The file a page is written to: under the output directory, README.md and index.md becoming index.html. */
  function OutputPath(rel: string): string {
    ReplaceAll(ReplaceAll(OutDir + rel, "README.md", "index.html"), "index.md", "index.html")
  }

  /** The page a file yields, if it is selected and has a template. */
  function PageOf(f: SourceFile, available: set<string>, render: string -> seq<Element>): Option<Page> {
    if !Selected(f) then None
    else match ChooseTemplate(available, TemplateName(f.rel))
      case None => None
      case Some(t) =>
        var body := Shifted(f.rel, render(PreEdit(f.rel, Text(f))));
        Some(Page(OutputPath(f.rel), t, BodyHtml(Rendered(body)), TocHtml(Sections.Sections(body)), Title(Sections.Sections(body))))
  }

  /** The pages of a walk, in walk order. */
  function SitePages(files: seq<SourceFile>, available: set<string>, render: string -> seq<Element>): seq<Page> {
    Gather(files, f => PageOf(f, available, render))
  }

  /** The values `page` gives, in order, skipping the files it gives none for. */
  function Gather(files: seq<SourceFile>, page: SourceFile -> Option<Page>): seq<Page> {
    if files == [] then []
    else
      var last := page(files[|files| - 1]);
      Gather(files[..|files| - 1], page) + (if last.Some? then [last.value] else [])
  }

  lemma GatherSnoc(files: seq<SourceFile>, page: SourceFile -> Option<Page>, i: nat)
    requires i < |files|
    ensures Gather(files[..i + 1], page) ==
      Gather(files[..i], page) + (if page(files[i]).Some? then [page(files[i]).value] else [])
  {
    assert files[..i + 1][..i] == files[..i];
  }

  /**
    The body of the page loop for one file: its template name, its template
    (the page is skipped when there is none), then its HTML and output path.
   */
  method RenderPage(f: SourceFile, available: set<string>, render: string -> seq<Element>)
    returns (page: Option<Page>)
    ensures page == PageOf(f, available, render)
  {
    page := None;
    if Selected(f) {
      var filename := TemplateName(f.rel);
      var template := ChooseTemplate(available, filename);
      if template.Some? {
        var main, toc, header := MarkdownToHtml(f.rel, Text(f), render);
        page := Some(Page(OutputPath(f.rel), template.value, main, toc, header));
      }
    }
  }

  /** The page loop: every selected file with a template is rendered and becomes a page. */
  method Generate(files: seq<SourceFile>, available: set<string>, render: string -> seq<Element>)
    returns (pages: seq<Page>)
    ensures pages == SitePages(files, available, render)
  {
    pages := [];
    var i := 0;
    while i < |files|
      invariant 0 <= i <= |files|
      invariant pages == SitePages(files[..i], available, render)
    {
      var page := RenderPage(files[i], available, render);
      GatherSnoc(files, f => PageOf(f, available, render), i);
      if page.Some? {
        pages := pages + [page.value];
      }
      i := i + 1;
    }
    assert files[..|files|] == files;
  }

  // ---- properties ----

  /**
    A file yields a page exactly when it is selected and its template, or
    for doc/ pages the module template, exists; the page is written to the
    file's output path with the template named after it when that exists,
    and with the module template otherwise.
   */
  lemma PageOfSpec(f: SourceFile, available: set<string>, render: string -> seq<Element>)
    ensures var name := TemplateName(f.rel);
      PageOf(f, available, render).Some? <==>
        Selected(f) && (name in available || (StartsWith(name, "doc/") && ModuleTemplate in available))
    ensures var p := PageOf(f, available, render);
      p.Some? ==> p.value.output == OutputPath(f.rel) && p.value.template in available
    ensures var name := TemplateName(f.rel); var p := PageOf(f, available, render);
      p.Some? ==> p.value.template == (if name in available then name else ModuleTemplate)
  {
  }

  lemma {:induction false} GatherSound(files: seq<SourceFile>, page: SourceFile -> Option<Page>, p: Page)
    requires p in Gather(files, page)
    ensures exists i :: 0 <= i < |files| && page(files[i]) == Some(p)
    decreases |files|
  {
    var init := files[..|files| - 1];
    if p in Gather(init, page) {
      GatherSound(init, page, p);
      var i :| 0 <= i < |init| && page(init[i]) == Some(p);
      assert init[i] == files[i];
    } else {
      assert page(files[|files| - 1]) == Some(p);
    }
  }

  lemma {:induction false} GatherComplete(files: seq<SourceFile>, page: SourceFile -> Option<Page>, i: nat)
    requires i < |files| && page(files[i]).Some?
    ensures page(files[i]).value in Gather(files, page)
    decreases |files|
  {
    var init := files[..|files| - 1];
    if i < |files| - 1 {
      assert init[i] == files[i];
      GatherComplete(init, page, i);
    }
  }

  lemma {:induction false} GatherCount(files: seq<SourceFile>, page: SourceFile -> Option<Page>)
    ensures |Gather(files, page)| <= |files|
    decreases |files|
  {
    if files != [] {
      GatherCount(files[..|files| - 1], page);
    }
  }

  /**
    The site is exactly the pages of the walk's files: every page comes from
    a file, every file that yields a page has it in the site, and there are
    never more pages than files.
   */
  lemma SitePagesContents(files: seq<SourceFile>, available: set<string>, render: string -> seq<Element>)
    ensures forall p :: p in SitePages(files, available, render) ==>
      exists i :: 0 <= i < |files| && PageOf(files[i], available, render) == Some(p)
    ensures forall i :: 0 <= i < |files| && PageOf(files[i], available, render).Some? ==>
      PageOf(files[i], available, render).value in SitePages(files, available, render)
    ensures |SitePages(files, available, render)| <= |files|
  {
    var page := f => PageOf(f, available, render);
    forall p | p in SitePages(files, available, render)
      ensures exists i :: 0 <= i < |files| && PageOf(files[i], available, render) == Some(p)
    {
      GatherSound(files, page, p);
    }
    forall i | 0 <= i < |files| && PageOf(files[i], available, render).Some?
      ensures PageOf(files[i], available, render).value in SitePages(files, available, render)
    {
      GatherComplete(files, page, i);
    }
    GatherCount(files, page);
  }

  /** A README.md at the top of the tree is a page: the walked path always has more than one component there. */
  lemma TopReadmeSelected(lines: seq<string>, nameCount: nat)
    requires nameCount > 1
    ensures Selected(SourceFile("README.md", nameCount, lines))
  {
    var rel := "README.md";
    assert NoSlash(rel);
    assert LastIndexOf(rel, '/') == -1;
    assert rel[0..] == rel;
  }

  // ---- template names and output paths of directory pages ----

  /** `dir` is empty or a directory path ending with '/'. */
  predicate IsDir(dir: string) {
    dir == [] || dir[|dir| - 1] == '/'
  }

  predicate NoSlash(p: string) {
    forall k :: 0 <= k < |p| ==> p[k] != '/'
  }

  /** An occurrence starting inside a directory prefix lies wholly inside it, when the pattern has no '/'. */
  lemma NoStraddle(d: string, tail: string, p: string)
    requires IsDir(d) && NoSlash(p) && !Occurs(d, p)
    ensures forall i :: 0 <= i < |d| ==> !OccursAt(d + tail, p, i)
  {
    forall i | 0 <= i < |d| ensures !OccursAt(d + tail, p, i) {
      if i + |p| <= |d| {
        assert (d + tail)[i..i + |p|] == d[i..i + |p|];
        assert !OccursAt(d, p, i);
      } else if i + |p| <= |d + tail| {
        assert (d + tail)[i..i + |p|][|d| - 1 - i] == '/';
        assert p[|d| - 1 - i] != '/';
      }
    }
  }

  /** String.replace leaves a directory prefix free of the pattern alone. */
  lemma ReplaceAfterDir(d: string, tail: string, p: string, r: string)
    requires p != [] && IsDir(d) && NoSlash(p) && !Occurs(d, p)
    ensures ReplaceAll(d + tail, p, r) == d + ReplaceAll(tail, p, r)
  {
    NoStraddle(d, tail, p);
    ReplaceAllSkip(d, tail, p, r);
  }

  /** String.replace leaves a prefix alone that never holds the pattern's first character. */
  lemma ReplaceAfterForeign(x: string, tail: string, p: string, r: string)
    requires p != [] && forall k :: 0 <= k < |x| ==> x[k] != p[0]
    ensures ReplaceAll(x + tail, p, r) == x + ReplaceAll(tail, p, r)
  {
    forall i | 0 <= i < |x| ensures !OccursAt(x + tail, p, i) {
      assert (x + tail)[i] == x[i];
    }
    ReplaceAllSkip(x, tail, p, r);
  }

  /** A directory whose names hold neither ".md" nor "README". */
  predicate PlainDir(dir: string) {
    IsDir(dir) && !Occurs(dir, ".md") && !Occurs(dir, "README") && !Occurs(dir, "README.md") && !Occurs(dir, "index.md")
  }

  lemma ReadmeStripped()
    ensures ReplaceAll("README.md", ".md", "") == "README"
  {
    ReplaceAfterForeign("README", ".md", ".md", "");
    assert "README" + ".md" == "README.md";
  }

  lemma IndexStripped()
    ensures ReplaceAll("index.md", ".md", "") == "index"
  {
    ReplaceAfterForeign("index", ".md", ".md", "");
    assert "index" + ".md" == "index.md";
  }

  /** The page of a directory, README.md or index.md, is rendered with the template named after the directory's index. */
  lemma DirTemplateName(dir: string)
    requires PlainDir(dir)
    ensures TemplateName(dir + "README.md") == dir + "index"
    ensures TemplateName(dir + "index.md") == dir + "index"
  {
    assert ReplaceAll(dir + "README.md", ".md", "") == dir + "README" by {
      ReplaceAfterDir(dir, "README.md", ".md", "");
      ReadmeStripped();
    }
    assert ReplaceAll(dir + "index.md", ".md", "") == dir + "index" by {
      ReplaceAfterDir(dir, "index.md", ".md", "");
      IndexStripped();
    }
    assert ReplaceAll(dir + "README", "README", "index") == dir + "index" by {
      ReplaceAfterDir(dir, "README", "README", "index");
    }
    assert ReplaceAll(dir + "index", "README", "index") == dir + "index" by {
      ReplaceAfterDir(dir, "index", "README", "index");
    }
  }

  lemma IndexHtmlKept()
    ensures ReplaceAll("index.html", "index.md", "index.html") == "index.html"
  {
    var s := "index.html";
    assert !OccursAt(s, "index.md", 0) by {
      assert s[6] != "index.md"[6];
    }
    ReplaceAllStep(s, "index.md", "index.html");
    ReplaceAfterForeign("ndex.html", "", "index.md", "index.html");
    assert s[1..] == "ndex.html" + "";
  }

  /** The output path of `rel` once the output directory has been put in front. */
  function InnerOutputPath(rel: string): string {
    ReplaceAll(ReplaceAll(rel, "README.md", "index.html"), "index.md", "index.html")
  }

  lemma OutDirKept(rel: string)
    ensures OutputPath(rel) == OutDir + InnerOutputPath(rel)
  {
    ReplaceAfterForeign(OutDir, rel, "README.md", "index.html");
    ReplaceAfterForeign(OutDir, ReplaceAll(rel, "README.md", "index.html"), "index.md", "index.html");
  }

  lemma ReadmeRenamed(dir: string)
    requires PlainDir(dir)
    ensures InnerOutputPath(dir + "README.md") == dir + "index.html"
  {
    assert ReplaceAll(dir + "README.md", "README.md", "index.html") == dir + "index.html" by {
      ReplaceAfterDir(dir, "README.md", "README.md", "index.html");
    }
    assert ReplaceAll(dir + "index.html", "index.md", "index.html") == dir + "index.html" by {
      ReplaceAfterDir(dir, "index.html", "index.md", "index.html");
      IndexHtmlKept();
    }
  }

  lemma IndexRenamed(dir: string)
    requires PlainDir(dir)
    ensures InnerOutputPath(dir + "index.md") == dir + "index.html"
  {
    assert ReplaceAll(dir + "index.md", "README.md", "index.html") == dir + "index.md" by {
      ReplaceAfterDir(dir, "index.md", "README.md", "index.html");
    }
    assert ReplaceAll(dir + "index.md", "index.md", "index.html") == dir + "index.html" by {
      ReplaceAfterDir(dir, "index.md", "index.md", "index.html");
    }
  }

  /** A directory's README.md or index.md is written to index.html in the same directory under the output directory. */
  lemma DirOutputPath(dir: string)
    requires PlainDir(dir)
    ensures OutputPath(dir + "README.md") == OutDir + dir + "index.html"
    ensures OutputPath(dir + "index.md") == OutDir + dir + "index.html"
  {
    OutDirKept(dir + "README.md");
    OutDirKept(dir + "index.md");
    ReadmeRenamed(dir);
    IndexRenamed(dir);
  }
}
