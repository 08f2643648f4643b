/**
  JoobySiteGenerator.appendix: the Markdown listing of a module's
  configuration files that replaces a page's {{appendix}} placeholder.
 */
module Appendix {
  import opened Strings

  /** Where the generator finds the documentation sources (Paths.get("..", "jooby-project").resolve("md")). */
  const SourceRoot: string := "../jooby-project/md"

  /** A file met while walking a resources directory: its file name and its lines. */
  datatype ResourceFile = ResourceFile(name: string, lines: seq<string>)

  /**
    For each module name, the files met by walking the directory
    ../jooby-project/<module>/src/main/resources, in walk order. A module
    absent from the map has no such directory.
   */
  type Resources = map<string, seq<ResourceFile>>

  /** The path of a page as the walk yields it, from its path relative to the source root. */
  function FullPath(rel: string): string {
    SourceRoot + "/" + rel
  }

  /** File.getParentFile().getName() of a page: the name of the directory holding it. */
  function ParentDirName(rel: string): string {
    var full := FullPath(rel);
    assert full[|SourceRoot|] == '/';
    var dir := full[..LastIndexOf(full, '/')];
    dir[LastIndexOf(dir, '/') + 1..]
  }

  /** The module whose resources document a page: "jooby" under doc/, else "jooby-<parent>". */
  function ModuleName(rel: string): string {
    var parent := ParentDirName(rel);
    if parent == "doc" then "jooby" else "jooby-" + parent
  }

  /** The documentation index lists its files under level-1 headings, every other page under level-2 ones. */
  function HeadingMark(rel: string): string {
    if EndsWith(FullPath(rel), "/doc/index.md") then "#" else "##"
  }

  predicate IsConfigFile(f: ResourceFile) {
    EndsWith(f.name, ".conf") || EndsWith(f.name, ".properties")
  }

  /** The walked files that are .conf or .properties files, in walk order. */
  function ConfigFiles(files: seq<ResourceFile>): (r: seq<ResourceFile>)
    ensures forall f :: f in r <==> f in files && IsConfigFile(f)
    ensures |r| <= |files|
  {
    if files == [] then []
    else if IsConfigFile(files[0]) then [files[0]] + ConfigFiles(files[1..])
    else ConfigFiles(files[1..])
  }

  /** The rest of `s` after its leading newlines. */
  function DropNewlines(s: string): (r: string)
    ensures |r| <= |s| && r == s[|s| - |r|..]
    ensures r == [] || r[0] != '\n'
    ensures forall i :: 0 <= i < |s| - |r| ==> s[i] == '\n'
  {
    if s == [] || s[0] != '\n' then s else DropNewlines(s[1..])
  }

  /** replaceAll("\n\n+", "\n\n"): every run of two or more newlines becomes exactly two. */
  function CollapseBlankLines(s: string): string
    decreases |s|
  {
    if s == [] then ""
    else if |s| >= 2 && s[0] == '\n' && s[1] == '\n' then "\n\n" + CollapseBlankLines(DropNewlines(s[2..]))
    else [s[0]] + CollapseBlankLines(s[1..])
  }

  /** The text of a configuration file: its lines joined by blank lines, with runs of blank lines collapsed. */
  function FileBody(f: ResourceFile): string {
    CollapseBlankLines(Join(f.lines, "\n\n"))
  }

  /** One listing: a heading naming the file, then its text in a properties code fence. */
  function Entry(mark: string, f: ResourceFile): string {
    mark + " " + f.name + "\n\n```properties\n" + FileBody(f) + "\n```\n\n"
  }

  function Entries(mark: string, files: seq<ResourceFile>): (r: seq<string>)
    ensures |r| == |files|
    ensures forall i :: 0 <= i < |files| ==> r[i] == Entry(mark, files[i])
  {
    seq(|files|, i requires 0 <= i < |files| => Entry(mark, files[i]))
  }

  /** JoobySiteGenerator.appendix: the listings joined by newlines, or "" when the module has no resources directory. */
  function AppendixOf(rel: string, resources: Resources): string {
    var moduleName := ModuleName(rel);
    if moduleName !in resources then ""
    else Join(Entries(HeadingMark(rel), ConfigFiles(resources[moduleName])), "\n")
  }

  // ---- properties ----

  predicate NoTripleNewline(s: string) {
    forall i :: 0 <= i < |s| - 2 ==> !(s[i] == '\n' && s[i + 1] == '\n' && s[i + 2] == '\n')
  }

  /** The characters of `s` other than newlines, in order. */
  function NonNewlines(s: string): string {
    if s == [] then ""
    else if s[0] == '\n' then NonNewlines(s[1..])
    else [s[0]] + NonNewlines(s[1..])
  }

  lemma {:induction false} NonNewlinesOfDropped(s: string)
    ensures NonNewlines(DropNewlines(s)) == NonNewlines(s)
    decreases |s|
  {
    if s != [] && s[0] == '\n' {
      NonNewlinesOfDropped(s[1..]);
    }
  }

  /** Collapsing keeps the first character, and the second one after a lone newline. */
  lemma CollapseBlankLinesHead(s: string)
    ensures CollapseBlankLines(s) == [] <==> s == []
    ensures s != [] ==> CollapseBlankLines(s)[0] == s[0]
    ensures |s| >= 2 && s[0] == '\n' && s[1] != '\n' ==> |CollapseBlankLines(s)| >= 2 && CollapseBlankLines(s)[1] == s[1]
  {
    if |s| >= 2 && s[0] == '\n' && s[1] != '\n' {
      CollapseBlankLinesHead(s[1..]);
    }
  }

  lemma NoTripleCons(c: char, t: string)
    requires NoTripleNewline(t)
    requires c == '\n' && |t| >= 2 ==> t[0] != '\n' || t[1] != '\n'
    ensures NoTripleNewline([c] + t)
  {
    var r := [c] + t;
    forall i | 1 <= i < |r| - 2 ensures !(r[i] == '\n' && r[i + 1] == '\n' && r[i + 2] == '\n') {
      assert r[i] == t[i - 1] && r[i + 1] == t[i] && r[i + 2] == t[i + 1];
    }
  }

  /** Collapsing leaves no three newlines in a row. */
  lemma {:induction false} CollapseBlankLinesNoTriple(s: string)
    ensures NoTripleNewline(CollapseBlankLines(s))
    decreases |s|
  {
    if s != [] {
      if |s| >= 2 && s[0] == '\n' && s[1] == '\n' {
        var rest := DropNewlines(s[2..]);
        CollapseBlankLinesNoTriple(rest);
        CollapseBlankLinesHead(rest);
        var t := CollapseBlankLines(rest);
        assert CollapseBlankLines(s) == "\n\n" + t;
        NoTripleCons('\n', t);
        NoTripleCons('\n', [s[0]] + t);
        assert "\n\n" + t == [s[0]] + ([s[0]] + t);
      } else {
        var t := CollapseBlankLines(s[1..]);
        assert CollapseBlankLines(s) == [s[0]] + t;
        CollapseBlankLinesNoTriple(s[1..]);
        CollapseBlankLinesHead(s[1..]);
        NoTripleCons(s[0], t);
      }
    }
  }

  /** Collapsing keeps every character other than a newline, in order. */
  lemma {:induction false} CollapseBlankLinesKeepsText(s: string)
    ensures NonNewlines(CollapseBlankLines(s)) == NonNewlines(s)
    decreases |s|
  {
    if s != [] {
      var r := CollapseBlankLines(s);
      if |s| >= 2 && s[0] == '\n' && s[1] == '\n' {
        var rest := DropNewlines(s[2..]);
        CollapseBlankLinesKeepsText(rest);
        NonNewlinesOfDropped(s[2..]);
        assert NonNewlines(s) == NonNewlines(s[2..]) by {
          assert s[1..][1..] == s[2..];
        }
        assert r[1..][1..] == CollapseBlankLines(rest);
      } else {
        CollapseBlankLinesKeepsText(s[1..]);
        assert r[1..] == CollapseBlankLines(s[1..]);
      }
    }
  }

  /** A text without three newlines in a row is left as it is. */
  lemma {:induction false} CollapseBlankLinesFixes(s: string)
    requires NoTripleNewline(s)
    ensures CollapseBlankLines(s) == s
    decreases |s|
  {
    if s != [] {
      if |s| >= 2 && s[0] == '\n' && s[1] == '\n' {
        assert NoTripleNewline(s[2..]);
        assert s[2..] == [] || s[2..][0] != '\n';
        assert DropNewlines(s[2..]) == s[2..];
        CollapseBlankLinesFixes(s[2..]);
        assert s == "\n\n" + s[2..];
      } else {
        assert NoTripleNewline(s[1..]);
        CollapseBlankLinesFixes(s[1..]);
      }
    }
  }

  /** Collapsing blank lines is idempotent. */
  lemma CollapseBlankLinesIdempotent(s: string)
    ensures CollapseBlankLines(CollapseBlankLines(s)) == CollapseBlankLines(s)
  {
    CollapseBlankLinesNoTriple(s);
    CollapseBlankLinesFixes(CollapseBlankLines(s));
  }

  lemma {:induction false} JoinEmpty(parts: seq<string>, sep: string)
    requires forall i :: 0 <= i < |parts| ==> parts[i] != ""
    ensures Join(parts, sep) == "" <==> parts == []
  {
    if |parts| > 1 {
      assert Join(parts, sep) == parts[0] + sep + Join(parts[1..], sep);
      assert |Join(parts, sep)| >= |parts[0]|;
    }
  }

  /**
    The appendix is empty exactly when the module has no resources directory
    or that directory holds no .conf or .properties file.
   */
  lemma AppendixEmpty(rel: string, resources: Resources)
    ensures AppendixOf(rel, resources) == "" <==>
      (ModuleName(rel) !in resources ||
       forall f :: f in resources[ModuleName(rel)] ==> !IsConfigFile(f))
  {
    var moduleName := ModuleName(rel);
    if moduleName in resources {
      var files := ConfigFiles(resources[moduleName]);
      var entries := Entries(HeadingMark(rel), files);
      JoinEmpty(entries, "\n");
      if files != [] {
        assert files[0] in files;
      }
    }
  }

  /** A single walked file is listed exactly when it is a .conf or .properties file. */
  lemma ConfigFilesOne(f: ResourceFile)
    ensures ConfigFiles([f]) == if IsConfigFile(f) then [f] else []
  {
    assert [f][1..] == [];
  }

  /** The filter keeps walk order and multiplicity: filtering two stretches of a walk filters each one. */
  lemma {:induction false} ConfigFilesAppend(a: seq<ResourceFile>, b: seq<ResourceFile>)
    ensures ConfigFiles(a + b) == ConfigFiles(a) + ConfigFiles(b)
    decreases |a|
  {
    if a == [] {
      assert a + b == b;
    } else {
      assert (a + b)[0] == a[0];
      assert (a + b)[1..] == a[1..] + b;
      ConfigFilesAppend(a[1..], b);
    }
  }

  /**
    For a module with a resources directory, the appendix lists each of its
    configuration files, in walk order: the listing of the i-th one starts
    right after the listings before it and a newline.
   */
  lemma AppendixListsConfigFiles(rel: string, resources: Resources, i: nat)
    requires ModuleName(rel) in resources
    requires i < |ConfigFiles(resources[ModuleName(rel)])|
    ensures var files := ConfigFiles(resources[ModuleName(rel)]);
      var listings := Entries(HeadingMark(rel), files);
      OccursAt(AppendixOf(rel, resources), Entry(HeadingMark(rel), files[i]),
        if i == 0 then 0 else |Join(listings[..i], "\n")| + 1)
  {
    var files := ConfigFiles(resources[ModuleName(rel)]);
    JoinPart(Entries(HeadingMark(rel), files), "\n", i);
  }

  /**
    The documentation index (doc/index.md, or any page at .../doc/index.md)
    gets level-1 headings; every other page gets level-2 ones.
   */
  lemma HeadingMarkOf(rel: string)
    ensures HeadingMark(rel) == "#" <==> rel == "doc/index.md" || EndsWith(rel, "/doc/index.md")
  {
    var full := FullPath(rel);
    var pat := "/doc/index.md";
    assert full == "../jooby-project/md/" + rel;
    if |rel| >= |pat| {
      assert full[|full| - |pat|..] == rel[|rel| - |pat|..];
    } else if EndsWith(full, pat) {
      var k := |pat| - |rel|;
      assert full[|full| - |pat|..] == pat;
      assert full[|full| - |pat| + k - 1] == pat[k - 1] == '/';
      assert full[|full| - |pat| + k - 1] == full[19];
      assert full[|full| - |pat|] == pat[0];
      assert k == 1;
      assert full[|full| - |pat|..][1..] == rel;
    }
  }

  /**
    A page directly inside a directory `seg` is documented by module "jooby"
    when `seg` is doc, else by "jooby-<seg>"; a page at the source root by
    "jooby-md".
   */
  lemma ModuleNameOf(dir: string, seg: string, name: string)
    requires '/' !in seg && '/' !in name && seg != ""
    requires dir == "" || dir[|dir| - 1] == '/'
    ensures ModuleName(dir + seg + "/" + name) == if seg == "doc" then "jooby" else "jooby-" + seg
  {
    var d := SourceRoot + "/" + dir + seg;
    var full := d + "/" + name;
    assert full == FullPath(dir + seg + "/" + name);
    forall j | |d| < j < |full| ensures full[j] != '/' {
      assert full[j] == name[j - |d| - 1];
    }
    LastIndexOfAt(full, '/', |d|);
    assert full[..|d|] == d;
    var cut := |d| - |seg| - 1;
    assert d[cut] == '/';
    forall j | cut < j < |d| ensures d[j] != '/' {
      assert d[j] == seg[j - cut - 1];
    }
    LastIndexOfAt(d, '/', cut);
    assert d[cut + 1..] == seg;
  }

  lemma ModuleNameAtRoot(name: string)
    requires '/' !in name
    ensures ModuleName(name) == "jooby-md"
  {
    var d := SourceRoot;
    var full := FullPath(name);
    assert full == d + "/" + name;
    forall j | |d| < j < |full| ensures full[j] != '/' {
      assert full[j] == name[j - |d| - 1];
    }
    LastIndexOfAt(full, '/', |d|);
    assert full[..|d|] == d;
    LastIndexOfAt(d, '/', 16);
    assert d[17..] == "md";
  }
}
