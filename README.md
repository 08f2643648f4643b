# Jooby site generator, modelled in Dafny

This project models `JoobySiteGenerator`, the program that turns the Markdown
documentation of the Jooby web framework into the HTML pages of its web site.
It covers these parts:

- **Placeholder resolution** (`process`, module `Resolve`). Every `.md` page of
  the documentation tree goes through two passes.
  - Pass 1 fills a variable table. It starts as a copy of the link table plus
    `toc.md` mapped to `""`. Each page is then put under its relative path,
    with these edits applied:
    - its `{{appendix}}` is expanded;
    - links into the GitHub source tree are rewritten to `/doc/`;
    - its front matter is stripped;
    - the link variables are replaced.
  - Pass 2 re-reads every page, applies the same edits, and replaces every
    `{{key}}` of the full table.
- **The appendix** (`appendix`, module `Appendix`). This is the listing of a
  module's `.conf` and `.properties` files.
  - The module is `jooby` for pages whose parent directory is named `doc`,
    and `jooby-<name of the parent directory>` otherwise.
  - Each file gets a `#` or `##` heading and a `properties` code fence.
  - In each file, runs of blank lines are collapsed.
- **Anchor ids** (`id`, module `Slug`). Every run of non-letters becomes one
  hyphen, then every run of hyphens becomes one hyphen.
- **HTML restructuring** (`markdownToHtml`, module `Sections`):
  - two page-specific edits of the Markdown text;
  - the heading shift h4→h5, h3→h4, h2→h3, h1→h2, skipped for the site's
    `index.md`;
  - the section loop. It replaces every h2 by a `datalist` div that holds the
    h2 and its following siblings up to the next h2. It gives each h3 the id
    `<section id>-<id(text)>` and builds the table of contents and the page
    title.
- **Page generation** (`main` and `template`, module `Site`):
  - which files become pages;
  - the template name and its `doc/mod` fallback;
  - the output path under `target/gh-pages/`;
  - the page loop.

Each loop of the source is a method with loop invariants. The methods are
`ReplaceVariables`, `CollectVariables`, `ReplaceContent`, `ResetLevel`,
`DetachSiblings`, `FirstH2`, `Restructure` and `Generate`. Each one is proved
equal to a specification function, and lemmas state what those functions
guarantee.

A Java `HashMap` is modelled as the sequence of its entries (`Resolve.Table`).
`put` updates an entry in place or appends a new one, and the lemmas about the
table are about its keys and lookups. The order a `HashMap` iterates in
depends on the hashes of its keys, and the model does not compute it. Pass 1
iterates the link table in the order of the `links` parameter. Pass 2
iterates the full table in the order of the `iteration` parameter of
`Resolve.Process`, which must hold each entry of the table exactly once.

Points of the source's behaviour that a reader might not expect:

- Pass 2 strips the front matter (:224-226) *before* expanding the appendix
  and rewriting links (:228-230). Pass 1 strips it after them (:207-213).
- A text that starts with `---` and has no second `---` loses its first two
  characters. `indexOf("---", 1)` returns -1 (:212), so the substring
  starts at index 2.
- Pass 2 replaces the variables one after the other (:232-234). A later key
  can replace a placeholder that an earlier key's value brought in, so the
  result depends on the iteration order (`Resolve.SubstitutionOrderMatters`).
- `toc.md` is put with the value `""` (:197) before the pages are put (:217).
  A page whose path is `toc.md` replaces that value.
- The appendix lists the configuration files in walk order (:268-273). They
  are not sorted.
- A `README.md` at the top of the tree passes the filter at :48, because the
  walked path always has more than one name component
  (`Site.TopReadmeSelected`).
- A missing template throws `FileNotFoundException` (:92-97), which the page
  loop catches at :70, so the page is skipped and the loop goes on.
- `.md`, `README`, `README.md` and `index.md` are replaced wherever they occur
  in a path (:55, :65-67), not only at its end. The lemmas about template
  names and output paths therefore assume directories whose names hold none
  of them (`Site.PlainDir`).

All line numbers above are in `src/main/java/org/jooby/JoobySiteGenerator.java`.

## Model

| member | source | states |
|---|---|---|
| Strings.IndexOf | src/main/java/org/jooby/JoobySiteGenerator.java:212 | `indexOf(p, from)` gives either -1, when no occurrence starts at or after `from`, or the first such occurrence |
| Strings.LastIndexOf | src/main/java/org/jooby/JoobySiteGenerator.java:47 | gives -1, or the last index that holds the character, with no later index holding it |
| Strings.ReplaceFirst | src/main/java/org/jooby/JoobySiteGenerator.java:106 | leaves a text without the pattern unchanged; otherwise replaces exactly the first occurrence |
| Strings.ReplaceAllAbsent | src/main/java/org/jooby/JoobySiteGenerator.java:208 | `String.replace` of a pattern that does not occur changes nothing |
| Slug.ReplaceNonLetterRunsClean | src/main/java/org/jooby/JoobySiteGenerator.java:186 | after the first `replaceAll`, the result holds only letters and single hyphens; it keeps the input's letters in order, is empty only for empty input, and starts with the input's first letter when the input does |
| Slug.ReplaceNonLetterRunsFixes | src/main/java/org/jooby/JoobySiteGenerator.java:186 | the first `replaceAll` leaves a clean string unchanged |
| Slug.CollapseHyphensFixes | src/main/java/org/jooby/JoobySiteGenerator.java:186 | the second `replaceAll` leaves a clean string unchanged |
| Slug.CollapseIsRedundant | src/main/java/org/jooby/JoobySiteGenerator.java:185-187 | `id`'s second `replaceAll` never changes anything |
| Slug.IdShape | src/main/java/org/jooby/JoobySiteGenerator.java:185-187 | an id holds only letters and non-repeated hyphens; it keeps the text's letters in order and is empty only for empty text |
| Slug.IdFixedPoints | src/main/java/org/jooby/JoobySiteGenerator.java:185-187 | `id` leaves a string unchanged exactly when the string is clean |
| Slug.IdIdempotent | src/main/java/org/jooby/JoobySiteGenerator.java:185-187 | `id(id(t)) == id(t)` |
| Slug.ReplaceRun | src/main/java/org/jooby/JoobySiteGenerator.java:186 | the first `replaceAll` turns a whole run of non-letters, up to a letter or the end, into a single hyphen |
| Slug.ReplaceAppend | src/main/java/org/jooby/JoobySiteGenerator.java:186 | no match of `[^A-Za-z]+` spans a letter, so the first `replaceAll` of a text split just after a letter is the two halves replaced separately |
| Slug.IdSeparates | src/main/java/org/jooby/JoobySiteGenerator.java:185-187 | each maximal run of non-letters becomes exactly one hyphen in its place: `id(x + run + y) == id(x) + "-" + id(y)` when `x` ends and `y` starts with a letter (or is empty) |
| Slug.IdEnds | src/main/java/org/jooby/JoobySiteGenerator.java:185-187 | leading and trailing hyphens are not trimmed: an id starts (ends) with `-` exactly when the text starts (ends) with a non-letter, and otherwise with that letter |
| Slug.IdExample | src/main/java/org/jooby/JoobySiteGenerator.java:185-187 | `id("A & B") == "A-B"` |
| Resolve.KeyIndex | src/main/java/org/jooby/JoobySiteGenerator.java:196-197 | the position of a key in the table is its first occurrence, or -1 when the key is absent |
| Resolve.PutSpec | src/main/java/org/jooby/JoobySiteGenerator.java:217 | after `put`, the key maps to the new value and every other key to its old value; the key set gains the key and keys stay unique |
| Resolve.PutAllContents | src/main/java/org/jooby/JoobySiteGenerator.java:196 | copying the link table keeps keys unique and adds exactly its keys; other keys keep their values, and each copied key maps to its value |
| Resolve.PutPagesSnoc | src/main/java/org/jooby/JoobySiteGenerator.java:200-218 | one more pass-1 iteration puts the page's pass-1 text under its path |
| Resolve.PutPagesKeys | src/main/java/org/jooby/JoobySiteGenerator.java:200-218 | pass 1 adds exactly the page paths as keys and keeps keys unique |
| Resolve.PutPagesOther | src/main/java/org/jooby/JoobySiteGenerator.java:200-218 | pass 1 leaves every key that is not a page path as it was |
| Resolve.PutPagesLast | src/main/java/org/jooby/JoobySiteGenerator.java:200-218 | a page path maps to the pass-1 text of the last page walked under that path |
| Resolve.Pass1TableContents | src/main/java/org/jooby/JoobySiteGenerator.java:195-218 | the final table has unique keys: the link keys, `toc.md` and the page paths. Each page path maps to its last page's pass-1 text; `toc.md` maps to `""` unless a page has that path; a link key that is no page path keeps its link value |
| Resolve.StripFrontMatterSpec | src/main/java/org/jooby/JoobySiteGenerator.java:211-213 | a text not starting with `---` is kept. Otherwise everything up to the end of the first `---` found from index 1 is dropped, or, when there is none, the first two characters |
| Resolve.ReplaceVariables | src/main/java/org/jooby/JoobySiteGenerator.java:214-216 | the loop over the table's entries equals replacing each entry's placeholder in table order |
| Resolve.ResolveLinks | src/main/java/org/jooby/JoobySiteGenerator.java:204-216 | one pass-1 iteration computes the page's pass-1 text |
| Resolve.CollectVariables | src/main/java/org/jooby/JoobySiteGenerator.java:195-218 | the first loop builds the pass-1 table, whose contents `Pass1TableContents` states |
| Resolve.ResolveAll | src/main/java/org/jooby/JoobySiteGenerator.java:223-234 | one pass-2 iteration computes the page's pass-2 text |
| Resolve.ReplaceContent | src/main/java/org/jooby/JoobySiteGenerator.java:220-239 | the second loop resolves every page, in walk order, against the table it is given, iterated in that table's order |
| Resolve.Pass2PagesAt | src/main/java/org/jooby/JoobySiteGenerator.java:220-239 | pass 2 yields one result per page; the i-th keeps the i-th page's path and has its pass-2 text |
| Resolve.Pass2TableContents | src/main/java/org/jooby/JoobySiteGenerator.java:195-218 | in whatever order pass 2 iterates the table, it sees the link keys, `toc.md` and the page paths, each page path with the pass-1 text of the last page walked under it |
| Resolve.Process | src/main/java/org/jooby/JoobySiteGenerator.java:189-242 | for a link table with unique keys, as a `Map` has, `process` gives the pass-1 table, and every page resolved against that table iterated in the given `HashMap` order, which holds each of its entries exactly once |
| Resolve.TokenNeedsBraces | src/main/java/org/jooby/JoobySiteGenerator.java:215 | a text without `{{` holds no placeholder |
| Resolve.SubstituteWithoutBraces | src/main/java/org/jooby/JoobySiteGenerator.java:232-234 | substitution leaves a text without `{{` unchanged, whatever the table |
| Resolve.SubstituteAbsent | src/main/java/org/jooby/JoobySiteGenerator.java:232-234 | substitution leaves a text unchanged when it holds none of the table's placeholders |
| Resolve.Pass2PlainPage | src/main/java/org/jooby/JoobySiteGenerator.java:223-234 | for a page with no front matter and no placeholder left after appendix expansion and link rewriting, pass 2 gives exactly that expanded, rewritten text |
| Resolve.SubstitutionOrderMatters | src/main/java/org/jooby/JoobySiteGenerator.java:232-234 | the same two entries in the opposite order give different results for the same page |
| Appendix.ConfigFiles | src/main/java/org/jooby/JoobySiteGenerator.java:268-269 | keeps exactly the walked `.conf` and `.properties` files |
| Appendix.ConfigFilesOne | src/main/java/org/jooby/JoobySiteGenerator.java:269 | a single walked file is kept exactly when it is a `.conf` or `.properties` file |
| Appendix.ConfigFilesAppend | src/main/java/org/jooby/JoobySiteGenerator.java:268-269 | the filter keeps walk order and multiplicity: filtering two stretches of a walk is filtering each one |
| Appendix.AppendixListsConfigFiles | src/main/java/org/jooby/JoobySiteGenerator.java:268-273 | for a module with a resources directory, the appendix holds the listing of each configuration file, in walk order: the i-th starts right after the listings before it and a newline |
| Appendix.CollapseBlankLinesHead | src/main/java/org/jooby/JoobySiteGenerator.java:271 | collapsing empties only the empty text and keeps the first character |
| Appendix.CollapseBlankLinesNoTriple | src/main/java/org/jooby/JoobySiteGenerator.java:271 | after collapsing, no three newlines are in a row |
| Appendix.CollapseBlankLinesKeepsText | src/main/java/org/jooby/JoobySiteGenerator.java:271 | collapsing keeps every character that is not a newline, in order |
| Appendix.CollapseBlankLinesFixes | src/main/java/org/jooby/JoobySiteGenerator.java:271 | a text with no three newlines in a row is unchanged |
| Appendix.CollapseBlankLinesIdempotent | src/main/java/org/jooby/JoobySiteGenerator.java:271 | collapsing twice is collapsing once |
| Appendix.JoinEmpty | src/main/java/org/jooby/JoobySiteGenerator.java:273 | joining non-empty listings is empty exactly when there are none |
| Strings.JoinPart | src/main/java/org/jooby/JoobySiteGenerator.java:273 | `Collectors.joining` keeps the parts in order: each part starts right after the join of the parts before it and one separator |
| Appendix.AppendixEmpty | src/main/java/org/jooby/JoobySiteGenerator.java:257-277 | the appendix is `""` exactly when the module has no resources directory or the directory holds no configuration file |
| Appendix.HeadingMarkOf | src/main/java/org/jooby/JoobySiteGenerator.java:267 | the heading is `#` exactly for `doc/index.md`, whether at the top of the tree or nested, and `##` otherwise |
| Appendix.ModuleNameOf | src/main/java/org/jooby/JoobySiteGenerator.java:262-265 | a page in directory `seg` belongs to module `jooby` when `seg` is `doc`, else to `jooby-<seg>` |
| Appendix.ModuleNameAtRoot | src/main/java/org/jooby/JoobySiteGenerator.java:262-265 | a page at the top of the tree belongs to `jooby-md` |
| Sections.ResetLevel | src/main/java/org/jooby/JoobySiteGenerator.java:116-120 | the loop replaces every h`level` element by a fresh h`level+1` that keeps only its text, and leaves the rest |
| Sections.ShiftedSpec | src/main/java/org/jooby/JoobySiteGenerator.java:115-125 | after the four passes, each h1-h4 sits exactly one level deeper and nothing cascades; `index.md` is untouched |
| Sections.SpanEnd | src/main/java/org/jooby/JoobySiteGenerator.java:144-146 | the sibling walk stops at the first h2 or at the end, and no element it passes is an h2 |
| Sections.DetachOne | src/main/java/org/jooby/JoobySiteGenerator.java:147-153 | one sibling is emitted with its id renamed when it is an h3, and only an h3 contributes a nested entry |
| Sections.DetachSiblings | src/main/java/org/jooby/JoobySiteGenerator.java:144-157 | the sibling loop detaches exactly the elements up to the next h2; it emits their HTML with each h3 renamed, plus one nested entry per h3 |
| Sections.BuildSection | src/main/java/org/jooby/JoobySiteGenerator.java:132-173 | one iteration yields the section div and the table-of-contents entry of the h2 and its siblings, and leaves the elements after the next h2 |
| Sections.FirstH2 | src/main/java/org/jooby/JoobySiteGenerator.java:131 | finds the first h2 of the body, or its end |
| Sections.Restructure | src/main/java/org/jooby/JoobySiteGenerator.java:127-175 | the loop yields the rendered body, the table of contents and the title of the body's sections |
| Sections.MarkdownToHtml | src/main/java/org/jooby/JoobySiteGenerator.java:101-183 | the three results are the body HTML, the table of contents and the title of the pre-edited, rendered, shifted page |
| Sections.Partition | src/main/java/org/jooby/JoobySiteGenerator.java:131-157 | the sections partition the body in order. Elements before the first h2 hold no h2; each section is an h2 followed by siblings that are not h2s |
| Sections.SplitSectionsFlatten | src/main/java/org/jooby/JoobySiteGenerator.java:144-157 | laying the sections out again gives back the elements they were cut from |
| Sections.SectionsOfBody | src/main/java/org/jooby/JoobySiteGenerator.java:131 | there are no sections exactly when there is no h2, and the first section opens at the first h2 |
| Sections.TitleIsFirstH2 | src/main/java/org/jooby/JoobySiteGenerator.java:128-136 | the title is null exactly when the body has no h2; otherwise it is the text of the first h2 |
| Sections.TocEmpty | src/main/java/org/jooby/JoobySiteGenerator.java:127-175 | the table of contents is `<ul>\n</ul>` exactly when there is no section |
| Sections.OnlyFirstTitleActive | src/main/java/org/jooby/JoobySiteGenerator.java:130-140 | a section's title div carries `active` exactly when it is the first section |
| Sections.OnlyFirstEntryActive | src/main/java/org/jooby/JoobySiteGenerator.java:164-173 | a table-of-contents entry is `active` exactly when it is the first |
| Sections.SubTocAppend | src/main/java/org/jooby/JoobySiteGenerator.java:145-152 | the nested table of contents of two runs of siblings is the concatenation of theirs |
| Sections.SubTocEmpty | src/main/java/org/jooby/JoobySiteGenerator.java:145-152 | a nested table of contents is empty exactly when the section has no h3 |
| Sections.NestedListIffH3 | src/main/java/org/jooby/JoobySiteGenerator.java:169-171 | a table-of-contents entry holds a nested list exactly when its section has an h3 |
| Sections.H3AnchorsMatchLinks | src/main/java/org/jooby/JoobySiteGenerator.java:147-152 | each h3 gets the id `<sid>-<id(text)>`, the nested table of contents links to that same anchor, and other elements are unchanged |
| Sections.SectionAnchorMatchesLink | src/main/java/org/jooby/JoobySiteGenerator.java:137-166 | a section div's id is `id` of its h2's text, and its table-of-contents entry links to that anchor |
| Site.FileName | src/main/java/org/jooby/JoobySiteGenerator.java:47 | the file name is the whole last component of the path: a suffix with no `/`, preceded by a `/` or by nothing |
| Site.ChooseTemplate | src/main/java/org/jooby/JoobySiteGenerator.java:90-99 | a template is found exactly when one exists under the name, or the name is under `doc/` and `doc/mod` exists. When the named template exists it is the one chosen; `doc/mod` is chosen only when it does not |
| Site.PageOfSpec | src/main/java/org/jooby/JoobySiteGenerator.java:46-69 | a file yields a page exactly when it passes the filter and has a template; the page is written to the file's output path, with the template named after the file when that exists and with `doc/mod` otherwise |
| Site.RenderPage | src/main/java/org/jooby/JoobySiteGenerator.java:53-72 | one iteration of the page loop yields the file's page, or nothing when it is skipped |
| Site.Generate | src/main/java/org/jooby/JoobySiteGenerator.java:46-74 | the page loop yields the pages of the walk, in walk order |
| Site.SitePagesContents | src/main/java/org/jooby/JoobySiteGenerator.java:46-74 | every page comes from a walked file, every file that yields a page is published, and there are no more pages than files |
| Site.TopReadmeSelected | src/main/java/org/jooby/JoobySiteGenerator.java:46-49 | a `README.md` whose walked path has more than one component is a page |
| Site.DirTemplateName | src/main/java/org/jooby/JoobySiteGenerator.java:55 | a directory's `README.md` and its `index.md` both take the template `<dir>index` |
| Site.OutDirKept | src/main/java/org/jooby/JoobySiteGenerator.java:65-67 | the renaming never touches the `target/gh-pages/` prefix |
| Site.ReadmeRenamed | src/main/java/org/jooby/JoobySiteGenerator.java:65-67 | `<dir>README.md` is written to `<dir>index.html` |
| Site.IndexRenamed | src/main/java/org/jooby/JoobySiteGenerator.java:65-67 | `<dir>index.md` is written to `<dir>index.html` |
| Site.DirOutputPath | src/main/java/org/jooby/JoobySiteGenerator.java:65-67 | a directory's `README.md` and `index.md` are both written to `target/gh-pages/<dir>index.html` |

## Left out

- Reading and writing files, creating directories, and the directory walks.
  - The pages of `process` are given as a sequence of (path, text) in walk order.
  - The resources of each module are given as a map from module name to the files met in walk order.
  - The site's source files are given as a sequence in walk order, so the `.sorted()` of `main` is assumed already applied.
- A file's text is taken as its lines joined by `"\n"`. The line splitting of `readAllLines` is not modelled.
- The JRuby Markdown renderer becomes the parameter `render`, which maps Markdown text to the top-level elements of the rendered body.
- Jsoup is replaced by a flat sequence of top-level elements.
  - `Outer` and `BodyHtml` stand in for Jsoup's serialisation: no escaping, no pretty-printing, and no re-parsing of the HTML set on a section div.
  - Removing a detached sibling is modelled as dropping it from the front of the remaining elements.
- The copy bar prepended to `div.highlighter-rouge` elements is not modelled, because it is a cosmetic insertion with no effect on sectioning.
- Handlebars rendering and the `.trim()` of its output are not modelled. A page is the data handed to the template: `main`, `toc`, the page header, the output path and the chosen template. The available templates are a parameter.
- Copying the static assets is not modelled, because it is plain file copying.
- `links()` is not modelled: the link table is a parameter, and every lemma holds for every link table.
- Resolve.Process: the hash-bucket order in which a `java.util.HashMap` iterates is not computed. Pass 2's order is the `iteration` parameter, which need only hold each entry of the table once. The order of the link table in pass 1 is the order of `links`.
- Logging (`System.out`, `System.err`) is not modelled.
- Java strings are sequences of UTF-16 code units. The model uses Dafny characters, which makes no difference to the ASCII patterns involved.
- Site.TopReadmeSelected: the `getNameCount()` of a walked path is a field of the source file, not derived from the path. The lemma shows that the filter admits a top-level `README.md` whenever that count exceeds one, which it always does under `target/md`.
- Site.DirTemplateName: stated only for directories whose names hold no `.md` or `README`, because `String.replace` rewrites those too.
- Site.DirOutputPath: stated only for directories whose names hold no `README.md` or `index.md`, for the same reason.
