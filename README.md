# RepoLingo core, modelled in Dafny

RepoLingo clones a GitHub repository, walks its files and turns them into one
document for a language model. The document can be XML, Markdown or plain text.
This project models the part of the server that decides what goes into that
document and how the document is written:

- **Ignore rules** (`server/utils/ignorePatterns.js`). This covers the list of
  standard patterns and the glob-to-regex translation. That translation
  replaces every `*` by `.*` and then every `.` by `\.`. It also covers the
  unanchored `RegExp.prototype.test` and `shouldIgnore`, which merges the
  ignore-file rules, the standard rules and the user's custom lines
  (module `IgnorePatterns`).
- **Ignore-file rules** (`server/utils/gitUtils.js`, `getGitignorePatterns`).
  The file is split into lines. Blank lines and lines starting with `#` are
  dropped. Every other line, untrimmed, is translated the same way (module
  `GitUtils`).
- **The walk** (`fetchContents` in `server/api/github-repo.js`). It is modelled
  as a loop over an in-memory directory listing (module `RepoTree`). The walk
  does these things:
  - skips ignored paths;
  - recurses into directories;
  - keeps files of at most `fileSizeLimit × 1024` bytes that are not binary.
- **The XML serializer of the repository endpoint**
  (`server/utils/xmlFormatter.js`, module `XmlFormatter`). It covers:
  - entity escaping and `]]>` splitting for CDATA;
  - the ASCII tree outline (`formatTree`, a loop);
  - the nested `<directory>`/`<file>` elements;
  - the whole `<llm_context>` document.
- **The multi-format serializer** (`server/utils/formatter.js`, module
  `Formatter`). It covers:
  - an XML variant with an XML declaration;
  - Markdown and plain text, written by `forEach` loops over the tree;
  - `formatOutput`, which picks the serializer by name.

Loops in the source are methods with `for` loops. Each is proved equal to a
function that says what it builds. Expressions in the source are functions.
Each operation is paired with something it can be checked against:

- escaping is paired with a decoder (`Unescape`);
- CDATA splitting is paired with a reader of consecutive CDATA sections
  (`ReadCData`);
- indentation is paired with de-indentation;
- `test` is paired with a declarative matching relation (`Full`, `MatchesAt`);
- the walk is paired with the positions of the entries it keeps;
- the outline is paired with a list of lines in pre-order.

Behaviour of the code that the model keeps as written:

- **`*` matches only dots.** The translation rewrites `*` to `.*` and then
  escapes every dot, including the one it just wrote. So `*` becomes `\.*`,
  which means "zero or more dots", not "any characters". `*.log` matches
  `a.log` only because `.log` itself occurs in it. `a*b` does not match `axb`.
  All three rule sources share this translation, and the walk depends on it.
  The model keeps it; `IgnoreProperties.CustomStarMatchesDotsOnly` shows the
  effect.
- **Rules are unanchored.** No rule source anchors its regex, so every pattern
  matches anywhere in the path. The standard rule `dist` ignores `distance.js`,
  and `out` ignores `src/layout.vue`.
- **Ignore-file lines are not trimmed.** A line `dist\r` from a file with
  Windows line endings keeps its carriage return. It then matches no path
  without one.
- **File contents in the multi-format XML are not CDATA-escaped.** The
  `formatContents` of `formatter.js` puts the content lines into the CDATA
  section raw, so a content holding `]]>` ends the section early (see
  "Findings"). The model's `Formatter.Xml` writes the document this way.
- **Directory closing tags share a line.** In `formatContents` the closing
  `</directory>` tag follows the last child's element with no newline in
  between.

## Model

| member | source | states |
|---|---|---|
| IgnorePatterns.Translate | server/utils/ignorePatterns.js:16-17 | `p.replace(/\*/g, '.*').replace(/\./g, '\\.')` as two passes over the pattern; `TranslateIsCharwise` and `ParseTranslate` state what it gives. |
| IgnorePatterns.TranslateIsCharwise | server/utils/ignorePatterns.js:16-17 | The two-pass `replace` chain equals a per-character translation: `*` becomes `\.*`, `.` becomes `\.`, every other character stays. |
| IgnorePatterns.ParseTranslate | server/utils/ignorePatterns.js:16-17 | For a pattern with no regex metacharacter except `*` and `.`, the translated source is a regex of literals and dot-stars: one `DotStar` atom per `*`, one literal per other character. |
| IgnorePatterns.CompileGlobs | server/utils/ignorePatterns.js:17 | `patterns.map(p => new RegExp(translate(p)))`: one compiled regex per pattern, in order, each the parse of that pattern's translation. |
| IgnorePatterns.StandardRegexes | server/utils/ignorePatterns.js:1-10 | All 23 standard patterns translate to regexes of the dialect, one per pattern in list order. |
| IgnorePatterns.Test | server/utils/ignorePatterns.js:19 | `RegExp.prototype.test` without anchors: a backtracking match tried at every start of the path; `TestIffSubstring` states its meaning. |
| IgnorePatterns.TestIffSubstring | server/utils/ignorePatterns.js:19 | Unanchored `test(path)` holds exactly when some substring `path[i..j]` is matched in full by the regex. |
| IgnorePatterns.TrimmedNonEmpty | server/utils/ignorePatterns.js:13 | No more patterns than lines; every pattern is non-empty and does not start with white space. Which lines they come from is stated by `TrimmedNonEmptyPositions`. |
| IgnoreProperties.TrimmedNonEmptyIsFilter | server/utils/ignorePatterns.js:13 | The one-pass definition equals `lines.map(p => p.trim()).filter(Boolean)` (`Filter` over `TrimEach`). |
| IgnoreProperties.TrimmedNonEmptyPositions | server/utils/ignorePatterns.js:13 | Pattern `m` is the trimmed line `idx[m]`, the positions strictly increase, and a line gives a pattern exactly when its trimmed form is not empty. |
| IgnorePatterns.AnyMatchesIff | server/utils/ignorePatterns.js:19 | `some(pattern => pattern.test(path))` holds exactly when one of the patterns tests true. |
| IgnorePatterns.ShouldIgnore | server/utils/ignorePatterns.js:12-20 | `shouldIgnore`: `some` over the ignore-file regexes if enabled, the standard ones if enabled, then the custom ones; `ShouldIgnoreBySource` and `ShouldIgnoreIff` state its meaning. |
| IgnorePatterns.ShouldIgnoreBySource | server/utils/ignorePatterns.js:12-20 | `shouldIgnore` holds exactly when an enabled ignore-file regex, an enabled standard regex or a custom regex tests true on the path. |
| IgnorePatterns.ShouldIgnoreIff | server/utils/ignorePatterns.js:14-19 | `shouldIgnore` holds exactly when some regex of the concatenated list matches a substring of the path. |
| IgnoreProperties.CustomPatternsEmptyIffBlank | server/utils/ignorePatterns.js:13 | The custom text yields no patterns exactly when it is all white space. |
| IgnoreProperties.CustomPatternsAppendLine | server/utils/ignorePatterns.js:13 | Appending a line to the custom text appends that line's patterns and changes no earlier pattern. |
| IgnoreProperties.NoRulesIgnoreNothing | server/utils/ignorePatterns.js:14-19 | With both flags off and blank custom text, no path is ignored, whatever the ignore-file regexes are. |
| IgnoreProperties.EnablingFlagsIsMonotone | server/utils/ignorePatterns.js:15-16 | Turning on `useGitignore` or `useStandardIgnore` never un-ignores a path. |
| IgnoreProperties.AddingCustomLineIsMonotone | server/utils/ignorePatterns.js:13-19 | Adding a custom line never un-ignores a path. |
| IgnoreProperties.StarOnlyPatternIgnoresEverything | server/utils/ignorePatterns.js:17-19 | A custom pattern made only of `*` matches the empty substring, so every path is ignored. |
| IgnoreProperties.StandardLiteralIgnores | server/utils/ignorePatterns.js:1-19 | A standard pattern without `*` ignores every path that contains it anywhere. |
| IgnoreProperties.StandardDistIgnoresDistanceJs | server/utils/ignorePatterns.js:7 | With standard rules on, `distance.js` is ignored because of `dist`. |
| IgnoreProperties.StandardOutIgnoresLayoutVue | server/utils/ignorePatterns.js:7 | With standard rules on, `src/layout.vue` is ignored because of `out`. |
| IgnoreProperties.SingleCustomLine | server/utils/ignorePatterns.js:13-17 | A single custom line with no surrounding white space compiles to exactly one regex, its own glob. |
| IgnoreProperties.CustomStarMatchesDotsOnly | server/utils/ignorePatterns.js:17 | The custom pattern `a*b` does not ignore `axb` but does ignore `a..b`: `*` stands for zero or more dots. |
| GitUtils.KeepLine | server/utils/gitUtils.js:38 | The filter `line.trim() && !line.startsWith('#')`; `KeepLineIff` states it in terms of white space and the first character. |
| GitUtils.GitignoreLines | server/utils/gitUtils.js:37-38 | Every kept line passes `KeepLine`; `GitignoreLinesPositions` states which lines are kept and in what order. |
| GitUtils.GitignorePatterns | server/utils/gitUtils.js:34-43 | A missing or unreadable file gives no regexes. Otherwise there is one regex per kept line, in file order, each the parse of that line's translation. |
| GitUtilsProperties.GitignoreLinesPositions | server/utils/gitUtils.js:37-38 | The kept lines are the passing lines, untrimmed, at strictly increasing positions. A line is kept exactly when it passes the filter. |
| GitUtilsProperties.GitignoreLinesMembership | server/utils/gitUtils.js:37-38 | A string is a kept line exactly when it is a line of the file that passes the filter. |
| GitUtilsProperties.GitignoreLinesAppend | server/utils/gitUtils.js:37-38 | The kept lines of `a + "\n" + b` are those of `a` followed by those of `b`. |
| GitUtilsProperties.KeepLineIff | server/utils/gitUtils.js:38 | A line is kept exactly when it is not all white space and its first character is not `#`. |
| GitUtilsProperties.CommentOnlyAtFirstColumn | server/utils/gitUtils.js:38 | `  #x` is kept, `#x` and a blank line are not. |
| GitUtilsProperties.UntrimmedLineKeepsCarriageReturn | server/utils/gitUtils.js:37-39 | The regex of a kept line `dist\r` tests false on every path without a carriage return. |
| RepoTree.Walk | server/api/github-repo.js:10-34 | No more nodes than entries; `WalkPositions`, `WalkAppend` and `FetchedNoneIgnored` state which entries become which nodes. |
| RepoTree.FetchContents | server/api/github-repo.js:6-37 | The loop with its `continue`s returns exactly the walk of the listing under the request's ignore rule and size limit. |
| RepoTreeProperties.WalkPositions | server/api/github-repo.js:10-34 | The result has one node per admitted entry, in listing order. An entry is admitted exactly when its joined path is not ignored and it is a directory or a non-binary file within the limit. |
| RepoTreeProperties.WalkAppend | server/api/github-repo.js:10-34 | Walking two listings one after the other gives the two results concatenated. |
| RepoTreeProperties.FetchedNoneIgnored | server/api/github-repo.js:11-13 | No node anywhere in the result has an ignored path, and every path lies under the current directory. |
| RepoTreeProperties.IgnoredDirectoryNotVisited | server/api/github-repo.js:13-20 | What an ignored directory contains has no effect on the result. |
| RepoTreeProperties.EmptyDirectoryKept | server/api/github-repo.js:15-21 | A non-ignored empty directory is kept as a directory node with no children. |
| RepoTreeProperties.SizeLimitIsInclusive | server/api/github-repo.js:25 | With a limit of 1 kB, a 1024-byte file is kept and a 2048-byte file is dropped. |
| RepoTreeProperties.BinaryFileSkipped | server/api/github-repo.js:26-29 | A binary file is never kept, whatever its size. |
| XmlFormatter.Escape | server/utils/xmlFormatter.js:1 | The escaped text holds no `<`, `>`, `'` or `"`. |
| XmlProperties.UnescapeEscape | server/utils/xmlFormatter.js:1 | Decoding the five entities gives the original text back. |
| XmlProperties.EscapeAppend | server/utils/xmlFormatter.js:1 | Escaping distributes over concatenation. |
| XmlProperties.EscapeIdentity | server/utils/xmlFormatter.js:1 | Text without the five markup characters is unchanged. |
| XmlProperties.AttributeReadsBack | server/utils/xmlFormatter.js:29-31 | An escaped attribute value holds no `"` and decodes to the value. |
| XmlFormatter.EscapeCData | server/utils/xmlFormatter.js:3-5 | `replace(/]]>/g, ']]]]><![CDATA[>')`, matches found left to right without overlap; `CDataRoundTrip` and `EscapeCDataIdentity` state what it achieves. |
| XmlProperties.CDataRoundTrip | server/utils/xmlFormatter.js:3-5 | A CDATA section holding `escapeCDATA(s)`, read as consecutive sections each ending at its first `]]>`, gives `s` back exactly. |
| XmlProperties.EscapeCDataIdentity | server/utils/xmlFormatter.js:3-5 | Text without `]]>` is unchanged. |
| XmlFormatter.FormatTree | server/utils/xmlFormatter.js:7-24 | The `forEach` that appends to `tree` builds `Tree(contents, indent)`. That is a `.` line at the top level, then for each item its line and, for a directory, its subtree. |
| TreeProperties.TreeItemsOutline | server/utils/xmlFormatter.js:11-22 | The text below the `.` line is the pre-order list of node lines, each followed by a newline. |
| TreeProperties.OutlineLength | server/utils/xmlFormatter.js:11-22 | There is exactly one outline line per node of the tree. |
| TreeProperties.TreeLines | server/utils/xmlFormatter.js:7-24 | When no name holds a newline, splitting the top-level outline gives `.`, the node lines in pre-order and one trailing empty piece: the node count plus two pieces. |
| XmlFormatter.ItemXml | server/utils/xmlFormatter.js:26-34 | The element of one item: attributes escaped, content through `escapeCDATA`, a directory's children one level deeper; `FileElementDecodes` and `DirectoryElementDecodes` state that it reads back. |
| XmlFormatter.ItemsXml | server/utils/xmlFormatter.js:26-35 | `items.map(...)` gives one element per item, in order. |
| XmlFormatter.ContentsXml | server/utils/xmlFormatter.js:26-35 | `formatContents`: the elements joined by newlines; `DirectoryCloseFollowsLastChild` states where a directory's closing tag ends up. |
| XmlFormatter.FormatXml | server/utils/xmlFormatter.js:37-65 | `formatXml` with the fetch date as a parameter; `TreeBlockOnlyWhenAsked` and `TreeSectionHoldsTree` state its shape. |
| XmlDocumentProperties.FileElementDecodes | server/utils/xmlFormatter.js:30-33 | A file element reads back. Its attribute values hold no `"` and decode to the name and path. Its content sections read back to the file's text. |
| XmlDocumentProperties.DirectoryElementDecodes | server/utils/xmlFormatter.js:29 | A directory element's attribute values hold no `"` and decode to the name and path, and its children's elements stand between the open and close tags. |
| XmlDocumentProperties.ItemXmlEndsWithTag | server/utils/xmlFormatter.js:26-35 | Every element ends with the `>` of its closing tag. |
| XmlDocumentProperties.DirectoryCloseFollowsLastChild | server/utils/xmlFormatter.js:29 | A non-empty directory's element ends with its last child's element, then the indentation and `</directory>`, with no newline between them. |
| XmlDocumentProperties.TreeBlockOnlyWhenAsked | server/utils/xmlFormatter.js:37-65 | The document is the metadata head followed by the contents block. With `includeTree` it is the same text with the `<tree_structure>` block inserted right after `</metadata>`. |
| XmlDocumentProperties.TreeSectionHoldsTree | server/utils/xmlFormatter.js:40-49 | The tree block holds the outline with every line indented six spaces, and removing that indentation gives the outline back. |
| Formatter.FormatItemMarkdown | server/utils/formatter.js:56-73 | The appending code returns `ItemMarkdown(item, depth)`. For a directory that is a bold bullet followed by its children one level deeper. For a file it is a code-span bullet and the content in a fenced block. |
| Formatter.FormatMarkdown | server/utils/formatter.js:38-54 | The appending code returns the Markdown document: title, branch, the optional structure block, then every item in order. |
| Formatter.FormatItemPlaintext | server/utils/formatter.js:93-110 | The appending code returns `ItemPlaintext(item, depth)`: a name line, then the children, or the content between two 20-dash rules. |
| Formatter.FormatPlaintext | server/utils/formatter.js:75-91 | The appending code returns the plain-text document: the header lines, the optional structure block, then every item in order. |
| Formatter.ContentSectionAsWritten | server/utils/formatter.js:137-139 | The CDATA section as the code writes it: the content lines indented four spaces past the element, with no `escapeCDATA`; `AsWrittenSectionReadsBackIff` states when it reads back. |
| Formatter.ContentSection | server/utils/formatter.js:137-139 | The corrected section, with `escapeCDATA` applied to its text; no operation uses it, and `ContentSectionReadsBack` states that it always reads back. |
| Formatter.ItemXml | server/utils/formatter.js:131-141 | The element of one item as the code writes it, the file case with `ContentSectionAsWritten`; `UnescapedContentBreaksSection` states what it builds for the content `]]>`. |
| Formatter.ItemsXml | server/utils/formatter.js:131-142 | One element per item, in order, each the element the code writes for it (file contents raw inside CDATA). |
| Formatter.ContentsXml | server/utils/formatter.js:131-142 | `formatContents`: those elements joined by newlines. |
| Formatter.Xml | server/utils/formatter.js:7-36 | `formatXml` with the fetch date as a parameter: the XML declaration, then the document of the other serializer's shape with the as-written content sections; `XmlTreeOnlyWhenAsked` states its shape. |
| Formatter.FormatOutput | server/utils/formatter.js:144-155 | `xml`, `markdown` and `plaintext` return the matching document as the code writes it (for `xml`, with file contents raw inside CDATA). Any other name is the error `Unsupported format: <name>`. |
| FormatterProperties.MarkdownTreeOnlyWhenAsked | server/utils/formatter.js:38-48 | The Markdown document starts with its title and branch lines. With `includeTree` it is the same document with the structure block inserted right after them. |
| FormatterProperties.PlaintextTreeOnlyWhenAsked | server/utils/formatter.js:75-85 | The same property for the plain-text document and its `Repository Structure:` block. |
| FormatterProperties.XmlTreeOnlyWhenAsked | server/utils/formatter.js:7-36 | The XML document starts with the XML declaration and the metadata. With `includeTree` it is the same document with the `<tree_structure>` block inserted right after `</metadata>`. |
| FormatterProperties.TreeEndsWithNewline | server/utils/formatter.js:43-45 | The outline always ends with a newline, so the closing code fence starts its own line. |
| FormatterProperties.MarkdownHoldsEveryFile | server/utils/formatter.js:49-69 | Every file anywhere in the tree appears in the Markdown document with its name and its unaltered content in a fenced block. |
| FormatterProperties.PlaintextHoldsEveryFile | server/utils/formatter.js:86-106 | Every file anywhere in the tree appears in the plain-text document with its name and its unaltered content between two rules. |
| FormatterProperties.ContentSectionReadsBack | server/utils/formatter.js:136-140 | With `escapeCDATA` applied, a file's content section reads back to the indented content lines. Removing the indentation gives the content back. |
| FormatterProperties.AsWrittenSectionReadsBackIff | server/utils/formatter.js:136-140 | The section the code writes reads back to its text exactly when that text holds no `]]>`, and a `]]>` in the file's content is always in that text. |
| FormatterProperties.UnescapedContentBreaksSection | server/utils/formatter.js:136-140 | The element the code builds for a file whose content is `]]>` holds the section `<![CDATA[\n    ]]>\n  ]]>`, which cannot be read back. |

## Left out

- Cloning, `git branch`, reading the ignore file and the directory listing, `fs.stat` and `fs.readFile` are I/O. The listing is an in-memory tree of entries, each carrying its size, a binary flag and its text. A failed read of the ignore file is the `None` case of an `Option`.
- `isBinaryFile` is a foreign call, so its verdict is a field of each file entry.
- `path.join` normalisation (`..`, duplicate slashes) is not modelled. Listing names are single path segments, so the join is `cur + "/" + name`, or `name` at the root.
- The fetch date (`new Date().toISOString()`) is a string parameter of the XML functions.
- Every pattern must stay inside the regex dialect that the translation produces from literals, `.` and `*`. A pattern holding another regex metacharacter (`^ $ + ? ( ) [ ] { } | \`) gives a regex the model does not interpret: a full JavaScript regex engine is not modelled. The members below carry a requires for this, which the source does not have.
- IgnorePatterns.ParseTranslate: requires the pattern to be inside the dialect (`InDialect`).
- IgnorePatterns.CompileGlobs: requires every pattern to be inside the dialect.
- IgnorePatterns.ShouldIgnoreBySource: requires every custom line to be inside the dialect (`CustomInDialect`), and so do the other `shouldIgnore` lemmas.
- IgnorePatterns.ShouldIgnoreIff: requires every custom line to be inside the dialect.
- GitUtils.GitignorePatterns: requires every kept line of the file to be inside the dialect.
- RepoTree.FetchContents: requires the custom lines to be inside the dialect (`ValidSettings`).
- Strings are sequences of `char`. Regex character classes, Unicode case rules and the `SyntaxError` that `new RegExp` throws for a malformed pattern are not modelled.
- `fileSizeLimit` is an unbounded integer. JavaScript number coercion of a string or fractional limit is not modelled.
- The Nuxt event handler (`defineEventHandler`), URL parsing, branch fallback, clean-up and the error wrapping in `server/api/github-repo.js` lines 39-76 are not part of this model. The same goes for `cloneRepo`, `getRepoInfo` and `getBranches` in `server/utils/gitUtils.js`.
- `formatter.js` has its own copies of `escapeXml`, `escapeCDATA` and `formatTree`. They are character-for-character the same as those of `xmlFormatter.js`, so each is modelled once (`XmlFormatter.Escape`, `XmlFormatter.EscapeCData`, `XmlFormatter.FormatTree`) and used by both serializers.
- The outline inside `<tree_structure>` is not passed through `escapeCDATA` in either serializer. A file name containing `]]>` would end that section early. The model keeps this as written and proves nothing about reading such a name back.

## Findings

| source | as written | input that shows it | evidently intended | confidence | as-written member | corrected member |
|---|---|---|---|---|---|---|
| server/utils/formatter.js:136-140 | File content is placed in `<![CDATA[ … ]]>` without `escapeCDATA`, although the file defines that function (lines 3-5) and the other serializer applies it to file content. | A file whose content is `]]>`: the section ends at the content's `]]>` and what follows is neither the section's end nor a new section. | The CDATA text passed through `escapeCDATA`, so that every content reads back. | high; not executed | FormatterProperties.UnescapedContentBreaksSection | FormatterProperties.ContentSectionReadsBack |

`Formatter.ItemXml` writes the section as the code does (`Formatter.ContentSectionAsWritten`), and so do `Formatter.Xml` and `Formatter.FormatOutput` for `xml`. `FormatterProperties.AsWrittenSectionReadsBackIff` gives the general case: every file whose content holds `]]>` gets a section that does not read back. The corrected section is `Formatter.ContentSection`, with `escapeCDATA` applied as `xmlFormatter.js` line 32 does; `FormatterProperties.ContentSectionReadsBack` proves that it reads back for every content. No operation of the model uses it.
