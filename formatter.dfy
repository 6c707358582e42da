/** The multi-format serializer: an XML document with an XML declaration,
    a Markdown document and a plain-text document over the same fetched
    tree, chosen by a format name. The tree outline and the two escaping
    functions are the ones of the repository endpoint's XML serializer. */
module Formatter {
  import opened Text
  import opened RepoTree
  import XmlFormatter

  datatype Result = Ok(value: string) | Failure(message: string)

  // ---------------------------------------------------------------------
  // formatContents and formatXml
  // ---------------------------------------------------------------------

  /** The text between `<![CDATA[` and `]]>` in a file element: the
      content on lines of its own, each indented four spaces deeper than
      the element. */
  function CDataText(content: string, indent: nat): string
  {
    "\n" + IndentLines(content, XmlFormatter.Pad(indent) + "    ") + ("\n" + XmlFormatter.Pad(indent) + "  ")
  }

  /** The content section as `formatContents` writes it: the text is not
      passed through `escapeCDATA`. */
  function ContentSectionAsWritten(content: string, indent: nat): string
  {
    "<![CDATA[" + CDataText(content, indent) + "]]>"
  }

  /** The content section with its text passed through `escapeCDATA`, as
      the other serializer does with file contents: the section the
      document evidently intends, which reads back for every content. It
      is not what `formatContents` writes. */
  function ContentSection(content: string, indent: nat): string
  {
    "<![CDATA[" + XmlFormatter.EscapeCData(CDataText(content, indent)) + "]]>"
  }

  /** One element of `formatContents`; a directory's closing tag follows
      its last child's text directly. */
  function ItemXml(item: Item, indent: nat): string
    decreases item, 0
  {
    match item
    case Dir(name, path, children) =>
      XmlFormatter.Pad(indent) + "<directory name=\"" + XmlFormatter.Escape(name) + "\" path=\""
      + XmlFormatter.Escape(path) + "\">\n" + ContentsXml(children, indent + 1)
      + XmlFormatter.Pad(indent) + "</directory>"
    case File(name, path, content) =>
      XmlFormatter.Pad(indent) + "<file name=\"" + XmlFormatter.Escape(name) + "\" path=\""
      + XmlFormatter.Escape(path) + "\">\n" + XmlFormatter.Pad(indent) + "  <content>"
      + ContentSectionAsWritten(content, indent) + "</content>\n" + XmlFormatter.Pad(indent) + "</file>"
  }

  function ItemsXml(items: seq<Item>, indent: nat): (r: seq<string>)
    ensures |r| == |items|
    ensures forall k :: 0 <= k < |r| ==> r[k] == ItemXml(items[k], indent)
    decreases items, 0
  {
    if items == [] then [] else [ItemXml(items[0], indent)] + ItemsXml(items[1..], indent)
  }

  /** `formatContents(items, indent)`: the elements joined by newlines. */
  function ContentsXml(items: seq<Item>, indent: nat): string
    decreases items, 1
  {
    Join(ItemsXml(items, indent), "\n")
  }

  const XmlDeclaration: string := "<?xml version=\"1.0\" encoding=\"UTF-8\"?>\n"

  /** The `<contents>` block and the closing tags. */
  function XmlBody(contents: seq<Item>): string
  {
    "\n    <contents>\n" + ContentsXml(contents, 3) + "\n    </contents>\n  </repository>\n</llm_context>"
  }

  /** `formatXml` with the fetch date supplied by the caller. */
  function Xml(contents: seq<Item>, owner: string, repo: string, branch: string,
               includeTree: bool, fetchDate: string): string
  {
    XmlDeclaration + XmlFormatter.XmlHead(owner, repo, branch, fetchDate)
    + (if includeTree then XmlFormatter.TreeSection(contents) else "")
    + XmlBody(contents)
  }

  // ---------------------------------------------------------------------
  // formatMarkdown
  // ---------------------------------------------------------------------

  /** What `formatItemMarkdown(item, depth)` returns: a bullet with the
      name, then for a directory its children one level deeper, for a file
      its content in a fenced code block. */
  function ItemMarkdown(item: Item, depth: nat): string
    decreases item, 0, 0
  {
    match item
    case Dir(name, _, children) =>
      XmlFormatter.Pad(depth) + "- **" + name + "/**\n" + ItemsMarkdown(children, |children|, depth + 1)
    case File(name, _, content) =>
      XmlFormatter.Pad(depth) + FileMarkdown(name, content)
  }

  /** A file's bullet and fenced code block, after the indentation. */
  function FileMarkdown(name: string, content: string): string
  {
    "- `" + name + "`\n\n" + "```\n" + content + "\n```\n\n"
  }

  /** The first `n` items, each rendered by `ItemMarkdown`, one after
      another. */
  function ItemsMarkdown(items: seq<Item>, n: nat, depth: nat): string
    requires n <= |items|
    decreases items, 1, n
  {
    if n == 0 then [] else ItemsMarkdown(items, n - 1, depth) + ItemMarkdown(items[n - 1], depth)
  }

  function MarkdownHeader(owner: string, repo: string, branch: string): string
  {
    "# " + owner + "/" + repo + "\n\n" + "Branch: " + branch + "\n\n"
  }

  function MarkdownTree(contents: seq<Item>): string
  {
    "## Repository Structure\n\n```\n" + XmlFormatter.Tree(contents, 0) + "```\n\n"
  }

  /** What `formatMarkdown` returns. */
  function Markdown(contents: seq<Item>, owner: string, repo: string, branch: string,
                    includeTree: bool): string
  {
    MarkdownHeader(owner, repo, branch)
    + (if includeTree then MarkdownTree(contents) else "")
    + "## File Contents\n\n" + ItemsMarkdown(contents, |contents|, 0)
  }

  /** `formatItemMarkdown`, appending to `output` piece by piece. */
  method FormatItemMarkdown(item: Item, depth: nat) returns (output: string)
    ensures output == ItemMarkdown(item, depth)
    decreases item
  {
    output := "";
    var indent := Repeat("  ", depth);
    if item.Dir? {
      output := output + indent + "- **" + item.name + "/**\n";
      ghost var header := output;
      for i := 0 to |item.contents|
        invariant output == header + ItemsMarkdown(item.contents, i, depth + 1)
      {
        var sub := FormatItemMarkdown(item.contents[i], depth + 1);
        AppendAssoc(header, ItemsMarkdown(item.contents, i, depth + 1), sub);
        output := output + sub;
      }
    } else {
      output := output + indent + "- `" + item.name + "`\n\n";
      output := output + "```\n";
      output := output + item.content;
      output := output + "\n```\n\n";
      FileMarkdownPieces(indent, item.name, item.content);
    }
  }

  /** The pieces `formatItemMarkdown` appends for a file make up
      `FileMarkdown` after the indentation. */
  lemma FileMarkdownPieces(indent: string, name: string, content: string)
    ensures "" + indent + "- `" + name + "`\n\n" + "```\n" + content + "\n```\n\n"
         == indent + FileMarkdown(name, content)
  {
    var head := "- `" + name + "`\n\n";
    assert "" + indent + head == indent + head;
    AppendAssoc(indent, head, "```\n");
    AppendAssoc(indent, head + "```\n", content);
    AppendAssoc(indent, head + "```\n" + content, "\n```\n\n");
  }

  /** `formatMarkdown`, appending to `output` piece by piece. */
  method FormatMarkdown(contents: seq<Item>, owner: string, repo: string, branch: string,
                        includeTree: bool) returns (output: string)
    ensures output == Markdown(contents, owner, repo, branch, includeTree)
  {
    output := "# " + owner + "/" + repo + "\n\n";
    output := output + "Branch: " + branch + "\n\n";
    assert output == MarkdownHeader(owner, repo, branch);
    if includeTree {
      output := output + "## Repository Structure\n\n```\n";
      var tree := XmlFormatter.FormatTree(contents, 0);
      output := output + tree;
      output := output + "```\n\n";
      AppendAssoc(MarkdownHeader(owner, repo, branch), "## Repository Structure\n\n```\n", tree);
      AppendAssoc(MarkdownHeader(owner, repo, branch), "## Repository Structure\n\n```\n" + tree, "```\n\n");
    }
    assert output == MarkdownHeader(owner, repo, branch) + (if includeTree then MarkdownTree(contents) else "");
    output := output + "## File Contents\n\n";
    ghost var header := output;
    for i := 0 to |contents|
      invariant output == header + ItemsMarkdown(contents, i, 0)
    {
      var sub := FormatItemMarkdown(contents[i], 0);
      AppendAssoc(header, ItemsMarkdown(contents, i, 0), sub);
      output := output + sub;
    }
  }

  // ---------------------------------------------------------------------
  // formatPlaintext
  // ---------------------------------------------------------------------

  const Rule: string := "--------------------"

  /** What `formatItemPlaintext(item, depth)` returns: the name (with `/`
      for a directory), then the children one level deeper, or the content
      between two rules of twenty dashes. */
  function ItemPlaintext(item: Item, depth: nat): string
    decreases item, 0, 0
  {
    match item
    case Dir(name, _, children) =>
      XmlFormatter.Pad(depth) + name + "/\n" + ItemsPlaintext(children, |children|, depth + 1)
    case File(name, _, content) =>
      XmlFormatter.Pad(depth) + FilePlaintext(name, content)
  }

  /** A file's name and content between two rules, after the
      indentation. */
  function FilePlaintext(name: string, content: string): string
  {
    name + "\n" + Rule + "\n" + content + "\n" + Rule + "\n\n"
  }

  function ItemsPlaintext(items: seq<Item>, n: nat, depth: nat): string
    requires n <= |items|
    decreases items, 1, n
  {
    if n == 0 then [] else ItemsPlaintext(items, n - 1, depth) + ItemPlaintext(items[n - 1], depth)
  }

  function PlaintextHeader(owner: string, repo: string, branch: string): string
  {
    "Repository: " + owner + "/" + repo + "\n" + "Branch: " + branch + "\n\n"
  }

  function PlaintextTree(contents: seq<Item>): string
  {
    "Repository Structure:\n\n" + XmlFormatter.Tree(contents, 0) + "\n\n"
  }

  /** What `formatPlaintext` returns. */
  function Plaintext(contents: seq<Item>, owner: string, repo: string, branch: string,
                     includeTree: bool): string
  {
    PlaintextHeader(owner, repo, branch)
    + (if includeTree then PlaintextTree(contents) else "")
    + "File Contents:\n\n" + ItemsPlaintext(contents, |contents|, 0)
  }

  /** `formatItemPlaintext`, appending to `output` piece by piece. */
  method FormatItemPlaintext(item: Item, depth: nat) returns (output: string)
    ensures output == ItemPlaintext(item, depth)
    decreases item
  {
    output := "";
    var indent := Repeat("  ", depth);
    if item.Dir? {
      output := output + indent + item.name + "/\n";
      ghost var header := output;
      for i := 0 to |item.contents|
        invariant output == header + ItemsPlaintext(item.contents, i, depth + 1)
      {
        var sub := FormatItemPlaintext(item.contents[i], depth + 1);
        AppendAssoc(header, ItemsPlaintext(item.contents, i, depth + 1), sub);
        output := output + sub;
      }
    } else {
      output := output + indent + item.name + "\n";
      output := output + "--------------------\n";
      output := output + item.content;
      output := output + "\n--------------------\n\n";
      FilePlaintextPieces(indent, item.name, item.content);
    }
  }

  /** The pieces `formatItemPlaintext` appends for a file make up
      `FilePlaintext` after the indentation. */
  lemma FilePlaintextPieces(indent: string, name: string, content: string)
    ensures "" + indent + name + "\n" + "--------------------\n" + content + "\n--------------------\n\n"
         == indent + FilePlaintext(name, content)
  {
    var head := name + "\n";
    assert "" + indent + name + "\n" == indent + head;
    assert "--------------------\n" == Rule + "\n";
    assert "\n--------------------\n\n" == "\n" + Rule + "\n\n";
    AppendAssoc(indent, head, Rule + "\n");
    AppendAssoc(indent, head + (Rule + "\n"), content);
    AppendAssoc(indent, head + (Rule + "\n") + content, "\n" + Rule + "\n\n");
  }

  /** `formatPlaintext`, appending to `output` piece by piece. */
  method FormatPlaintext(contents: seq<Item>, owner: string, repo: string, branch: string,
                         includeTree: bool) returns (output: string)
    ensures output == Plaintext(contents, owner, repo, branch, includeTree)
  {
    output := "Repository: " + owner + "/" + repo + "\n";
    output := output + "Branch: " + branch + "\n\n";
    assert output == PlaintextHeader(owner, repo, branch);
    if includeTree {
      output := output + "Repository Structure:\n\n";
      var tree := XmlFormatter.FormatTree(contents, 0);
      output := output + tree;
      output := output + "\n\n";
      AppendAssoc(PlaintextHeader(owner, repo, branch), "Repository Structure:\n\n", tree);
      AppendAssoc(PlaintextHeader(owner, repo, branch), "Repository Structure:\n\n" + tree, "\n\n");
    }
    assert output == PlaintextHeader(owner, repo, branch) + (if includeTree then PlaintextTree(contents) else "");
    output := output + "File Contents:\n\n";
    ghost var header := output;
    for i := 0 to |contents|
      invariant output == header + ItemsPlaintext(contents, i, 0)
    {
      var sub := FormatItemPlaintext(contents[i], 0);
      AppendAssoc(header, ItemsPlaintext(contents, i, 0), sub);
      output := output + sub;
    }
  }

  // ---------------------------------------------------------------------
  // formatOutput
  // ---------------------------------------------------------------------

  /** `formatOutput`: `xml`, `markdown` and `plaintext` select a
      serializer; any other name is an error naming it. */
  method FormatOutput(contents: seq<Item>, owner: string, repo: string, branch: string,
                      includeTree: bool, format: string, fetchDate: string) returns (r: Result)
    ensures format == "xml" ==> r == Ok(Xml(contents, owner, repo, branch, includeTree, fetchDate))
    ensures format == "markdown" ==> r == Ok(Markdown(contents, owner, repo, branch, includeTree))
    ensures format == "plaintext" ==> r == Ok(Plaintext(contents, owner, repo, branch, includeTree))
    ensures format != "xml" && format != "markdown" && format != "plaintext" ==>
      r == Failure("Unsupported format: " + format)
  {
    if format == "xml" {
      r := Ok(Xml(contents, owner, repo, branch, includeTree, fetchDate));
    } else if format == "markdown" {
      var output := FormatMarkdown(contents, owner, repo, branch, includeTree);
      r := Ok(output);
    } else if format == "plaintext" {
      var output := FormatPlaintext(contents, owner, repo, branch, includeTree);
      r := Ok(output);
    } else {
      r := Failure("Unsupported format: " + format);
    }
  }
}

// Lemmas about the three documents.
module FormatterProperties {
  import opened Text
  import opened RepoTree
  import XmlFormatter
  import XmlProperties
  import TreeProperties
  import opened Formatter

  // ---------------------------------------------------------------------
  // the optional tree block
  // ---------------------------------------------------------------------

  /** The outline always ends with a newline, so a line that follows it in
      a document (the closing fence of the Markdown code block, say)
      starts at the beginning of a line. */
  lemma TreeEndsWithNewline(contents: seq<Item>)
    ensures |XmlFormatter.Tree(contents, 0)| > 0
    ensures XmlFormatter.Tree(contents, 0)[|XmlFormatter.Tree(contents, 0)| - 1] == '\n'
  {
    var lines := TreeProperties.Outline(contents, |contents|, 0);
    TreeProperties.TreeItemsOutline(contents, |contents|, 0);
    var items := XmlFormatter.TreeItems(contents, |contents|, 0);
    if lines != [] {
      assert items == TreeProperties.Unlines(lines[..|lines| - 1]) + lines[|lines| - 1] + "\n";
    }
    assert XmlFormatter.Tree(contents, 0) == ".\n" + items;
  }

  /** Markdown: the document starts with the title and branch lines; the
      `## Repository Structure` block is present exactly when `includeTree`
      is set, right after them, and nothing else differs. */
  lemma MarkdownTreeOnlyWhenAsked(contents: seq<Item>, owner: string, repo: string, branch: string)
    ensures var head := MarkdownHeader(owner, repo, branch);
      var without := Markdown(contents, owner, repo, branch, false);
      |head| <= |without| && without[..|head|] == head
      && Markdown(contents, owner, repo, branch, true)
         == without[..|head|] + MarkdownTree(contents) + without[|head|..]
  {
    var head := MarkdownHeader(owner, repo, branch);
    var rest := "## File Contents\n\n" + ItemsMarkdown(contents, |contents|, 0);
    var without := Markdown(contents, owner, repo, branch, false);
    assert without == head + rest;
    assert without[..|head|] == head;
    assert without[|head|..] == rest;
  }

  /** Plain text: the same shape, with the `Repository Structure:` block. */
  lemma PlaintextTreeOnlyWhenAsked(contents: seq<Item>, owner: string, repo: string, branch: string)
    ensures var head := PlaintextHeader(owner, repo, branch);
      var without := Plaintext(contents, owner, repo, branch, false);
      |head| <= |without| && without[..|head|] == head
      && Plaintext(contents, owner, repo, branch, true)
         == without[..|head|] + PlaintextTree(contents) + without[|head|..]
  {
    var head := PlaintextHeader(owner, repo, branch);
    var rest := "File Contents:\n\n" + ItemsPlaintext(contents, |contents|, 0);
    var without := Plaintext(contents, owner, repo, branch, false);
    assert without == head + rest;
    assert without[..|head|] == head;
    assert without[|head|..] == rest;
  }

  /** XML: the document opens with the XML declaration and the metadata;
      the `<tree_structure>` block is present exactly when `includeTree` is
      set, right after `</metadata>`. */
  lemma XmlTreeOnlyWhenAsked(contents: seq<Item>, owner: string, repo: string, branch: string,
                             fetchDate: string)
    ensures var head := XmlDeclaration + XmlFormatter.XmlHead(owner, repo, branch, fetchDate);
      var without := Xml(contents, owner, repo, branch, false, fetchDate);
      |head| <= |without| && without[..|head|] == head
      && Xml(contents, owner, repo, branch, true, fetchDate)
         == without[..|head|] + XmlFormatter.TreeSection(contents) + without[|head|..]
  {
    var head := XmlDeclaration + XmlFormatter.XmlHead(owner, repo, branch, fetchDate);
    var without := Xml(contents, owner, repo, branch, false, fetchDate);
    assert without == head + "" + XmlBody(contents);
    assert without[..|head|] == head;
    assert without[|head|..] == XmlBody(contents);
  }

  // ---------------------------------------------------------------------
  // file contents are copied verbatim into Markdown and plain text
  // ---------------------------------------------------------------------

  /** `f` is one of `items` or lies in a directory below one of them. */
  predicate Reaches(items: seq<Item>, f: Item)
    decreases items
  {
    exists k :: 0 <= k < |items| && (items[k] == f || (items[k].Dir? && Reaches(items[k].contents, f)))
  }

  lemma {:induction false} ItemMarkdownHolds(item: Item, depth: nat, f: Item)
    requires f.File?
    requires item == f || (item.Dir? && Reaches(item.contents, f))
    ensures IsInfix(FileMarkdown(f.name, f.content), ItemMarkdown(item, depth))
    decreases item, 0, 0
  {
    if item == f {
      var b := FileMarkdown(f.name, f.content);
      assert ItemMarkdown(item, depth) == XmlFormatter.Pad(depth) + b;
      assert OccursAt(b, XmlFormatter.Pad(depth) + b, |XmlFormatter.Pad(depth)|);
    } else {
      var children := item.contents;
      ItemsMarkdownHolds(children, |children|, depth + 1, f);
      InfixAfter(FileMarkdown(f.name, f.content), ItemsMarkdown(children, |children|, depth + 1),
                 XmlFormatter.Pad(depth) + "- **" + item.name + "/**\n");
    }
  }

  lemma {:induction false} ItemsMarkdownHolds(items: seq<Item>, n: nat, depth: nat, f: Item)
    requires f.File? && n <= |items|
    requires exists k :: 0 <= k < n && (items[k] == f || (items[k].Dir? && Reaches(items[k].contents, f)))
    ensures IsInfix(FileMarkdown(f.name, f.content), ItemsMarkdown(items, n, depth))
    decreases items, 1, n
  {
    var k :| 0 <= k < n && (items[k] == f || (items[k].Dir? && Reaches(items[k].contents, f)));
    if k == n - 1 {
      ItemMarkdownHolds(items[n - 1], depth, f);
      InfixAfter(FileMarkdown(f.name, f.content), ItemMarkdown(items[n - 1], depth), ItemsMarkdown(items, n - 1, depth));
    } else {
      ItemsMarkdownHolds(items, n - 1, depth, f);
      InfixBefore(FileMarkdown(f.name, f.content), ItemsMarkdown(items, n - 1, depth), ItemMarkdown(items[n - 1], depth));
    }
  }

  /** Every file anywhere in the tree appears in the Markdown document
      with its name and its content, unaltered, in a fenced block. */
  lemma MarkdownHoldsEveryFile(contents: seq<Item>, owner: string, repo: string, branch: string,
                               includeTree: bool, f: Item)
    requires f.File? && Reaches(contents, f)
    ensures IsInfix(FileMarkdown(f.name, f.content), Markdown(contents, owner, repo, branch, includeTree))
  {
    ItemsMarkdownHolds(contents, |contents|, 0, f);
    var pre := MarkdownHeader(owner, repo, branch)
      + (if includeTree then MarkdownTree(contents) else "") + "## File Contents\n\n";
    InfixAfter(FileMarkdown(f.name, f.content), ItemsMarkdown(contents, |contents|, 0), pre);
  }

  lemma {:induction false} ItemPlaintextHolds(item: Item, depth: nat, f: Item)
    requires f.File?
    requires item == f || (item.Dir? && Reaches(item.contents, f))
    ensures IsInfix(FilePlaintext(f.name, f.content), ItemPlaintext(item, depth))
    decreases item, 0, 0
  {
    if item == f {
      var b := FilePlaintext(f.name, f.content);
      assert ItemPlaintext(item, depth) == XmlFormatter.Pad(depth) + b;
      assert OccursAt(b, XmlFormatter.Pad(depth) + b, |XmlFormatter.Pad(depth)|);
    } else {
      var children := item.contents;
      ItemsPlaintextHolds(children, |children|, depth + 1, f);
      InfixAfter(FilePlaintext(f.name, f.content), ItemsPlaintext(children, |children|, depth + 1),
                 XmlFormatter.Pad(depth) + item.name + "/\n");
    }
  }

  lemma {:induction false} ItemsPlaintextHolds(items: seq<Item>, n: nat, depth: nat, f: Item)
    requires f.File? && n <= |items|
    requires exists k :: 0 <= k < n && (items[k] == f || (items[k].Dir? && Reaches(items[k].contents, f)))
    ensures IsInfix(FilePlaintext(f.name, f.content), ItemsPlaintext(items, n, depth))
    decreases items, 1, n
  {
    var k :| 0 <= k < n && (items[k] == f || (items[k].Dir? && Reaches(items[k].contents, f)));
    if k == n - 1 {
      ItemPlaintextHolds(items[n - 1], depth, f);
      InfixAfter(FilePlaintext(f.name, f.content), ItemPlaintext(items[n - 1], depth), ItemsPlaintext(items, n - 1, depth));
    } else {
      ItemsPlaintextHolds(items, n - 1, depth, f);
      InfixBefore(FilePlaintext(f.name, f.content), ItemsPlaintext(items, n - 1, depth), ItemPlaintext(items[n - 1], depth));
    }
  }

  /** Every file anywhere in the tree appears in the plain-text document
      with its name and its content, unaltered, between two rules. */
  lemma PlaintextHoldsEveryFile(contents: seq<Item>, owner: string, repo: string, branch: string,
                                includeTree: bool, f: Item)
    requires f.File? && Reaches(contents, f)
    ensures IsInfix(FilePlaintext(f.name, f.content), Plaintext(contents, owner, repo, branch, includeTree))
  {
    ItemsPlaintextHolds(contents, |contents|, 0, f);
    var pre := PlaintextHeader(owner, repo, branch)
      + (if includeTree then PlaintextTree(contents) else "") + "File Contents:\n\n";
    InfixAfter(FilePlaintext(f.name, f.content), ItemsPlaintext(contents, |contents|, 0), pre);
  }

  // ---------------------------------------------------------------------
  // file contents in the XML document
  // ---------------------------------------------------------------------

  /** The content section of a file element reads back: its character
      data is the content on lines of its own, and removing the
      indentation from those lines gives the content back. */
  lemma ContentSectionReadsBack(content: string, indent: nat) returns (body: string)
    ensures XmlFormatter.ReadCData(ContentSection(content, indent)) == Some(CDataText(content, indent))
    ensures CDataText(content, indent) == "\n" + body + "\n" + XmlFormatter.Pad(indent) + "  "
    ensures forall k :: 0 <= k < |Split(body, '\n')| ==> |XmlFormatter.Pad(indent)| + 4 <= |Split(body, '\n')[k]|
    ensures Join(DropEach(Split(body, '\n'), |XmlFormatter.Pad(indent)| + 4), "\n") == content
  {
    XmlProperties.CDataRoundTrip(CDataText(content, indent));
    var pad := XmlFormatter.Pad(indent) + "    ";
    body := IndentLines(content, pad);
    PadHasNoNewline(indent);
    IndentLinesRoundTrip(content, pad);
  }

  lemma {:induction false} PadHasNoNewline(depth: nat)
    ensures '\n' !in XmlFormatter.Pad(depth) + "    "
    ensures |XmlFormatter.Pad(depth) + "    "| == |XmlFormatter.Pad(depth)| + 4
  {
    if depth > 0 {
      PadHasNoNewline(depth - 1);
      assert XmlFormatter.Pad(depth) + "    " == "  " + (XmlFormatter.Pad(depth - 1) + "    ");
    }
  }

  /** The section `formatContents` writes reads back exactly when its
      text holds no `]]>`; a `]]>` anywhere in the file's content is also
      in that text, so such a file's section never reads back. */
  lemma AsWrittenSectionReadsBackIff(content: string, indent: nat)
    ensures XmlFormatter.ReadCData(ContentSectionAsWritten(content, indent)) == Some(CDataText(content, indent))
        <==> !IsInfix("]]>", CDataText(content, indent))
    ensures IsInfix("]]>", content) ==> IsInfix("]]>", CDataText(content, indent))
  {
    if IsInfix("]]>", content) {
      CloseInContentIsInText(content, indent);
    }
    var text := CDataText(content, indent);
    var section := ContentSectionAsWritten(content, indent);
    assert StartsWith(section, "<![CDATA[") && section[9..] == text + "]]>";
    if IsInfix("]]>", text) {
      XmlProperties.ScanLosesClose(text);
    } else {
      XmlProperties.EscapeCDataIdentity(text);
      var _ := ContentSectionReadsBack(content, indent);
    }
  }

  lemma CloseInContentIsInText(content: string, indent: nat)
    requires IsInfix("]]>", content)
    ensures IsInfix("]]>", CDataText(content, indent))
  {
    var pad := XmlFormatter.Pad(indent) + "    ";
    InfixSurvivesIndent("]]>", content, pad);
    InfixEnclosed("]]>", IndentLines(content, pad), "\n", "\n" + XmlFormatter.Pad(indent) + "  ");
  }

  /** The element `formatContents` builds for a file whose content is
      `]]>`: the section ends at the content's `]]>`, and what follows is
      neither the end of the text nor a new section, so it cannot be
      read back. */
  lemma UnescapedContentBreaksSection(name: string, path: string) returns (open: string)
    ensures ItemXml(File(name, path, "]]>"), 0)
         == open + "<![CDATA[\n    ]]>\n  ]]>" + "</content>\n" + "</file>"
    ensures XmlFormatter.ReadCData("<![CDATA[\n    ]]>\n  ]]>") == None
  {
    var pad := XmlFormatter.Pad(0);
    open := pad + "<file name=\"" + XmlFormatter.Escape(name) + "\" path=\"" + XmlFormatter.Escape(path) + "\">\n"
      + pad + "  <content>";
    AsWrittenCloseSection();
    assert pad == "";
    StopsAtFirstClose();
  }

  lemma AsWrittenCloseSection()
    ensures ContentSectionAsWritten("]]>", 0) == "<![CDATA[\n    ]]>\n  ]]>"
  {
    CloseIndented();
    assert XmlFormatter.Pad(0) == "";
    assert CDataText("]]>", 0) == "\n    ]]>\n  ";
  }

  lemma CloseIndented()
    ensures IndentLines("]]>", "    ") == "    ]]>"
  {
    SplitNoSep("]]>", '\n');
    var r := PrefixEach(["]]>"], "    ");
    assert |r| == 1 && r[0] == "    " + "]]>";
    assert "    " + "]]>" == "    ]]>";
    assert r == [r[0]];
    assert Join(r, "\n") == r[0];
  }

  lemma StopsAtFirstClose()
    ensures XmlFormatter.ReadCData("<![CDATA[\n    ]]>\n  ]]>") == None
  {
    var w, u := "\n    ", "]]>\n  ]]>";
    CloseNotReopened();
    PlainPrefixKeepsFailure(w, u);
    assert "<![CDATA[\n    ]]>\n  ]]>" == "<![CDATA[" + (w + u);
    assert ("<![CDATA[" + (w + u))[9..] == w + u;
  }

  /** The reader passes text without `]` character by character, so a
      failure after it is a failure of the whole. */
  lemma {:induction false} PlainPrefixKeepsFailure(w: string, u: string)
    requires ']' !in w && |u| >= 2 && XmlFormatter.ScanCData(u) == None
    ensures XmlFormatter.ScanCData(w + u) == None
    decreases |w|
  {
    if w != [] {
      PlainPrefixKeepsFailure(w[1..], u);
      assert w + u == [w[0]] + (w[1..] + u);
      XmlProperties.ScanStep(w[0], w[1..] + u);
    } else {
      assert w + u == u;
    }
  }

  lemma CloseNotReopened()
    ensures XmlFormatter.ScanCData("]]>\n  ]]>") == None
  {
    var u := "]]>\n  ]]>";
    assert u[..3] == "]]>" && u[3..] == "\n  ]]>";
    assert !StartsWith("\n  ]]>", "<![CDATA[");
  }
}
