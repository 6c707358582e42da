/** The XML serializer the repository endpoint uses: entity escaping,
    CDATA-terminator splitting, the ASCII tree outline, the nested
    `<directory>`/`<file>` elements and the whole `<llm_context>` document.
    The fetch date is a parameter. */
module XmlFormatter {
  import opened Text
  import opened RepoTree

  // ---------------------------------------------------------------------
  // escape
  // ---------------------------------------------------------------------

  /** The five characters `escape` replaces. */
  predicate IsMarkup(c: char)
  {
    c == '<' || c == '>' || c == '&' || c == '\'' || c == '"'
  }

  /** What one character becomes under `escape`. */
  function EscapeChar(c: char): string
  {
    if c == '<' then "&lt;"
    else if c == '>' then "&gt;"
    else if c == '&' then "&amp;"
    else if c == '\'' then "&apos;"
    else if c == '"' then "&quot;"
    else [c]
  }

  /** `escape`: every markup character replaced by its entity. The result
      holds no `<`, `>`, `'` or `"`. */
  function Escape(s: string): (r: string)
    ensures forall c :: c in r ==> c != '<' && c != '>' && c != '\'' && c != '"'
  {
    if s == [] then [] else EscapeChar(s[0]) + Escape(s[1..])
  }

  /** Decoding of the five entities `escape` produces; any other
      character stands for itself. */
  function Unescape(t: string): string
    decreases |t|
  {
    if t == [] then []
    else if t[0] != '&' then [t[0]] + Unescape(t[1..])
    else if StartsWith(t, "&lt;") then "<" + Unescape(t[4..])
    else if StartsWith(t, "&gt;") then ">" + Unescape(t[4..])
    else if StartsWith(t, "&amp;") then "&" + Unescape(t[5..])
    else if StartsWith(t, "&apos;") then "'" + Unescape(t[6..])
    else if StartsWith(t, "&quot;") then "\"" + Unescape(t[6..])
    else [t[0]] + Unescape(t[1..])
  }

  // ---------------------------------------------------------------------
  // escapeCDATA and a reader for consecutive CDATA sections
  // ---------------------------------------------------------------------

  /** `content.replace(/]]>/g, ']]]]><![CDATA[>')`: occurrences are found
      left to right and do not overlap. */
  function EscapeCData(s: string): string
    decreases |s|
  {
    if s == [] then []
    else if StartsWith(s, "]]>") then "]]]]><![CDATA[>" + EscapeCData(s[3..])
    else [s[0]] + EscapeCData(s[1..])
  }

  function PrependChar(c: char, r: Option<string>): Option<string>
  {
    if r.Some? then Some([c] + r.value) else None
  }

  /** Reads the body of a CDATA section up to its first `]]>`; what follows
      must be the end of the text or the opening of a further section,
      whose body is appended. */
  function ScanCData(t: string): Option<string>
    decreases |t|
  {
    if |t| < 3 then None
    else if t[..3] == "]]>" then
      var rest := t[3..];
      if rest == [] then Some([])
      else if StartsWith(rest, "<![CDATA[") then ScanCData(rest[9..])
      else None
    else PrependChar(t[0], ScanCData(t[1..]))
  }

  /** The character data of one or more consecutive CDATA sections. */
  function ReadCData(t: string): Option<string>
  {
    if StartsWith(t, "<![CDATA[") then ScanCData(t[9..]) else None
  }

  // ---------------------------------------------------------------------
  // formatTree
  // ---------------------------------------------------------------------

  /** Nothing at depth 0; below it, the branch glyph of the last sibling
      or of any other. */
  function TreePrefix(indent: nat, isLast: bool): string
  {
    if indent == 0 then "" else if isLast then "└── " else "├── "
  }

  /** The outline line of one node, without its newline. */
  function TreeLine(item: Item, indent: nat, isLast: bool): string
  {
    Repeat("    ", indent) + TreePrefix(indent, isLast) + item.name + (if item.Dir? then "/" else "")
  }

  /** The text the `forEach` of `formatTree` has appended after the first
      `n` items of `contents`: each node's line, then, for a directory,
      the outline of its children one level deeper. */
  function TreeItems(contents: seq<Item>, n: nat, indent: nat): string
    requires n <= |contents|
    decreases contents, n
  {
    if n == 0 then []
    else
      var item := contents[n - 1];
      TreeItems(contents, n - 1, indent)
      + TreeLine(item, indent, n - 1 == |contents| - 1) + "\n"
      + (if item.Dir? then TreeItems(item.contents, |item.contents|, indent + 1) else [])
  }

  /** `formatTree(contents, indent)`: a `.` line at the top level, then the
      items. */
  function Tree(contents: seq<Item>, indent: nat): string
  {
    (if indent == 0 then ".\n" else "") + TreeItems(contents, |contents|, indent)
  }

  /** `formatTree`, growing the outline with `+=` item by item. */
  method FormatTree(contents: seq<Item>, indent: nat) returns (tree: string)
    ensures tree == Tree(contents, indent)
    decreases contents
  {
    tree := if indent == 0 then ".\n" else "";
    ghost var header := tree;
    var lastIndex := |contents| - 1;
    for index := 0 to |contents|
      invariant tree == header + TreeItems(contents, index, indent)
    {
      var item := contents[index];
      var isLast := index == lastIndex;
      var prefix := if indent == 0 then "" else if isLast then "└── " else "├── ";
      var ind := Repeat("    ", indent) + prefix;
      if item.Dir? {
        var line := ind + item.name + "/\n";
        var sub := FormatTree(item.contents, indent + 1);
        tree := tree + line;
        tree := tree + sub;
        TreeAppendDir(header, contents, index, indent, line, sub);
      } else {
        var line := ind + item.name + "\n";
        tree := tree + line;
        TreeAppendFile(header, contents, index, indent, line);
      }
    }
  }

  /** Appending a directory's line and its subtree extends the outline
      by that directory. */
  lemma TreeAppendDir(header: string, contents: seq<Item>, n: nat, indent: nat,
                      line: string, sub: string)
    requires n < |contents| && contents[n].Dir?
    requires line == Repeat("    ", indent) + TreePrefix(indent, n == |contents| - 1)
                     + contents[n].name + "/\n"
    requires sub == Tree(contents[n].contents, indent + 1)
    ensures header + TreeItems(contents, n, indent) + line + sub
         == header + TreeItems(contents, n + 1, indent)
  {
    var isLast := n == |contents| - 1;
    TreeLineText(contents[n], indent, isLast);
    TreeItemsStep(contents, n, indent);
    var done := TreeItems(contents, n, indent);
    AppendAssoc(header, done, line);
    AppendAssoc(header, done + line, sub);
  }

  /** Appending a file's line extends the outline by that file. */
  lemma TreeAppendFile(header: string, contents: seq<Item>, n: nat, indent: nat, line: string)
    requires n < |contents| && contents[n].File?
    requires line == Repeat("    ", indent) + TreePrefix(indent, n == |contents| - 1)
                     + contents[n].name + "\n"
    ensures header + TreeItems(contents, n, indent) + line
         == header + TreeItems(contents, n + 1, indent)
  {
    var isLast := n == |contents| - 1;
    TreeLineText(contents[n], indent, isLast);
    TreeItemsStep(contents, n, indent);
    var done := TreeItems(contents, n, indent);
    AppendAssoc(header, done, line);
    assert done + line + [] == done + line;
  }

  /** The line `formatTree` appends for one node is that node's outline
      line and its newline. */
  lemma TreeLineText(item: Item, indent: nat, isLast: bool)
    ensures Repeat("    ", indent) + TreePrefix(indent, isLast) + item.name
            + (if item.Dir? then "/\n" else "\n")
         == TreeLine(item, indent, isLast) + "\n"
  {
    var head := Repeat("    ", indent) + TreePrefix(indent, isLast) + item.name;
    if item.Dir? {
      AppendAssoc(head, "/", "\n");
    } else {
      assert head + "" == head;
    }
  }

  lemma TreeItemsStep(contents: seq<Item>, n: nat, indent: nat)
    requires n < |contents|
    ensures TreeItems(contents, n + 1, indent)
         == TreeItems(contents, n, indent)
            + (TreeLine(contents[n], indent, n == |contents| - 1) + "\n")
            + (if contents[n].Dir? then Tree(contents[n].contents, indent + 1) else [])
  {
  }

  // ---------------------------------------------------------------------
  // formatContents and formatXml
  // ---------------------------------------------------------------------

  function Pad(indent: nat): string
  {
    Repeat("  ", indent)
  }

  /** The file content inside one CDATA section, any `]]>` in it split
      by `escapeCDATA`. */
  function ContentSection(content: string): string
  {
    "<![CDATA[" + EscapeCData(content) + "]]>"
  }

  /** One element of `formatContents`. A directory's closing tag follows
      its last child's text directly, with no newline in between. */
  function ItemXml(item: Item, indent: nat): string
    decreases item, 0
  {
    match item
    case Dir(name, path, children) =>
      Pad(indent) + "<directory name=\"" + Escape(name) + "\" path=\"" + Escape(path) + "\">\n"
      + ContentsXml(children, indent + 1) + Pad(indent) + "</directory>"
    case File(name, path, content) =>
      Pad(indent) + "<file name=\"" + Escape(name) + "\" path=\"" + Escape(path) + "\">\n"
      + Pad(indent) + "  <content>" + ContentSection(content) + "</content>\n"
      + Pad(indent) + "</file>"
  }

  /** `items.map(...)`: one element per item, in order. */
  function ItemsXml(items: seq<Item>, indent: nat): (r: seq<string>)
    ensures |r| == |items|
    ensures forall k :: 0 <= k < |r| ==> r[k] == ItemXml(items[k], indent)
    decreases items, 0
  {
    if items == [] then [] else [ItemXml(items[0], indent)] + ItemsXml(items[1..], indent)
  }

  /** `formatContents(items, indent)`: the elements joined by newlines. */
  function ContentsXml(items: seq<Item>, indent: nat): string
    decreases items, 1
  {
    Join(ItemsXml(items, indent), "\n")
  }

  /** The `<tree_structure>` block: the outline with every line indented by
      six spaces, inside a CDATA section. */
  function TreeSection(contents: seq<Item>): string
  {
    "\n    <tree_structure>\n      <![CDATA[\n" + IndentLines(Tree(contents, 0), "      ")
    + "\n      ]]>\n    </tree_structure>"
  }

  // The fixed text between the metadata fields.
  const HeadOpen: string := "<llm_context>\n  <repository>\n    <metadata>\n      <name>"
  const AfterName: string :=
    "</name>\n      <description>Repository contents for LLM context</description>\n      <fetch_date>"
  const AfterDate: string := "</fetch_date>\n      <branch>"
  const HeadClose: string := "</branch>\n    </metadata>"

  /** Everything up to and including `</metadata>`. */
  function XmlHead(owner: string, repo: string, branch: string, fetchDate: string): string
  {
    HeadOpen + Escape(owner) + "/" + Escape(repo) + AfterName
    + fetchDate + AfterDate + Escape(branch) + HeadClose
  }

  /** The `<contents>` block and the closing tags. */
  function XmlBody(contents: seq<Item>): string
  {
    "\n    <contents>\n" + ContentsXml(contents, 3) + "\n    </contents>\n  </repository>\n</llm_context>"
  }

  /** `formatXml(contents, owner, repo, branch, includeTree)` with the
      fetch date supplied by the caller. */
  function FormatXml(contents: seq<Item>, owner: string, repo: string, branch: string,
                     includeTree: bool, fetchDate: string): string
  {
    XmlHead(owner, repo, branch, fetchDate)
    + (if includeTree then TreeSection(contents) else "")
    + XmlBody(contents)
  }
}

// Lemmas about the XML serializer.
module XmlProperties {
  import opened Text
  import opened RepoTree
  import opened XmlFormatter

  // ---------------------------------------------------------------------
  // escape
  // ---------------------------------------------------------------------

  /** Escaping works character by character, so it distributes over
      concatenation. */
  lemma {:induction false} EscapeAppend(a: string, b: string)
    ensures Escape(a + b) == Escape(a) + Escape(b)
  {
    if a == [] {
      assert a + b == b;
    } else {
      assert (a + b)[1..] == a[1..] + b;
      assert (a + b)[0] == a[0];
      EscapeAppend(a[1..], b);
    }
  }

  /** Text without markup characters is left as it is. */
  lemma {:induction false} EscapeIdentity(s: string)
    requires forall i :: 0 <= i < |s| ==> !IsMarkup(s[i])
    ensures Escape(s) == s
  {
    if s != [] {
      assert forall i :: 0 <= i < |s[1..]| ==> s[1..][i] == s[i + 1];
      EscapeIdentity(s[1..]);
      assert [s[0]] + s[1..] == s;
    }
  }

  lemma UnescapeLt(rest: string)
    ensures Unescape("&lt;" + rest) == "<" + Unescape(rest)
  {
    var t := "&lt;" + rest;
    assert t[..4] == "&lt;" && t[4..] == rest;
  }

  lemma UnescapeGt(rest: string)
    ensures Unescape("&gt;" + rest) == ">" + Unescape(rest)
  {
    var t := "&gt;" + rest;
    assert t[1] == 'g';
    assert t[..4] == "&gt;" && t[4..] == rest;
  }

  lemma UnescapeAmp(rest: string)
    ensures Unescape("&amp;" + rest) == "&" + Unescape(rest)
  {
    var t := "&amp;" + rest;
    assert t[1] == 'a';
    assert t[..5] == "&amp;" && t[5..] == rest;
  }

  lemma UnescapeApos(rest: string)
    ensures Unescape("&apos;" + rest) == "'" + Unescape(rest)
  {
    var t := "&apos;" + rest;
    assert t[1] == 'a' && t[2] == 'p';
    assert t[..6] == "&apos;" && t[6..] == rest;
  }

  lemma UnescapeQuot(rest: string)
    ensures Unescape("&quot;" + rest) == "\"" + Unescape(rest)
  {
    var t := "&quot;" + rest;
    assert t[1] == 'q';
    assert t[..6] == "&quot;" && t[6..] == rest;
  }

  lemma UnescapePlain(c: char, rest: string)
    requires c != '&'
    ensures Unescape([c] + rest) == [c] + Unescape(rest)
  {
    var t := [c] + rest;
    assert t[0] == c && t[1..] == rest;
  }

  /** One escaped character followed by any text decodes to that
      character followed by the decoding of the text. */
  lemma UnescapeEscapeChar(c: char, rest: string)
    ensures Unescape(EscapeChar(c) + rest) == [c] + Unescape(rest)
  {
    if c == '<' {
      UnescapeLt(rest);
    } else if c == '>' {
      UnescapeGt(rest);
    } else if c == '&' {
      UnescapeAmp(rest);
    } else if c == '\'' {
      UnescapeApos(rest);
    } else if c == '"' {
      UnescapeQuot(rest);
    } else {
      UnescapePlain(c, rest);
    }
  }

  /** Decoding the five entities undoes `escape`. */
  lemma {:induction false} UnescapeEscape(s: string)
    ensures Unescape(Escape(s)) == s
  {
    if s != [] {
      UnescapeEscape(s[1..]);
      UnescapeEscapeChar(s[0], Escape(s[1..]));
      assert [s[0]] + s[1..] == s;
    }
  }

  /** An attribute value written with `escape` ends at the next `"` and
      decodes back to the value. */
  lemma AttributeReadsBack(v: string)
    ensures '"' !in Escape(v)
    ensures Unescape(Escape(v)) == v
  {
    UnescapeEscape(v);
  }

  // ---------------------------------------------------------------------
  // escapeCDATA
  // ---------------------------------------------------------------------

  lemma {:induction false} InfixOfTail(a: string, s: string)
    requires s != [] && IsInfix(a, s[1..])
    ensures IsInfix(a, s)
  {
    var k :| 0 <= k <= |s[1..]| - |a| && OccursAt(a, s[1..], k);
    assert s[k + 1..k + 1 + |a|] == s[1..][k..k + |a|];
    assert OccursAt(a, s, k + 1);
  }

  /** Text without `]]>` is left as it is. */
  lemma {:induction false} EscapeCDataIdentity(s: string)
    requires !IsInfix("]]>", s)
    ensures EscapeCData(s) == s
    decreases |s|
  {
    if s != [] {
      if StartsWith(s, "]]>") {
        assert OccursAt("]]>", s, 0);
      }
      if IsInfix("]]>", s[1..]) {
        InfixOfTail("]]>", s);
      }
      EscapeCDataIdentity(s[1..]);
      assert [s[0]] + s[1..] == s;
    }
  }

  /** The escaped text starts with the same character as the original. */
  lemma EscapeCDataHead(z: string)
    requires z != []
    ensures EscapeCData(z) != [] && EscapeCData(z)[0] == z[0]
  {
  }

  /** One character that does not start `]]>` is read as itself. */
  lemma ScanStep(c: char, u: string)
    requires |u| >= 2 && (c != ']' || u[0] != ']' || u[1] != '>')
    ensures ScanCData([c] + u) == PrependChar(c, ScanCData(u))
  {
    var t := [c] + u;
    assert t[..3][0] == c && t[..3][1] == u[0] && t[..3][2] == u[1];
    assert t[1..] == u;
  }

  /** Where the text does not start with `]]>`, neither does its escaped
      form followed by the closing `]]>`. */
  lemma NoCloseAtStart(s: string)
    requires s != [] && !StartsWith(s, "]]>")
    ensures var u := EscapeCData(s[1..]) + "]]>";
      |u| >= 2 && (s[0] != ']' || u[0] != ']' || u[1] != '>')
  {
    var tail := EscapeCData(s[1..]);
    var u := tail + "]]>";
    if s[0] == ']' {
      if |s| == 1 {
        assert tail == [];
        assert u[1] == ']';
      } else {
        EscapeCDataHead(s[1..]);
        assert u[0] == s[1];
        if s[1] == ']' {
          if |s| == 2 {
            assert s[1..] == "]";
            assert tail == "]";
            assert u[1] == ']';
          } else {
            assert s[..3][0] == s[0] && s[..3][1] == s[1] && s[..3][2] == s[2];
            assert s[2] != '>';
            if StartsWith(s[1..], "]]>") {
              assert tail[1] == ']';
              assert u[1] == ']';
            } else {
              assert tail == [s[1]] + EscapeCData(s[2..]);
              EscapeCDataHead(s[2..]);
              assert u[1] == s[2];
            }
          }
        }
      }
    }
  }

  /** A `]]>` inside the text closes the section; the reader resumes
      after the following `<![CDATA[`. */
  lemma ScanReopen(v: string)
    ensures ScanCData("]]><![CDATA[" + v) == ScanCData(v)
  {
    var t := "]]><![CDATA[" + v;
    assert t[..3] == "]]>";
    assert t[3..] == "<![CDATA[" + v;
    assert t[3..][..9] == "<![CDATA[";
    assert t[3..][9..] == v;
  }

  /** Two brackets in front of a text starting with `]]` are read as
      themselves: neither starts a `]]>`. */
  lemma ScanTwoBrackets(u: string)
    requires |u| >= 2 && u[0] == ']' && u[1] == ']'
    ensures ScanCData("]]" + u) == PrependChar(']', PrependChar(']', ScanCData(u)))
  {
    var u1 := [']'] + u;
    ScanStep(']', u);
    ScanStep(']', u1);
    assert [']'] + u1 == "]]" + u;
  }

  /** The replacement text of `]]>` up to its final `>`: two brackets
      read as themselves, then a section break the reader skips. */
  lemma ScanReplacementHead(v: string)
    ensures ScanCData("]]]]><![CDATA[>" + v) == PrependChar(']', PrependChar(']', ScanCData(">" + v)))
  {
    var u := "]]><![CDATA[>" + v;
    ScanReopen(">" + v);
    assert "]]><![CDATA[" + (">" + v) == u;
    assert u[0] == ']' && u[1] == ']';
    ScanTwoBrackets(u);
    assert "]]" + u == "]]]]><![CDATA[>" + v;
  }

  /** The replacement text of one `]]>` reads back as `]]>`. */
  lemma ScanSplitTerminator(v: string)
    requires |v| >= 2
    ensures ScanCData(v).Some? ==>
      ScanCData("]]]]><![CDATA[>" + v) == Some("]]>" + ScanCData(v).value)
  {
    ScanStep('>', v);
    ScanReplacementHead(v);
    PrependTerminator(ScanCData(v));
  }

  lemma PrependTerminator(r: Option<string>)
    ensures r.Some? ==> PrependChar(']', PrependChar(']', PrependChar('>', r))) == Some("]]>" + r.value)
  {
    if r.Some? {
      assert [']'] + ([']'] + (['>'] + r.value)) == "]]>" + r.value;
    }
  }

  lemma ScanEscapedTerminator(s: string)
    requires StartsWith(s, "]]>")
    requires ScanCData(EscapeCData(s[3..]) + "]]>") == Some(s[3..])
    ensures ScanCData(EscapeCData(s) + "]]>") == Some(s)
  {
    var e := EscapeCData(s[3..]);
    var v := e + "]]>";
    assert EscapeCData(s) == "]]]]><![CDATA[>" + e;
    AppendAssoc("]]]]><![CDATA[>", e, "]]>");
    ScanSplitTerminator(v);
    assert s[..3] == "]]>";
    assert s[..3] + s[3..] == s;
  }

  lemma ScanEscapedPlain(s: string)
    requires s != [] && !StartsWith(s, "]]>")
    requires ScanCData(EscapeCData(s[1..]) + "]]>") == Some(s[1..])
    ensures ScanCData(EscapeCData(s) + "]]>") == Some(s)
  {
    var v := EscapeCData(s[1..]) + "]]>";
    assert EscapeCData(s) + "]]>" == [s[0]] + v;
    NoCloseAtStart(s);
    ScanStep(s[0], v);
    assert [s[0]] + s[1..] == s;
  }

  /** The body of a section holding `escapeCDATA(s)` reads back as `s`. */
  lemma {:induction false} ScanEscaped(s: string)
    ensures ScanCData(EscapeCData(s) + "]]>") == Some(s)
    decreases |s|
  {
    if s == [] {
      assert EscapeCData(s) + "]]>" == "]]>";
      assert "]]>"[..3] == "]]>";
    } else if StartsWith(s, "]]>") {
      ScanEscaped(s[3..]);
      ScanEscapedTerminator(s);
    } else {
      ScanEscaped(s[1..]);
      ScanEscapedPlain(s);
    }
  }

  /** CDATA round trip: a section holding `escapeCDATA(s)`, read as
      consecutive sections each ending at its first `]]>`, gives back `s`
      exactly. */
  lemma CDataRoundTrip(s: string)
    ensures ReadCData("<![CDATA[" + EscapeCData(s) + "]]>") == Some(s)
  {
    var t := "<![CDATA[" + EscapeCData(s) + "]]>";
    assert t[9..] == EscapeCData(s) + "]]>";
    ScanEscaped(s);
  }

  /** Reading drops at least the final `]]>`. */
  lemma {:induction false} ScanShortens(t: string)
    ensures ScanCData(t).Some? ==> |ScanCData(t).value| <= |t| - 3
    decreases |t|
  {
    if |t| >= 3 {
      if t[..3] == "]]>" {
        var rest := t[3..];
        if rest != [] && StartsWith(rest, "<![CDATA[") {
          ScanShortens(rest[9..]);
        }
      } else {
        ScanShortens(t[1..]);
      }
    }
  }

  /** A text holding `]]>`, put in one section as it is, does not read
      back: the section ends at its first `]]>`, and whatever reading
      succeeds yields fewer characters than the text. */
  lemma {:induction false} ScanLosesClose(s: string)
    requires IsInfix("]]>", s)
    ensures ScanCData(s + "]]>").Some? ==> |ScanCData(s + "]]>").value| < |s|
    decreases |s|
  {
    var t := s + "]]>";
    var k :| 0 <= k <= |s| - 3 && OccursAt("]]>", s, k);
    if t[..3] == "]]>" {
      var rest := t[3..];
      if rest != [] && StartsWith(rest, "<![CDATA[") {
        ScanShortens(rest[9..]);
      }
    } else {
      assert k > 0;
      assert s[1..][k - 1..k + 2] == s[k..k + 3];
      assert OccursAt("]]>", s[1..], k - 1);
      assert t[1..] == s[1..] + "]]>";
      ScanLosesClose(s[1..]);
    }
  }
}

// Lemmas about the outline drawn by `formatTree`.
module TreeProperties {
  import opened Text
  import opened RepoTree
  import opened XmlFormatter

  /** The outline lines, without newlines, in pre-order: each node's line
      followed by the lines of its children one level deeper. */
  function Outline(contents: seq<Item>, n: nat, indent: nat): seq<string>
    requires n <= |contents|
    decreases contents, n
  {
    if n == 0 then []
    else
      var item := contents[n - 1];
      Outline(contents, n - 1, indent)
      + [TreeLine(item, indent, n - 1 == |contents| - 1)]
      + (if item.Dir? then Outline(item.contents, |item.contents|, indent + 1) else [])
  }

  /** The number of nodes among the first `n` items and their
      descendants. */
  function NodeCount(contents: seq<Item>, n: nat): nat
    requires n <= |contents|
    decreases contents, n
  {
    if n == 0 then 0
    else
      var item := contents[n - 1];
      NodeCount(contents, n - 1) + 1
      + (if item.Dir? then NodeCount(item.contents, |item.contents|) else 0)
  }

  /** Every line followed by a newline. */
  function Unlines(lines: seq<string>): string
  {
    if lines == [] then [] else Unlines(lines[..|lines| - 1]) + lines[|lines| - 1] + "\n"
  }

  lemma {:induction false} UnlinesAppend(a: seq<string>, b: seq<string>)
    ensures Unlines(a + b) == Unlines(a) + Unlines(b)
    decreases |b|
  {
    if b == [] {
      assert a + b == a;
    } else {
      var b' := b[..|b| - 1];
      assert (a + b)[..|a + b| - 1] == a + b';
      assert (a + b)[|a + b| - 1] == b[|b| - 1];
      UnlinesAppend(a, b');
      AppendAssoc(Unlines(a), Unlines(b'), b[|b| - 1]);
      AppendAssoc(Unlines(a), Unlines(b') + b[|b| - 1], "\n");
    }
  }

  /** Newline-terminated lines are the lines joined by newlines, with one
      empty piece after the last newline. */
  lemma {:induction false} UnlinesJoin(lines: seq<string>)
    ensures Unlines(lines) == Join(lines + [""], "\n")
    decreases |lines|
  {
    if lines != [] {
      var init := lines[..|lines| - 1];
      var last := lines[|lines| - 1];
      UnlinesJoin(init);
      JoinSnoc(init + [""], last);
      assert lines + [""] == init + [last] + [""];
    }
  }

  /** Appending `x` after a final empty piece. */
  lemma {:induction false} JoinSnoc(parts: seq<string>, x: string)
    requires parts != [] && parts[|parts| - 1] == ""
    ensures Join(parts[..|parts| - 1] + [x] + [""], "\n") == Join(parts, "\n") + x + "\n"
    decreases |parts|
  {
    var q := parts[..|parts| - 1] + [x] + [""];
    if |parts| == 1 {
      assert q == [x, ""];
      assert Join(q, "\n") == x + "\n" + Join([""], "\n");
    } else {
      assert q[0] == parts[0];
      assert q[1..] == parts[1..][..|parts| - 2] + [x] + [""];
      JoinSnoc(parts[1..], x);
      AppendAssoc(parts[0] + "\n", Join(parts[1..], "\n"), x + "\n");
    }
  }

  /** One line per node. */
  lemma {:induction false} OutlineLength(contents: seq<Item>, n: nat, indent: nat)
    requires n <= |contents|
    ensures |Outline(contents, n, indent)| == NodeCount(contents, n)
    decreases contents, n
  {
    if n > 0 {
      var item := contents[n - 1];
      OutlineLength(contents, n - 1, indent);
      if item.Dir? {
        OutlineLength(item.contents, |item.contents|, indent + 1);
      }
    }
  }

  lemma UnlinesStep(before: seq<string>, line: string, below: seq<string>)
    ensures Unlines(before + [line] + below) == Unlines(before) + (line + "\n") + Unlines(below)
  {
    UnlinesAppend(before + [line], below);
    UnlinesAppend(before, [line]);
    assert Unlines([line]) == line + "\n" by {
      assert [line][..0] == [];
    }
  }

  /** One step of `TreeItemsOutline`: the `n`-th item, given the claim
      for the items before it and for its children. */
  lemma OutlineStep(contents: seq<Item>, n: nat, indent: nat)
    requires 0 < n <= |contents|
    requires TreeItems(contents, n - 1, indent) == Unlines(Outline(contents, n - 1, indent))
    requires contents[n - 1].Dir? ==>
      TreeItems(contents[n - 1].contents, |contents[n - 1].contents|, indent + 1)
      == Unlines(Outline(contents[n - 1].contents, |contents[n - 1].contents|, indent + 1))
    ensures TreeItems(contents, n, indent) == Unlines(Outline(contents, n, indent))
  {
    var item := contents[n - 1];
    var line := TreeLine(item, indent, n - 1 == |contents| - 1);
    var below := if item.Dir? then Outline(item.contents, |item.contents|, indent + 1) else [];
    UnlinesStep(Outline(contents, n - 1, indent), line, below);
  }

  /** The text of `formatTree` below the `.` line is its outline, each
      line ending in a newline. */
  lemma {:induction false} TreeItemsOutline(contents: seq<Item>, n: nat, indent: nat)
    requires n <= |contents|
    ensures TreeItems(contents, n, indent) == Unlines(Outline(contents, n, indent))
    decreases contents, n
  {
    if n > 0 {
      var item := contents[n - 1];
      TreeItemsOutline(contents, n - 1, indent);
      if item.Dir? {
        TreeItemsOutline(item.contents, |item.contents|, indent + 1);
      }
      OutlineStep(contents, n, indent);
    }
  }

  /** Each outline line lies on its own line: when no name holds a
      newline, splitting the top-level tree gives `.`, the outline lines in
      pre-order, and the empty piece after the final newline. */
  lemma TreeLines(contents: seq<Item>)
    requires forall k :: 0 <= k < |Outline(contents, |contents|, 0)| ==>
      '\n' !in Outline(contents, |contents|, 0)[k]
    ensures Split(Tree(contents, 0), '\n') == ["."] + Outline(contents, |contents|, 0) + [""]
    ensures |Split(Tree(contents, 0), '\n')| == NodeCount(contents, |contents|) + 2
  {
    var lines := Outline(contents, |contents|, 0);
    TreeItemsOutline(contents, |contents|, 0);
    OutlineLength(contents, |contents|, 0);
    UnlinesAppend(["."], lines);
    assert Unlines(["."]) == ".\n" by {
      assert ["."][..0] == [];
    }
    assert Tree(contents, 0) == Unlines(["."] + lines);
    UnlinesJoin(["."] + lines);
    assert ["."] + lines + [""] == ["."] + (lines + [""]);
    SplitJoin(["."] + lines + [""], '\n');
  }
}

// Lemmas about the elements and the document `formatXml` writes.
module XmlDocumentProperties {
  import opened Text
  import opened RepoTree
  import opened XmlFormatter
  import opened XmlProperties

  /** A file element reads back: its two attribute values hold no `"` and
      decode to the name and path, and its content is a run of CDATA
      sections whose character data is the file's text. */
  lemma FileElementDecodes(name: string, path: string, content: string, indent: nat)
    returns (a: string, b: string, c: string)
    ensures ItemXml(File(name, path, content), indent)
         == Pad(indent) + "<file name=\"" + a + "\" path=\"" + b + "\">\n"
            + Pad(indent) + "  <content>" + c + "</content>\n" + Pad(indent) + "</file>"
    ensures '"' !in a && Unescape(a) == name
    ensures '"' !in b && Unescape(b) == path
    ensures ReadCData(c) == Some(content)
  {
    a := Escape(name);
    b := Escape(path);
    c := ContentSection(content);
    AttributeReadsBack(name);
    AttributeReadsBack(path);
    CDataRoundTrip(content);
  }

  /** A directory element reads back: its two attribute values hold no
      `"` and decode to the name and path, and between its open and close
      tags stand its children's elements one level deeper. */
  lemma DirectoryElementDecodes(name: string, path: string, children: seq<Item>, indent: nat)
    returns (a: string, b: string)
    ensures ItemXml(Dir(name, path, children), indent)
         == Pad(indent) + "<directory name=\"" + a + "\" path=\"" + b + "\">\n"
            + ContentsXml(children, indent + 1) + Pad(indent) + "</directory>"
    ensures '"' !in a && Unescape(a) == name
    ensures '"' !in b && Unescape(b) == path
  {
    a := Escape(name);
    b := Escape(path);
    AttributeReadsBack(name);
    AttributeReadsBack(path);
  }

  /** The elements of `formatContents` are joined by newlines, so the text
      ends with the last item's element. */
  lemma {:induction false} JoinEndsWithLast(parts: seq<string>, sep: string) returns (pre: string)
    requires parts != []
    ensures Join(parts, sep) == pre + parts[|parts| - 1]
    decreases |parts|
  {
    if |parts| == 1 {
      pre := [];
    } else {
      var rest := JoinEndsWithLast(parts[1..], sep);
      pre := parts[0] + sep + rest;
      assert parts[1..][|parts[1..]| - 1] == parts[|parts| - 1];
    }
  }

  /** Every element ends with the `>` of its closing tag. */
  lemma ItemXmlEndsWithTag(item: Item, indent: nat)
    ensures |ItemXml(item, indent)| > 0
    ensures ItemXml(item, indent)[|ItemXml(item, indent)| - 1] == '>'
  {
    match item
    case Dir(name, path, children) =>
      var pre := Pad(indent) + "<directory name=\"" + Escape(name) + "\" path=\"" + Escape(path) + "\">\n"
        + ContentsXml(children, indent + 1);
      LastOfAppend(Pad(indent), "</directory>");
      LastOfAppend(pre, Pad(indent) + "</directory>");
      assert ItemXml(item, indent) == pre + (Pad(indent) + "</directory>");
    case File(name, path, content) =>
      var pre := Pad(indent) + "<file name=\"" + Escape(name) + "\" path=\"" + Escape(path) + "\">\n"
        + Pad(indent) + "  <content>" + ContentSection(content) + "</content>\n";
      LastOfAppend(Pad(indent), "</file>");
      LastOfAppend(pre, Pad(indent) + "</file>");
      assert ItemXml(item, indent) == pre + (Pad(indent) + "</file>");
  }

  /** A directory's closing tag is not on a line of its own: it follows the
      `>` that ends its last child's element, separated from it only by the
      indentation. */
  lemma DirectoryCloseFollowsLastChild(name: string, path: string, children: seq<Item>, indent: nat)
    returns (pre: string)
    requires children != []
    ensures ItemXml(Dir(name, path, children), indent)
         == pre + ItemXml(children[|children| - 1], indent + 1) + Pad(indent) + "</directory>"
  {
    var items := ItemsXml(children, indent + 1);
    var before := JoinEndsWithLast(items, "\n");
    var open := Pad(indent) + "<directory name=\"" + Escape(name) + "\" path=\"" + Escape(path) + "\">\n";
    var close := Pad(indent) + "</directory>";
    var last := ItemXml(children[|children| - 1], indent + 1);
    assert ItemXml(Dir(name, path, children), indent) == open + ContentsXml(children, indent + 1) + close;
    assert ContentsXml(children, indent + 1) == before + last;
    pre := open + before;
    AppendAssoc(open, before, last);
  }

  /** The `<tree_structure>` block is present exactly when `includeTree`
      is set: the document with the tree is the one without it, with the
      block inserted right after `</metadata>`; nothing else differs. */
  lemma TreeBlockOnlyWhenAsked(contents: seq<Item>, owner: string, repo: string, branch: string,
                               fetchDate: string)
    ensures var head := XmlHead(owner, repo, branch, fetchDate);
      var without := FormatXml(contents, owner, repo, branch, false, fetchDate);
      |head| <= |without|
      && without == head + XmlBody(contents)
      && FormatXml(contents, owner, repo, branch, true, fetchDate)
         == without[..|head|] + TreeSection(contents) + without[|head|..]
  {
    var head := XmlHead(owner, repo, branch, fetchDate);
    var body := XmlBody(contents);
    assert FormatXml(contents, owner, repo, branch, false, fetchDate) == head + body by {
      assert head + "" == head;
    }
    SplitAfter(head, body);
  }

  /** The tree block holds the outline of `formatTree` with every line
      indented by six spaces; removing that indentation gives the outline
      back. */
  lemma TreeSectionHoldsTree(contents: seq<Item>) returns (body: string)
    ensures TreeSection(contents)
         == "\n    <tree_structure>\n      <![CDATA[\n" + body + "\n      ]]>\n    </tree_structure>"
    ensures forall k :: 0 <= k < |Split(body, '\n')| ==> 6 <= |Split(body, '\n')[k]|
    ensures Join(DropEach(Split(body, '\n'), 6), "\n") == Tree(contents, 0)
  {
    body := IndentLines(Tree(contents, 0), "      ");
    IndentLinesRoundTrip(Tree(contents, 0), "      ");
  }
}
