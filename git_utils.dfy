/** The pure part of reading the repository's ignore file: the text is
    split into lines, blank lines and lines starting with `#` are dropped,
    and every other line, untrimmed, goes through the same glob-to-regex
    translation as the custom and standard patterns. Reading the file is
    not modelled: its outcome is an `Option`, `None` when the file is
    missing or unreadable. */
module GitUtils {
  import opened Text
  import opened IgnorePatterns

  /** `line.trim() && !line.startsWith('#')`. */
  predicate KeepLine(line: string)
  {
    Trim(line) != [] && !StartsWith(line, "#")
  }

  /** The lines of the ignore file that become patterns:
      `content.split('\n').filter(KeepLine)`. */
  function GitignoreLines(content: string): (r: seq<string>)
    ensures forall k :: 0 <= k < |r| ==> KeepLine(r[k])
  {
    Filter(Split(content, '\n'), KeepLine)
  }

  /** Every kept line of `content` is inside the modelled regex dialect. */
  predicate GitignoreInDialect(content: string)
  {
    forall l :: l in GitignoreLines(content) ==> InDialect(l)
  }

  /** `getGitignorePatterns` after the read: `None` (no file, or the read
      failed) gives the empty list; otherwise one compiled regex per kept
      line, in file order, each built from `Translate(line)`. */
  function GitignorePatterns(file: Option<string>): (res: seq<Regex>)
    requires file.Some? ==> GitignoreInDialect(file.value)
    ensures file.None? ==> res == []
    ensures file.Some? ==> |res| == |GitignoreLines(file.value)|
    ensures file.Some? ==> forall k :: 0 <= k < |res| ==>
      Parse(Translate(GitignoreLines(file.value)[k])) == Some(res[k])
  {
    match file
    case None => []
    case Some(content) => CompileGlobs(GitignoreLines(content))
  }
}

// Lemmas about the ignore-file filter.
module GitUtilsProperties {
  import opened Text
  import opened IgnorePatterns
  import opened GitUtils

  /** The kept lines are exactly the passing lines of the file, picked out
      at strictly increasing positions, untrimmed: same order, nothing
      skipped, nothing added. */
  lemma GitignoreLinesPositions(content: string) returns (idx: seq<int>)
    ensures |idx| == |GitignoreLines(content)|
    ensures StrictlyIncreasing(idx)
    ensures forall m :: 0 <= m < |idx| ==>
      0 <= idx[m] < |Split(content, '\n')|
      && GitignoreLines(content)[m] == Split(content, '\n')[idx[m]]
    ensures forall k :: 0 <= k < |Split(content, '\n')| ==>
      (KeepLine(Split(content, '\n')[k]) <==> k in idx)
  {
    idx := FilterPositions(Split(content, '\n'), KeepLine);
  }

  /** A line of the file becomes a pattern iff it passes the test. */
  lemma GitignoreLinesMembership(content: string, line: string)
    ensures line in GitignoreLines(content) <==> line in Split(content, '\n') && KeepLine(line)
  {
    FilterMembership(Split(content, '\n'), KeepLine, line);
  }

  /** The lines of two files joined by a newline are the lines of the
      first followed by those of the second. */
  lemma GitignoreLinesAppend(a: string, b: string)
    ensures GitignoreLines(a + "\n" + b) == GitignoreLines(a) + GitignoreLines(b)
  {
    SplitAppend(a, b, '\n');
    FilterAppend(Split(a, '\n'), Split(b, '\n'), KeepLine);
  }

  /** A line is kept iff it is not blank and does not start with `#`. */
  lemma KeepLineIff(line: string)
    ensures KeepLine(line) <==> !IsBlank(line) && (line == [] || line[0] != '#')
  {
  }

  /** Comments are recognised only at column 0: `  #x` is kept, `#x` and a
      blank line are not. */
  lemma CommentOnlyAtFirstColumn()
    ensures KeepLine("  #x")
    ensures !KeepLine("#x")
    ensures !KeepLine(" \t ")
  {
    var indented, comment, blank := "  #x", "#x", " \t ";
    assert !IsBlank(indented) by {
      assert !IsWhitespace(indented[2]);
    }
    assert indented[0] != '#';
    assert comment[0] == '#';
    assert IsBlank(blank) by {
      assert forall i :: 0 <= i < |blank| ==> blank[i] == ' ' || blank[i] == '\t';
    }
    KeepLineIff(indented);
    KeepLineIff(comment);
    KeepLineIff(blank);
  }

  /** A regex with a literal character absent from the text cannot match a
      piece of it. */
  lemma {:induction false} FullNeedsLiteral(re: Regex, w: string, c: char)
    requires Lit(c) in re && Full(re, w)
    ensures c in w
    decreases |re|
  {
    match re[0]
    case Lit(d) =>
      if d != c {
        assert Lit(c) in re[1..];
        FullNeedsLiteral(re[1..], w[1..], c);
        assert forall x :: x in w[1..] ==> x in w;
      }
    case DotStar =>
      assert Lit(c) in re[1..];
      var k :| 0 <= k <= |w| && AllDots(w[..k]) && Full(re[1..], w[k..]);
      FullNeedsLiteral(re[1..], w[k..], c);
      assert forall x :: x in w[k..] ==> x in w;
  }

  lemma LiteralAbsentNoMatch(re: Regex, s: string, c: char)
    requires Lit(c) in re && c !in s
    ensures !Test(re, s)
  {
    if Test(re, s) {
      var i, j := TestWitness(re, s);
      FullNeedsLiteral(re, s[i..j], c);
    }
  }

  /** Kept lines are not trimmed: a line `dist\r` from a file with
      Windows line endings keeps its carriage return, so its pattern
      cannot match any path without one. */
  lemma UntrimmedLineKeepsCarriageReturn(content: string, path: string)
    requires GitignoreInDialect(content)
    requires "dist\r" in GitignoreLines(content)
    requires '\r' !in path
    ensures exists k :: (0 <= k < |GitignorePatterns(Some(content))|
                         && GitignoreLines(content)[k] == "dist\r"
                         && !Test(GitignorePatterns(Some(content))[k], path))
  {
    var lines := GitignoreLines(content);
    var res := GitignorePatterns(Some(content));
    var k :| 0 <= k < |lines| && lines[k] == "dist\r";
    assert res == CompileGlobs(lines);
    assert res[k] == Glob(lines[k]);
    GlobHasLiteral(lines[k], 4);
    LiteralAbsentNoMatch(res[k], path, '\r');
    assert 0 <= k < |res| && lines[k] == "dist\r" && !Test(res[k], path);
  }

  lemma {:induction false} GlobHasLiteral(p: string, n: int)
    requires 0 <= n < |p| && p[n] != '*'
    ensures Lit(p[n]) in Glob(p)
  {
    if n > 0 {
      assert p[1..][n - 1] == p[n];
      GlobHasLiteral(p[1..], n - 1);
    }
  }
}
