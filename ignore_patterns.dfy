/** Ignore rules: the standard pattern list, the glob-to-regex translation
    (every `*` replaced by `.*`, then every `.` by `\.`), the regular expressions
    that translation can produce, unanchored `RegExp.prototype.test`, and the
    `shouldIgnore` decision that combines the three rule sources. */
module IgnorePatterns {
  import opened Text

  /** The patterns applied when `useStandardIgnore` is set, in source order. */
  const StandardIgnorePatterns: seq<string> := [
    ".git", ".github", ".gitignore", ".gitattributes",
    "node_modules", "venv", "__pycache__",
    ".DS_Store", "Thumbs.db",
    "*.log", "*.tmp", "*.temp",
    "*.swp", "*.swo", "*.bak",
    "build", "dist", "out",
    "coverage", ".nyc_output",
    ".env", ".env.local", ".env.*.local"
  ]

  // ---------------------------------------------------------------------
  // Glob to regex source
  // ---------------------------------------------------------------------

  /** First pass: every `*` replaced by `.*`. */
  function ReplaceStars(p: string): string
  {
    if p == [] then [] else (if p[0] == '*' then ".*" else [p[0]]) + ReplaceStars(p[1..])
  }

  /** Second pass: every `.` replaced by `\.`, including
      the ones the first pass introduced. */
  function EscapeDots(r: string): string
  {
    if r == [] then [] else (if r[0] == '.' then "\\." else [r[0]]) + EscapeDots(r[1..])
  }

  /** The two chained replacements, as written. */
  function Translate(p: string): string
  {
    EscapeDots(ReplaceStars(p))
  }

  /** What one glob character becomes: `*` turns into `\.*` (zero or more
      dots), `.` into `\.`, anything else stays. */
  function TranslateChar(c: char): string
  {
    if c == '*' then "\\.*" else if c == '.' then "\\." else [c]
  }

  /** Reference definition: the translation done one character at a time. */
  function CharwiseTranslation(p: string): string
  {
    if p == [] then [] else TranslateChar(p[0]) + CharwiseTranslation(p[1..])
  }

  lemma {:induction false} EscapeDotsAppend(a: string, b: string)
    ensures EscapeDots(a + b) == EscapeDots(a) + EscapeDots(b)
  {
    if a != [] {
      assert (a + b)[1..] == a[1..] + b;
      assert (a + b)[0] == a[0];
      EscapeDotsAppend(a[1..], b);
    } else {
      assert a + b == b;
    }
  }

  /** The two-pass replacement is the per-character map above: so `*`
      ends up as `\.*`, "zero or more dots", not "any characters". */
  lemma {:induction false} TranslateIsCharwise(p: string)
    ensures Translate(p) == CharwiseTranslation(p)
  {
    if p != [] {
      var head := if p[0] == '*' then ".*" else [p[0]];
      EscapeDotsAppend(head, ReplaceStars(p[1..]));
      TranslateIsCharwise(p[1..]);
      if p[0] == '*' {
        assert EscapeDots(".*") == "\\." + EscapeDots("*");
      }
    }
  }

  // ---------------------------------------------------------------------
  // The regular-expression dialect and its parser
  // ---------------------------------------------------------------------

  /** Regex syntax characters other than `.` and `*`; a glob holding one of
      them compiles to a regex outside the modelled dialect. */
  predicate IsRegexSyntax(c: char)
  {
    || c == '\\' || c == '^' || c == '$' || c == '+' || c == '?' || c == '|'
    || c == '(' || c == ')' || c == '[' || c == ']' || c == '{' || c == '}'
  }

  /** A glob whose translation stays inside the modelled dialect. */
  predicate InDialect(p: string)
  {
    forall i :: 0 <= i < |p| ==> !IsRegexSyntax(p[i])
  }

  /** One element of a compiled pattern: a literal character (`\.` is the
      literal dot) or `\.*`, any run of dots. */
  datatype Atom = Lit(c: char) | DotStar

  type Regex = seq<Atom>

  function Prepend(a: Atom, rest: Option<Regex>): Option<Regex>
  {
    if rest.Some? then Some([a] + rest.value) else None
  }

  /** `new RegExp(source)` restricted to the dialect: `\.*`, `\.` and plain
      characters; None for anything else. */
  function Parse(source: string): Option<Regex>
    decreases |source|
  {
    if source == [] then Some([])
    else if source[0] == '\\' then
      if |source| >= 2 && source[1] == '.' then
        if |source| >= 3 && source[2] == '*' then Prepend(DotStar, Parse(source[3..]))
        else Prepend(Lit('.'), Parse(source[2..]))
      else None
    else if source[0] == '.' || source[0] == '*' || IsRegexSyntax(source[0]) then None
    else Prepend(Lit(source[0]), Parse(source[1..]))
  }

  /** The meaning of a glob under the source's translation: `*` is a run of
      dots, every other character stands for itself. */
  function Glob(p: string): Regex
  {
    if p == [] then [] else [if p[0] == '*' then DotStar else Lit(p[0])] + Glob(p[1..])
  }

  lemma {:induction false} CharwiseHead(p: string)
    requires p != []
    ensures CharwiseTranslation(p) != [] && CharwiseTranslation(p)[0] != '*'
  {
  }

  /** Every glob in the dialect translates to a regex source the parser
      accepts, and it means `Glob(p)`. */
  lemma {:induction false} ParseTranslate(p: string)
    requires InDialect(p)
    ensures Parse(Translate(p)) == Some(Glob(p))
  {
    TranslateIsCharwise(p);
    ParseCharwise(p);
  }

  lemma {:induction false} ParseCharwise(p: string)
    requires InDialect(p)
    ensures Parse(CharwiseTranslation(p)) == Some(Glob(p))
  {
    if p != [] {
      var rest := CharwiseTranslation(p[1..]);
      assert InDialect(p[1..]) by {
        forall i | 0 <= i < |p[1..]| ensures !IsRegexSyntax(p[1..][i]) {
          assert p[1..][i] == p[i + 1];
        }
      }
      ParseCharwise(p[1..]);
      var s := CharwiseTranslation(p);
      assert !IsRegexSyntax(p[0]);
      if p[0] == '*' {
        assert s == "\\.*" + rest;
        assert s[3..] == rest;
      } else if p[0] == '.' {
        assert s == "\\." + rest;
        assert s[2..] == rest;
        if rest != [] { CharwiseHead(p[1..]); }
      } else {
        assert s == [p[0]] + rest;
        assert s[1..] == rest;
      }
    }
  }

  /** `new RegExp(Translate(p))` for one glob: the regex it builds is
      `Glob(p)`. */
  function CompileGlob(p: string): (re: Regex)
    requires InDialect(p)
    ensures Parse(Translate(p)) == Some(re)
  {
    ParseTranslate(p);
    Glob(p)
  }

  /** `ps.map(p => new RegExp(Translate(p)))`. */
  function CompileGlobs(ps: seq<string>): (res: seq<Regex>)
    requires forall p :: p in ps ==> InDialect(p)
    ensures |res| == |ps|
    ensures forall k :: 0 <= k < |ps| ==> res[k] == Glob(ps[k])
    ensures forall k :: 0 <= k < |ps| ==> Parse(Translate(ps[k])) == Some(res[k])
  {
    if ps == [] then [] else [CompileGlob(ps[0])] + CompileGlobs(ps[1..])
  }

  // ---------------------------------------------------------------------
  // Matching
  // ---------------------------------------------------------------------

  predicate AllDots(w: string)
  {
    forall i :: 0 <= i < |w| ==> w[i] == '.'
  }

  /** Reference semantics: `re` matches the whole of `w`. */
  ghost predicate Full(re: Regex, w: string)
    decreases |re|
  {
    if re == [] then w == []
    else match re[0]
      case Lit(c) => |w| > 0 && w[0] == c && Full(re[1..], w[1..])
      case DotStar => exists k :: 0 <= k <= |w| && AllDots(w[..k]) && Full(re[1..], w[k..])
  }

  /** Backtracking match of `re` against some prefix of `s`. */
  predicate MatchPrefix(re: Regex, s: string)
    decreases |re|, |s|
  {
    if re == [] then true
    else match re[0]
      case Lit(c) => |s| > 0 && s[0] == c && MatchPrefix(re[1..], s[1..])
      case DotStar => MatchPrefix(re[1..], s) || (|s| > 0 && s[0] == '.' && MatchPrefix(re, s[1..]))
  }

  /** `RegExp.prototype.test` for a pattern without anchors: try every start. */
  predicate Test(re: Regex, s: string)
    decreases |s|
  {
    MatchPrefix(re, s) || (|s| > 0 && Test(re, s[1..]))
  }

  /** What `MatchPrefix` finds is a prefix `re` matches. */
  lemma {:induction false} MatchPrefixWitness(re: Regex, s: string) returns (j: int)
    requires MatchPrefix(re, s)
    ensures 0 <= j <= |s| && Full(re, s[..j])
    decreases |re|, |s|
  {
    if re == [] {
      j := 0;
    } else {
      match re[0]
      case Lit(c) =>
        var j' := MatchPrefixWitness(re[1..], s[1..]);
        j := j' + 1;
        assert s[..j][1..] == s[1..][..j'];
      case DotStar =>
        if MatchPrefix(re[1..], s) {
          j := MatchPrefixWitness(re[1..], s);
          assert AllDots(s[..j][..0]) && s[..j][0..] == s[..j];
        } else {
          var j' := MatchPrefixWitness(re, s[1..]);
          j := j' + 1;
          var w := s[1..][..j'];
          var k :| 0 <= k <= |w| && AllDots(w[..k]) && Full(re[1..], w[k..]);
          var w' := s[..j];
          assert w'[k + 1..] == w[k..];
          var d := w'[..k + 1];
          assert AllDots(d) by {
            forall i | 0 <= i < |d| ensures d[i] == '.' {
              if i > 0 { assert d[i] == w[..k][i - 1]; }
            }
          }
        }
    }
  }

  /** Every prefix `re` matches is found by `MatchPrefix`. */
  lemma {:induction false} MatchPrefixComplete(re: Regex, s: string, j: int)
    requires 0 <= j <= |s| && Full(re, s[..j])
    ensures MatchPrefix(re, s)
    decreases |re|, |s|
  {
    if re != [] {
      var w := s[..j];
      match re[0]
      case Lit(c) =>
        assert w[1..] == s[1..][..j - 1];
        MatchPrefixComplete(re[1..], s[1..], j - 1);
      case DotStar =>
        var k :| 0 <= k <= |w| && AllDots(w[..k]) && Full(re[1..], w[k..]);
        if k == 0 {
          assert w[0..] == w;
          MatchPrefixComplete(re[1..], s, j);
        } else {
          FullDropDot(re, w, k);
          assert w[1..] == s[1..][..j - 1];
          MatchPrefixComplete(re, s[1..], j - 1);
        }
    }
  }

  /** A leading `.*` that consumed `k > 0` dots of `w` also matches
      `w` without its first dot. */
  lemma FullDropDot(re: Regex, w: string, k: int)
    requires re != [] && re[0] == DotStar
    requires 0 < k <= |w| && AllDots(w[..k]) && Full(re[1..], w[k..])
    ensures w[0] == '.' && Full(re, w[1..])
  {
    assert w[..k][0] == '.';
    var v := w[1..];
    assert v[k - 1..] == w[k..];
    var d := v[..k - 1];
    assert AllDots(d) by {
      forall i | 0 <= i < |d| ensures d[i] == '.' {
        assert d[i] == w[..k][i + 1];
      }
    }
  }

  /** `re` matches the piece `s[i..j]` of `s`. */
  ghost predicate MatchesAt(re: Regex, s: string, i: int, j: int)
  {
    0 <= i <= j <= |s| && Full(re, s[i..j])
  }

  lemma {:induction false} TestWitness(re: Regex, s: string) returns (i: int, j: int)
    requires Test(re, s)
    ensures MatchesAt(re, s, i, j)
    decreases |s|
  {
    if MatchPrefix(re, s) {
      j := MatchPrefixWitness(re, s);
      i := 0;
      assert s[0..j] == s[..j];
    } else {
      var i', j' := TestWitness(re, s[1..]);
      i, j := i' + 1, j' + 1;
      assert s[i..j] == s[1..][i'..j'];
    }
  }

  lemma {:induction false} TestFromMatch(re: Regex, s: string, i: int, j: int)
    requires MatchesAt(re, s, i, j)
    ensures Test(re, s)
    decreases |s|
  {
    if i == 0 {
      assert s[..j] == s[i..j];
      MatchPrefixComplete(re, s, j);
    } else {
      assert s[1..][i - 1..j - 1] == s[i..j];
      TestFromMatch(re, s[1..], i - 1, j - 1);
    }
  }

  /** `test` is an unanchored search: it succeeds iff the pattern matches
      some contiguous piece of the input. */
  lemma TestIffSubstring(re: Regex, s: string)
    ensures Test(re, s) <==> exists i, j :: MatchesAt(re, s, i, j)
  {
    if Test(re, s) {
      var i, j := TestWitness(re, s);
    }
    if i, j :| MatchesAt(re, s, i, j) {
      TestFromMatch(re, s, i, j);
    }
  }

  // ---------------------------------------------------------------------
  // shouldIgnore
  // ---------------------------------------------------------------------

  /** `lines.map(p => p.trim()).filter(Boolean)`. */
  function TrimmedNonEmpty(lines: seq<string>): (ps: seq<string>)
    ensures |ps| <= |lines|
    ensures forall k :: 0 <= k < |ps| ==> ps[k] != [] && !IsWhitespace(ps[k][0])
  {
    if lines == [] then []
    else (if Trim(lines[0]) == [] then [] else [Trim(lines[0])]) + TrimmedNonEmpty(lines[1..])
  }

  /** `lines.map(p => p.trim())`. */
  function TrimEach(lines: seq<string>): (r: seq<string>)
    ensures |r| == |lines|
    ensures forall k :: 0 <= k < |r| ==> r[k] == Trim(lines[k])
  {
    seq(|lines|, k requires 0 <= k < |lines| => Trim(lines[k]))
  }

  /** `Boolean(p)` for a string: only the empty string is falsy. */
  predicate IsNonEmpty(p: string)
  {
    p != []
  }

  /** The custom patterns typed by the user, one per line. */
  function CustomPatterns(customIgnore: string): seq<string>
  {
    TrimmedNonEmpty(Split(customIgnore, '\n'))
  }

  /** All the user's patterns lie inside the modelled dialect. */
  predicate CustomInDialect(customIgnore: string)
  {
    forall p :: p in CustomPatterns(customIgnore) ==> InDialect(p)
  }

  // The standard entries lie inside the dialect, checked a few source
  // lines at a time.

  lemma StandardInDialectFrom0()
    ensures forall k :: 0 <= k < 4 ==> InDialect(StandardIgnorePatterns[k])
  {
  }

  lemma StandardInDialectFrom4()
    ensures forall k :: 4 <= k < 8 ==> InDialect(StandardIgnorePatterns[k])
  {
  }

  lemma StandardInDialectFrom8()
    ensures forall k :: 8 <= k < 12 ==> InDialect(StandardIgnorePatterns[k])
  {
  }

  lemma StandardInDialectFrom12()
    ensures forall k :: 12 <= k < 16 ==> InDialect(StandardIgnorePatterns[k])
  {
  }

  lemma StandardInDialectFrom16()
    ensures forall k :: 16 <= k < 20 ==> InDialect(StandardIgnorePatterns[k])
  {
  }

  lemma StandardInDialectFrom20()
    ensures forall k :: 20 <= k < |StandardIgnorePatterns| ==> InDialect(StandardIgnorePatterns[k])
  {
  }

  /** `standardIgnorePatterns.map(p => new RegExp(...))`: every standard
      entry translates to a source `new RegExp` accepts, meaning its glob. */
  function StandardRegexes(): (res: seq<Regex>)
    ensures |res| == |StandardIgnorePatterns|
    ensures forall k :: 0 <= k < |res| ==> res[k] == Glob(StandardIgnorePatterns[k])
    ensures forall k :: 0 <= k < |res| ==> Parse(Translate(StandardIgnorePatterns[k])) == Some(res[k])
  {
    StandardInDialectFrom0();
    StandardInDialectFrom4();
    StandardInDialectFrom8();
    StandardInDialectFrom12();
    StandardInDialectFrom16();
    StandardInDialectFrom20();
    StandardTranslationsParse();
    seq(|StandardIgnorePatterns|, k requires 0 <= k < |StandardIgnorePatterns| => Glob(StandardIgnorePatterns[k]))
  }

  lemma StandardTranslationsParse()
    requires forall k :: 0 <= k < |StandardIgnorePatterns| ==> InDialect(StandardIgnorePatterns[k])
    ensures forall k :: 0 <= k < |StandardIgnorePatterns| ==>
      Parse(Translate(StandardIgnorePatterns[k])) == Some(Glob(StandardIgnorePatterns[k]))
  {
    forall k | 0 <= k < |StandardIgnorePatterns| {
      ParseTranslate(StandardIgnorePatterns[k]);
    }
  }

  function CustomRegexes(customIgnore: string): seq<Regex>
    requires CustomInDialect(customIgnore)
  {
    CompileGlobs(CustomPatterns(customIgnore))
  }

  /** The `allPatterns` array: gitignore rules if enabled, then the
      standard ones if enabled, then the custom ones. */
  function AllPatterns(gitignorePatterns: seq<Regex>, useGitignore: bool,
                       useStandardIgnore: bool, customIgnore: string): seq<Regex>
    requires CustomInDialect(customIgnore)
  {
    (if useGitignore then gitignorePatterns else [])
    + (if useStandardIgnore then StandardRegexes() else [])
    + CustomRegexes(customIgnore)
  }

  /** `patterns.some(pattern => pattern.test(path))`. */
  predicate AnyMatches(patterns: seq<Regex>, path: string)
  {
    patterns != [] && (Test(patterns[0], path) || AnyMatches(patterns[1..], path))
  }

  predicate ShouldIgnore(path: string, gitignorePatterns: seq<Regex>, useGitignore: bool,
                         useStandardIgnore: bool, customIgnore: string)
    requires CustomInDialect(customIgnore)
  {
    AnyMatches(AllPatterns(gitignorePatterns, useGitignore, useStandardIgnore, customIgnore), path)
  }

  lemma {:induction false} AnyMatchesIff(patterns: seq<Regex>, path: string)
    ensures AnyMatches(patterns, path) <==> exists k :: 0 <= k < |patterns| && Test(patterns[k], path)
  {
    if patterns != [] {
      AnyMatchesIff(patterns[1..], path);
      if k :| 0 <= k < |patterns| && Test(patterns[k], path) {
        if k > 0 { assert patterns[1..][k - 1] == patterns[k]; }
      }
      if AnyMatches(patterns[1..], path) {
        var k :| 0 <= k < |patterns[1..]| && Test(patterns[1..][k], path);
        assert patterns[k + 1] == patterns[1..][k];
      }
    }
  }

  lemma {:induction false} AnyMatchesAppend(a: seq<Regex>, b: seq<Regex>, path: string)
    ensures AnyMatches(a + b, path) <==> AnyMatches(a, path) || AnyMatches(b, path)
  {
    if a == [] {
      assert a + b == b;
    } else {
      assert (a + b)[1..] == a[1..] + b;
      assert (a + b)[0] == a[0];
      AnyMatchesAppend(a[1..], b, path);
    }
  }

  /** Each rule source counts exactly when its flag is on; custom rules
      always count. */
  lemma ShouldIgnoreBySource(path: string, gitignorePatterns: seq<Regex>, useGitignore: bool,
                             useStandardIgnore: bool, customIgnore: string)
    requires CustomInDialect(customIgnore)
    ensures ShouldIgnore(path, gitignorePatterns, useGitignore, useStandardIgnore, customIgnore)
        <==> ((useGitignore && AnyMatches(gitignorePatterns, path))
              || (useStandardIgnore && AnyMatches(StandardRegexes(), path))
              || AnyMatches(CustomRegexes(customIgnore), path))
  {
    var g := if useGitignore then gitignorePatterns else [];
    var st := if useStandardIgnore then StandardRegexes() else [];
    AnyMatchesAppend(g + st, CustomRegexes(customIgnore), path);
    AnyMatchesAppend(g, st, path);
  }

  /** A path is ignored iff some assembled pattern matches some contiguous
      piece of it. */
  lemma ShouldIgnoreIff(path: string, gitignorePatterns: seq<Regex>, useGitignore: bool,
                        useStandardIgnore: bool, customIgnore: string)
    requires CustomInDialect(customIgnore)
    ensures var ps := AllPatterns(gitignorePatterns, useGitignore, useStandardIgnore, customIgnore);
      (ShouldIgnore(path, gitignorePatterns, useGitignore, useStandardIgnore, customIgnore)
       <==> exists k, i, j :: 0 <= k < |ps| && MatchesAt(ps[k], path, i, j))
  {
    var ps := AllPatterns(gitignorePatterns, useGitignore, useStandardIgnore, customIgnore);
    AnyMatchesIff(ps, path);
    if AnyMatches(ps, path) {
      var k :| 0 <= k < |ps| && Test(ps[k], path);
      var i, j := TestWitness(ps[k], path);
    }
    if k, i, j :| 0 <= k < |ps| && MatchesAt(ps[k], path, i, j) {
      TestFromMatch(ps[k], path, i, j);
    }
  }
}

// Lemmas about the custom-pattern text and the ignore decision.
module IgnoreProperties {
  import opened Text
  import opened IgnorePatterns

  lemma BlankCons(c: char, t: string)
    ensures IsBlank([c] + t) <==> IsWhitespace(c) && IsBlank(t)
  {
    var s := [c] + t;
    assert s[0] == c;
    assert forall i :: 0 <= i < |t| ==> t[i] == s[i + 1];
    if IsWhitespace(c) && IsBlank(t) {
      forall i | 0 <= i < |s| ensures IsWhitespace(s[i]) {
        if i > 0 { assert s[i] == t[i - 1]; }
      }
    }
  }

  lemma TrimmedNonEmptyCons(x: string, ys: seq<string>)
    ensures TrimmedNonEmpty([x] + ys) == []
        <==> IsBlank(x) && TrimmedNonEmpty(ys) == []
  {
    assert ([x] + ys)[1..] == ys;
  }

  /** Blank or whitespace-only custom input contributes no pattern, and
      any other input contributes at least one. */
  lemma {:induction false} CustomPatternsEmptyIffBlank(customIgnore: string)
    ensures CustomPatterns(customIgnore) == [] <==> IsBlank(customIgnore)
  {
    var s := customIgnore;
    if s != [] {
      var rest := Split(s[1..], '\n');
      CustomPatternsEmptyIffBlank(s[1..]);
      BlankCons(s[0], s[1..]);
      assert [s[0]] + s[1..] == s;
      assert rest == [rest[0]] + rest[1..];
      TrimmedNonEmptyCons(rest[0], rest[1..]);
      if s[0] == '\n' {
        assert Split(s, '\n') == [[]] + rest;
        TrimmedNonEmptyCons([], rest);
      } else {
        var h := [s[0]] + rest[0];
        assert Split(s, '\n') == [h] + rest[1..];
        TrimmedNonEmptyCons(h, rest[1..]);
        BlankCons(s[0], rest[0]);
      }
    }
  }

  /** One line in front contributes its trimmed form, if any, in front. */
  lemma TrimmedNonEmptyUnfold(x: string, ys: seq<string>)
    ensures TrimmedNonEmpty([x] + ys)
         == (if Trim(x) == [] then [] else [Trim(x)]) + TrimmedNonEmpty(ys)
  {
    assert ([x] + ys)[1..] == ys;
  }

  lemma {:induction false} TrimmedNonEmptyAppend(a: seq<string>, b: seq<string>)
    ensures TrimmedNonEmpty(a + b) == TrimmedNonEmpty(a) + TrimmedNonEmpty(b)
  {
    if a == [] {
      assert a + b == b;
    } else {
      var x, ys := a[0], a[1..];
      assert a == [x] + ys;
      assert a + b == [x] + (ys + b);
      TrimmedNonEmptyUnfold(x, ys + b);
      TrimmedNonEmptyAppend(ys, b);
      TrimmedNonEmptyUnfold(x, ys);
      var h := if Trim(x) == [] then [] else [Trim(x)];
      AppendAssoc(h, TrimmedNonEmpty(ys), TrimmedNonEmpty(b));
    }
  }

  /** Trimming and dropping empty lines in one pass is the source's
      `.map(p => p.trim()).filter(Boolean)`. */
  lemma {:induction false} TrimmedNonEmptyIsFilter(lines: seq<string>)
    ensures TrimmedNonEmpty(lines) == Filter(TrimEach(lines), IsNonEmpty)
  {
    if lines != [] {
      var trimmed := TrimEach(lines);
      assert trimmed[1..] == TrimEach(lines[1..]);
      TrimmedNonEmptyIsFilter(lines[1..]);
    }
  }

  /** Each pattern is the trimmed form of an input line, in input order;
      a line gives a pattern exactly when its trimmed form is not empty. */
  lemma TrimmedNonEmptyPositions(lines: seq<string>) returns (idx: seq<int>)
    ensures |idx| == |TrimmedNonEmpty(lines)|
    ensures StrictlyIncreasing(idx)
    ensures forall m :: 0 <= m < |idx| ==>
      0 <= idx[m] < |lines| && TrimmedNonEmpty(lines)[m] == Trim(lines[idx[m]])
    ensures forall k :: 0 <= k < |lines| ==> (Trim(lines[k]) != [] <==> k in idx)
  {
    TrimmedNonEmptyIsFilter(lines);
    idx := FilterPositions(TrimEach(lines), IsNonEmpty);
  }

  /** Custom lines are independent of each other: a further line only
      appends its own pattern. */
  lemma CustomPatternsAppendLine(customIgnore: string, line: string)
    ensures CustomPatterns(customIgnore + "\n" + line)
         == CustomPatterns(customIgnore) + CustomPatterns(line)
  {
    SplitAppend(customIgnore, line, '\n');
    TrimmedNonEmptyAppend(Split(customIgnore, '\n'), Split(line, '\n'));
  }

  /** With both flags off and blank custom input, nothing is ignored. */
  lemma NoRulesIgnoreNothing(path: string, gitignorePatterns: seq<Regex>, customIgnore: string)
    requires IsBlank(customIgnore)
    ensures CustomInDialect(customIgnore)
    ensures !ShouldIgnore(path, gitignorePatterns, false, false, customIgnore)
  {
    CustomPatternsEmptyIffBlank(customIgnore);
  }

  /** Turning a flag on never turns an ignored path into a kept one. */
  lemma EnablingFlagsIsMonotone(path: string, gitignorePatterns: seq<Regex>,
                                useGitignore: bool, useStandardIgnore: bool,
                                useGitignore': bool, useStandardIgnore': bool, customIgnore: string)
    requires CustomInDialect(customIgnore)
    requires useGitignore ==> useGitignore'
    requires useStandardIgnore ==> useStandardIgnore'
    requires ShouldIgnore(path, gitignorePatterns, useGitignore, useStandardIgnore, customIgnore)
    ensures ShouldIgnore(path, gitignorePatterns, useGitignore', useStandardIgnore', customIgnore)
  {
    ShouldIgnoreBySource(path, gitignorePatterns, useGitignore, useStandardIgnore, customIgnore);
    ShouldIgnoreBySource(path, gitignorePatterns, useGitignore', useStandardIgnore', customIgnore);
  }

  lemma {:induction false} CompileGlobsAppend(a: seq<string>, b: seq<string>)
    requires forall p :: p in a ==> InDialect(p)
    requires forall p :: p in b ==> InDialect(p)
    ensures forall p :: p in a + b ==> InDialect(p)
    ensures CompileGlobs(a + b) == CompileGlobs(a) + CompileGlobs(b)
  {
    if a == [] {
      assert a + b == b;
    } else {
      assert (a + b)[1..] == a[1..] + b;
      CompileGlobsAppend(a[1..], b);
    }
  }

  /** The regexes of a further custom line come after the existing ones. */
  lemma CustomRegexesAppendLine(customIgnore: string, line: string)
    requires CustomInDialect(customIgnore) && CustomInDialect(line)
    ensures CustomInDialect(customIgnore + "\n" + line)
    ensures CustomRegexes(customIgnore + "\n" + line)
         == CustomRegexes(customIgnore) + CustomRegexes(line)
  {
    CustomPatternsAppendLine(customIgnore, line);
    CompileGlobsAppend(CustomPatterns(customIgnore), CustomPatterns(line));
  }

  /** Adding a custom line never turns an ignored path into a kept one. */
  lemma AddingCustomLineIsMonotone(path: string, gitignorePatterns: seq<Regex>,
                                   useGitignore: bool, useStandardIgnore: bool,
                                   customIgnore: string, line: string)
    requires CustomInDialect(customIgnore) && CustomInDialect(line)
    requires ShouldIgnore(path, gitignorePatterns, useGitignore, useStandardIgnore, customIgnore)
    ensures CustomInDialect(customIgnore + "\n" + line)
    ensures ShouldIgnore(path, gitignorePatterns, useGitignore, useStandardIgnore, customIgnore + "\n" + line)
  {
    CustomRegexesAppendLine(customIgnore, line);
    AnyMatchesAppend(CustomRegexes(customIgnore), CustomRegexes(line), path);
    ShouldIgnoreBySource(path, gitignorePatterns, useGitignore, useStandardIgnore, customIgnore);
    ShouldIgnoreBySource(path, gitignorePatterns, useGitignore, useStandardIgnore, customIgnore + "\n" + line);
  }

  predicate AllStars(p: string)
  {
    forall i :: 0 <= i < |p| ==> p[i] == '*'
  }

  lemma {:induction false} StarsMatchEmpty(p: string)
    requires AllStars(p)
    ensures Full(Glob(p), [])
  {
    if p != [] {
      assert AllStars(p[1..]) by {
        forall i | 0 <= i < |p[1..]| ensures p[1..][i] == '*' { assert p[1..][i] == p[i + 1]; }
      }
      StarsMatchEmpty(p[1..]);
      var e: string := [];
      assert AllDots(e[..0]) && e[0..] == e;
    }
  }

  /** A custom pattern made only of `*` ignores every path, the empty one
      included: `\.*` can match the empty piece at the start. */
  lemma StarOnlyPatternIgnoresEverything(path: string, gitignorePatterns: seq<Regex>,
                                         useGitignore: bool, useStandardIgnore: bool, p: string)
    requires p != [] && AllStars(p)
    ensures CustomInDialect(p)
    ensures ShouldIgnore(path, gitignorePatterns, useGitignore, useStandardIgnore, p)
  {
    SplitNoSep(p, '\n');
    assert TrimStart(p) == p;
    assert TrimEnd(p) == p;
    assert CustomPatterns(p) == [p];
    var re := CustomRegexes(p)[0];
    assert re == Glob(p);
    StarsMatchEmpty(p);
    assert path[0..0] == [];
    TestFromMatch(re, path, 0, 0);
    AnyMatchesIff(CustomRegexes(p), path);
    ShouldIgnoreBySource(path, gitignorePatterns, useGitignore, useStandardIgnore, p);
  }

  /** A literal pattern matches any path that contains it. */
  lemma {:induction false} LiteralMatchesItself(p: string)
    requires forall i :: 0 <= i < |p| ==> p[i] != '*'
    ensures Full(Glob(p), p)
  {
    if p != [] {
      assert forall i :: 0 <= i < |p[1..]| ==> p[1..][i] == p[i + 1];
      LiteralMatchesItself(p[1..]);
    }
  }

  /** A list holding the compiled form of a star-free glob matches every
      path that contains that glob's text. */
  lemma LiteralGlobMatches(ps: seq<Regex>, k: int, p: string, path: string, i: int)
    requires 0 <= k < |ps| && ps[k] == Glob(p)
    requires forall n :: 0 <= n < |p| ==> p[n] != '*'
    requires OccursAt(p, path, i)
    ensures AnyMatches(ps, path)
  {
    LiteralMatchesItself(p);
    assert MatchesAt(ps[k], path, i, i + |p|);
    TestFromMatch(ps[k], path, i, i + |p|);
    AnyMatchesIff(ps, path);
  }

  /** With the standard list on, a path containing the star-free
      standard entry `p` is ignored, whatever the other settings. */
  lemma StandardLiteralIgnores(path: string, gitignorePatterns: seq<Regex>, useGitignore: bool,
                               customIgnore: string, k: int, p: string, i: int)
    requires CustomInDialect(customIgnore)
    requires 0 <= k < |StandardIgnorePatterns| && StandardIgnorePatterns[k] == p
    requires forall n :: 0 <= n < |p| ==> p[n] != '*'
    requires OccursAt(p, path, i)
    ensures ShouldIgnore(path, gitignorePatterns, useGitignore, true, customIgnore)
  {
    assert StandardRegexes()[k] == Glob(p);
    LiteralGlobMatches(StandardRegexes(), k, p, path, i);
    ShouldIgnoreBySource(path, gitignorePatterns, useGitignore, true, customIgnore);
  }

  /** Standard entries match as substrings: `distance.js` contains `dist`,
      so it is ignored. */
  lemma StandardDistIgnoresDistanceJs(gitignorePatterns: seq<Regex>, useGitignore: bool,
                                      customIgnore: string)
    requires CustomInDialect(customIgnore)
    ensures ShouldIgnore("distance.js", gitignorePatterns, useGitignore, true, customIgnore)
  {
    StandardLiteralIgnores("distance.js", gitignorePatterns, useGitignore, customIgnore, 16, "dist", 0);
  }

  /** Likewise `src/layout.vue` contains `out` and is ignored. */
  lemma StandardOutIgnoresLayoutVue(gitignorePatterns: seq<Regex>, useGitignore: bool,
                                    customIgnore: string)
    requires CustomInDialect(customIgnore)
    ensures ShouldIgnore("src/layout.vue", gitignorePatterns, useGitignore, true, customIgnore)
  {
    StandardLiteralIgnores("src/layout.vue", gitignorePatterns, useGitignore, customIgnore, 17, "out", 7);
  }

  /** One line of custom input without surrounding white space is one
      pattern. */
  lemma SingleCustomLine(p: string)
    requires p != [] && '\n' !in p && InDialect(p)
    requires !IsWhitespace(p[0]) && !IsWhitespace(p[|p| - 1])
    ensures CustomInDialect(p)
    ensures CustomRegexes(p) == [Glob(p)]
  {
    SplitNoSep(p, '\n');
    assert TrimStart(p) == p;
    assert TrimEnd(p) == p;
    assert CustomPatterns(p) == [p];
  }

  lemma GlobCons(c: char, t: string)
    ensures Glob([c] + t) == [if c == '*' then DotStar else Lit(c)] + Glob(t)
  {
    assert ([c] + t)[1..] == t;
  }

  // The translation turns `*` into `\.*`, "any run of dots", not "any
  // characters": the custom pattern `a*b` keeps `axb` and ignores `a..b`.

  lemma GlobOfAStarB()
    ensures Glob("a*b") == [Lit('a'), DotStar, Lit('b')]
  {
    GlobCons('b', []);
    assert "b" == ['b'] + [];
    GlobCons('*', "b");
    assert "*b" == ['*'] + "b";
    GlobCons('a', "*b");
    assert "a*b" == ['a'] + "*b";
  }

  lemma AStarBSkipsAxb()
    ensures !Test([Lit('a'), DotStar, Lit('b')], "axb")
  {
    var re, s := [Lit('a'), DotStar, Lit('b')], "axb";
    assert !MatchPrefix(re[2..], s[1..]);
    assert !MatchPrefix(re[1..], s[1..]);
    assert !MatchPrefix(re, s);
    assert !MatchPrefix(re, s[1..]);
    assert !MatchPrefix(re, s[2..]);
    assert !Test(re, s[2..][1..]);
    assert !Test(re, s[2..]);
    assert !Test(re, s[1..]);
  }

  lemma AStarBFindsADotDotB()
    ensures Test([Lit('a'), DotStar, Lit('b')], "a..b")
  {
    var re, s := [Lit('a'), DotStar, Lit('b')], "a..b";
    assert MatchPrefix(re[2..], s[3..]);
    assert MatchPrefix(re[1..], s[3..]);
    assert MatchPrefix(re[1..], s[2..]);
    assert MatchPrefix(re[1..], s[1..]);
  }

  lemma CustomStarMatchesDotsOnly()
    ensures CustomInDialect("a*b")
    ensures !ShouldIgnore("axb", [], false, false, "a*b")
    ensures ShouldIgnore("a..b", [], false, false, "a*b")
  {
    SingleCustomLine("a*b");
    GlobOfAStarB();
    AStarBSkipsAxb();
    AStarBFindsADotDotB();
    ShouldIgnoreBySource("axb", [], false, false, "a*b");
    ShouldIgnoreBySource("a..b", [], false, false, "a*b");
  }
}
