/** String helpers shared by the model: the JavaScript string methods the
    pipeline relies on (split on a character, join with a separator, trim,
    repeat), stated over `seq<char>`. */
module Text {

  datatype Option<+T> = None | Some(value: T)

  /** The characters `String.prototype.trim` removes: the ECMAScript
      WhiteSpace set (tab, vertical tab, form feed, space, no-break space,
      the byte-order mark and the other space separators) and the four
      LineTerminator characters. */
  predicate IsWhitespace(c: char)
  {
    || c == '\t' || c == '\n' || c == '\U{B}' || c == '\U{C}' || c == '\r'
    || c == ' ' || c == '\U{A0}' || c == '\U{1680}'
    || ('\U{2000}' <= c <= '\U{200A}')
    || c == '\U{2028}' || c == '\U{2029}' || c == '\U{202F}' || c == '\U{205F}'
    || c == '\U{3000}' || c == '\U{FEFF}'
  }

  /** Every character of `s` is white space (vacuously true of ""). */
  predicate IsBlank(s: string)
  {
    forall i :: 0 <= i < |s| ==> IsWhitespace(s[i])
  }

  predicate StartsWith(s: string, prefix: string)
  {
    |prefix| <= |s| && s[..|prefix|] == prefix
  }

  /** `a` occurs in `b` starting at index `k`. */
  predicate OccursAt(a: string, b: string, k: int)
  {
    0 <= k && k + |a| <= |b| && b[k..k + |a|] == a
  }

  /** `a` occurs in `b` as a contiguous block. */
  predicate IsInfix(a: string, b: string)
  {
    exists k :: 0 <= k <= |b| - |a| && OccursAt(a, b, k)
  }

  /** Concatenation regrouped, for proofs that extend a text piece by
      piece. */
  lemma AppendAssoc<T>(a: seq<T>, b: seq<T>, c: seq<T>)
    ensures a + b + c == a + (b + c)
  {
  }

  /** The two halves of a concatenation, taken back apart. */
  lemma SplitAfter<T>(head: seq<T>, body: seq<T>)
    ensures (head + body)[..|head|] == head && (head + body)[|head|..] == body
  {
  }

  /** The last element of a concatenation is that of its second part. */
  lemma LastOfAppend<T>(a: seq<T>, b: seq<T>)
    requires b != []
    ensures |a + b| > 0 && (a + b)[|a + b| - 1] == b[|b| - 1]
  {
  }

  /** An occurrence stays an occurrence when text is added on either
      side. */
  lemma InfixEnclosed(a: string, x: string, p: string, q: string)
    requires IsInfix(a, x)
    ensures IsInfix(a, p + x + q)
  {
    var k :| 0 <= k <= |x| - |a| && OccursAt(a, x, k);
    assert (p + x + q)[|p| + k..|p| + k + |a|] == x[k..k + |a|];
    assert OccursAt(a, p + x + q, |p| + k);
  }

  /** The one-sided cases of `InfixEnclosed`. */
  lemma InfixAfter(a: string, x: string, p: string)
    requires IsInfix(a, x)
    ensures IsInfix(a, p + x)
  {
    var k :| 0 <= k <= |x| - |a| && OccursAt(a, x, k);
    assert (p + x)[|p| + k..|p| + k + |a|] == x[k..k + |a|];
    assert OccursAt(a, p + x, |p| + k);
  }

  lemma InfixBefore(a: string, x: string, q: string)
    requires IsInfix(a, x)
    ensures IsInfix(a, x + q)
  {
    var k :| 0 <= k <= |x| - |a| && OccursAt(a, x, k);
    assert (x + q)[k..k + |a|] == x[k..k + |a|];
    assert OccursAt(a, x + q, k);
  }

  function TrimStart(s: string): (r: string)
    ensures |r| <= |s| && r == s[|s| - |r|..]
    ensures r != [] ==> !IsWhitespace(r[0])
    ensures IsBlank(s[..|s| - |r|])
  {
    if s != [] && IsWhitespace(s[0]) then
      var r := TrimStart(s[1..]);
      assert s[|s| - |r|..] == s[1..][|s| - 1 - |r|..];
      assert forall i :: 1 <= i < |s| - |r| ==> s[i] == s[1..][..|s| - 1 - |r|][i - 1];
      r
    else s
  }

  function TrimEnd(s: string): (r: string)
    ensures |r| <= |s| && r == s[..|r|]
    ensures r != [] ==> !IsWhitespace(r[|r| - 1])
    ensures IsBlank(s[|r|..])
  {
    if s != [] && IsWhitespace(s[|s| - 1]) then
      var r := TrimEnd(s[..|s| - 1]);
      assert s[..|r|] == s[..|s| - 1][..|r|];
      assert forall i :: |r| <= i < |s| - 1 ==> s[i] == s[..|s| - 1][|r|..][i - |r|];
      r
    else s
  }

  /** `String.prototype.trim`: white space removed from both ends. */
  function Trim(s: string): (r: string)
    ensures r == [] <==> IsBlank(s)
    ensures r != [] ==> !IsWhitespace(r[0]) && !IsWhitespace(r[|r| - 1])
  {
    TrimEnd(TrimStart(s))
  }

  /** `String.prototype.split` with a one-character separator: the pieces
      between separators, in order; "" splits into [""] and a trailing
      separator yields a trailing empty piece. */
  function Split(s: string, sep: char): (r: seq<string>)
    ensures |r| >= 1
  {
    if s == [] then [[]]
    else
      var rest := Split(s[1..], sep);
      if s[0] == sep then [[]] + rest
      else [[s[0]] + rest[0]] + rest[1..]
  }

  /** `Array.prototype.join`: the parts with `sep` between neighbours. */
  function Join(parts: seq<string>, sep: string): string
  {
    if |parts| == 0 then []
    else if |parts| == 1 then parts[0]
    else parts[0] + sep + Join(parts[1..], sep)
  }

  /** `String.prototype.repeat`. */
  function Repeat(s: string, n: nat): (r: string)
  {
    if n == 0 then [] else s + Repeat(s, n - 1)
  }

  /** Joining what was split restores the string. */
  lemma {:induction false} JoinSplit(s: string, sep: char)
    ensures Join(Split(s, sep), [sep]) == s
  {
    if s != [] {
      var rest := Split(s[1..], sep);
      JoinSplit(s[1..], sep);
      if s[0] == sep {
        assert ([[]] + rest)[1..] == rest;
      } else {
        var r := [[s[0]] + rest[0]] + rest[1..];
        assert r[1..] == rest[1..];
        if |rest| > 1 {
          assert Join(rest, [sep]) == rest[0] + [sep] + Join(rest[1..], [sep]);
        }
      }
    }
  }

  /** Splitting at a separator splits the two sides independently. */
  lemma {:induction false} SplitAppend(a: string, b: string, sep: char)
    ensures Split(a + [sep] + b, sep) == Split(a, sep) + Split(b, sep)
  {
    if a == [] {
      assert a + [sep] + b == [sep] + b;
      assert ([sep] + b)[1..] == b;
    } else {
      assert (a + [sep] + b)[1..] == a[1..] + [sep] + b;
      assert (a + [sep] + b)[0] == a[0];
      SplitAppend(a[1..], b, sep);
    }
  }

  /** A string without the separator is one piece. */
  lemma {:induction false} SplitNoSep(s: string, sep: char)
    requires sep !in s
    ensures Split(s, sep) == [s]
  {
    if s != [] {
      SplitNoSep(s[1..], sep);
      assert [s[0]] + s[1..] == s;
    }
  }

  /** Splitting what was joined restores the parts, when no part holds the
      separator. */
  lemma {:induction false} SplitJoin(parts: seq<string>, sep: char)
    requires parts != []
    requires forall k :: 0 <= k < |parts| ==> sep !in parts[k]
    ensures Split(Join(parts, [sep]), sep) == parts
  {
    SplitNoSep(parts[0], sep);
    if |parts| > 1 {
      SplitJoin(parts[1..], sep);
      SplitAppend(parts[0], Join(parts[1..], [sep]), sep);
      assert [parts[0]] + parts[1..] == parts;
    }
  }

  /** `Array.prototype.filter`: the elements that pass, in order. */
  function Filter<T>(xs: seq<T>, keep: T -> bool): (r: seq<T>)
    ensures |r| <= |xs|
    ensures forall k :: 0 <= k < |r| ==> keep(r[k])
  {
    if xs == [] then []
    else (if keep(xs[0]) then [xs[0]] else []) + Filter(xs[1..], keep)
  }

  /** An element survives exactly when it is in the input and passes. */
  lemma {:induction false} FilterMembership<T>(xs: seq<T>, keep: T -> bool, x: T)
    ensures x in Filter(xs, keep) <==> x in xs && keep(x)
  {
    if xs != [] {
      FilterMembership(xs[1..], keep, x);
      assert xs == [xs[0]] + xs[1..];
    }
  }

  /** Filtering distributes over concatenation. */
  lemma {:induction false} FilterAppend<T>(a: seq<T>, b: seq<T>, keep: T -> bool)
    ensures Filter(a + b, keep) == Filter(a, keep) + Filter(b, keep)
  {
    if a == [] {
      assert a + b == b;
    } else {
      assert (a + b)[1..] == a[1..] + b;
      assert (a + b)[0] == a[0];
      FilterAppend(a[1..], b, keep);
    }
  }

  predicate StrictlyIncreasing(idx: seq<int>)
  {
    forall m, n :: 0 <= m < n < |idx| ==> idx[m] < idx[n]
  }

  /** Every position moved one place to the right. */
  lemma ShiftPositions(idx: seq<int>) returns (shifted: seq<int>)
    requires StrictlyIncreasing(idx)
    ensures |shifted| == |idx|
    ensures forall m :: 0 <= m < |idx| ==> shifted[m] == idx[m] + 1
    ensures StrictlyIncreasing(shifted)
    ensures forall k :: k in shifted <==> k - 1 in idx
  {
    shifted := seq(|idx|, m requires 0 <= m < |idx| => idx[m] + 1);
    forall k ensures k in shifted <==> k - 1 in idx {
      if k - 1 in idx {
        var m :| 0 <= m < |idx| && idx[m] == k - 1;
        assert shifted[m] == k;
      }
    }
  }

  /** The survivors are exactly the passing elements, picked out at
      strictly increasing positions: same order, nothing skipped, nothing
      added. */
  lemma {:induction false} FilterPositions<T>(xs: seq<T>, keep: T -> bool) returns (idx: seq<int>)
    ensures |idx| == |Filter(xs, keep)|
    ensures StrictlyIncreasing(idx)
    ensures forall m :: 0 <= m < |idx| ==>
      0 <= idx[m] < |xs| && Filter(xs, keep)[m] == xs[idx[m]]
    ensures forall k :: 0 <= k < |xs| ==> (keep(xs[k]) <==> k in idx)
  {
    if xs == [] {
      idx := [];
    } else {
      var rest := FilterPositions(xs[1..], keep);
      assert PicksOut(xs[1..], keep, rest);
      idx := PicksOutCons(xs, keep, rest);
    }
  }

  /** `idx` lists, in increasing order, the positions of `xs` whose
      elements make up `Filter(xs, keep)`. */
  ghost predicate PicksOut<T>(xs: seq<T>, keep: T -> bool, idx: seq<int>)
  {
    SameElements(xs, Filter(xs, keep), idx) && StrictlyIncreasing(idx) && MarksPassing(xs, keep, idx)
  }

  /** `kept[m]` is the element of `xs` at position `idx[m]`. */
  ghost predicate SameElements<T>(xs: seq<T>, kept: seq<T>, idx: seq<int>)
  {
    |idx| == |kept| && forall m :: 0 <= m < |idx| ==> 0 <= idx[m] < |xs| && kept[m] == xs[idx[m]]
  }

  /** The positions in `idx` are exactly those of the passing elements. */
  ghost predicate MarksPassing<T>(xs: seq<T>, keep: T -> bool, idx: seq<int>)
  {
    forall k :: 0 <= k < |xs| ==> (keep(xs[k]) <==> k in idx)
  }

  /** The positions for `xs` from those for its tail. */
  lemma PicksOutCons<T>(xs: seq<T>, keep: T -> bool, rest: seq<int>) returns (idx: seq<int>)
    requires xs != [] && PicksOut(xs[1..], keep, rest)
    ensures PicksOut(xs, keep, idx)
  {
    var shifted := ShiftPositions(rest);
    var kept, keptTail := Filter(xs, keep), Filter(xs[1..], keep);
    if keep(xs[0]) {
      idx := [0] + shifted;
      assert kept == [xs[0]] + keptTail;
      KeptElements(xs, keptTail, rest, shifted);
      KeptIncreasing(rest, shifted);
      KeptMarks(xs, keep, rest, shifted);
    } else {
      idx := shifted;
      assert kept == keptTail;
      DroppedElements(xs, keptTail, rest, shifted);
      DroppedMarks(xs, keep, rest, shifted);
    }
  }

  lemma KeptElements<T>(xs: seq<T>, keptTail: seq<T>, rest: seq<int>, shifted: seq<int>)
    requires xs != [] && SameElements(xs[1..], keptTail, rest)
    requires |shifted| == |rest| && forall m :: 0 <= m < |rest| ==> shifted[m] == rest[m] + 1
    ensures SameElements(xs, [xs[0]] + keptTail, [0] + shifted)
  {
    var idx, kept := [0] + shifted, [xs[0]] + keptTail;
    forall m | 0 <= m < |idx| ensures 0 <= idx[m] < |xs| && kept[m] == xs[idx[m]] {
      if m > 0 {
        assert idx[m] == rest[m - 1] + 1;
        assert kept[m] == keptTail[m - 1];
        assert xs[1..][rest[m - 1]] == xs[idx[m]];
      }
    }
  }

  lemma KeptIncreasing(rest: seq<int>, shifted: seq<int>)
    requires StrictlyIncreasing(shifted)
    requires |shifted| == |rest| && forall m :: 0 <= m < |rest| ==> shifted[m] == rest[m] + 1
    requires forall m :: 0 <= m < |rest| ==> 0 <= rest[m]
    ensures StrictlyIncreasing([0] + shifted)
  {
    var idx := [0] + shifted;
    forall m, n | 0 <= m < n < |idx| ensures idx[m] < idx[n] {
      assert idx[n] == shifted[n - 1];
      if m > 0 { assert idx[m] == shifted[m - 1]; }
    }
  }

  lemma KeptMarks<T>(xs: seq<T>, keep: T -> bool, rest: seq<int>, shifted: seq<int>)
    requires xs != [] && keep(xs[0]) && MarksPassing(xs[1..], keep, rest)
    requires forall k :: k in shifted <==> k - 1 in rest
    ensures MarksPassing(xs, keep, [0] + shifted)
  {
    var idx := [0] + shifted;
    forall k | 0 <= k < |xs| ensures keep(xs[k]) <==> k in idx {
      if k > 0 {
        assert xs[1..][k - 1] == xs[k];
        assert k in idx <==> k in shifted;
      }
    }
  }

  lemma DroppedElements<T>(xs: seq<T>, keptTail: seq<T>, rest: seq<int>, shifted: seq<int>)
    requires xs != [] && SameElements(xs[1..], keptTail, rest)
    requires |shifted| == |rest| && forall m :: 0 <= m < |rest| ==> shifted[m] == rest[m] + 1
    ensures SameElements(xs, keptTail, shifted)
  {
    forall m | 0 <= m < |shifted| ensures 0 <= shifted[m] < |xs| && keptTail[m] == xs[shifted[m]] {
      assert xs[1..][rest[m]] == xs[shifted[m]];
    }
  }

  lemma DroppedMarks<T>(xs: seq<T>, keep: T -> bool, rest: seq<int>, shifted: seq<int>)
    requires xs != [] && !keep(xs[0]) && MarksPassing(xs[1..], keep, rest)
    requires forall m :: 0 <= m < |rest| ==> 0 <= rest[m]
    requires forall k :: k in shifted <==> k - 1 in rest
    ensures MarksPassing(xs, keep, shifted)
  {
    forall k | 0 <= k < |xs| ensures keep(xs[k]) <==> k in shifted {
      if k > 0 { assert xs[1..][k - 1] == xs[k]; }
      else { assert -1 !in rest; }
    }
  }

  /** No piece of a split holds the separator. */
  lemma {:induction false} SplitPiecesNoSep(s: string, sep: char)
    ensures forall k :: 0 <= k < |Split(s, sep)| ==> sep !in Split(s, sep)[k]
  {
    if s != [] {
      SplitPiecesNoSep(s[1..], sep);
      var rest := Split(s[1..], sep);
      if s[0] != sep {
        var r := Split(s, sep);
        assert r[0] == [s[0]] + rest[0];
        forall k | 1 <= k < |r| ensures sep !in r[k] {
          assert r[k] == rest[k];
        }
      }
    }
  }

  /** `lines.map(line => pad + line)`. */
  function PrefixEach(lines: seq<string>, pad: string): (r: seq<string>)
    ensures |r| == |lines|
    ensures forall k :: 0 <= k < |r| ==> r[k] == pad + lines[k]
  {
    if lines == [] then [] else [pad + lines[0]] + PrefixEach(lines[1..], pad)
  }

  /** Every line with its first `n` characters removed. */
  function DropEach(lines: seq<string>, n: nat): (r: seq<string>)
    requires forall k :: 0 <= k < |lines| ==> n <= |lines[k]|
    ensures |r| == |lines|
    ensures forall k :: 0 <= k < |r| ==> r[k] == lines[k][n..]
  {
    if lines == [] then [] else [lines[0][n..]] + DropEach(lines[1..], n)
  }

  /** `s.split('\n').map(line => pad + line).join('\n')`. */
  function IndentLines(s: string, pad: string): string
  {
    Join(PrefixEach(Split(s, '\n'), pad), "\n")
  }

  /** Indenting every line is undone by splitting the result into lines,
      removing the padding from each and joining again. */
  lemma IndentLinesRoundTrip(s: string, pad: string)
    requires '\n' !in pad
    ensures forall k :: 0 <= k < |Split(IndentLines(s, pad), '\n')| ==>
      |pad| <= |Split(IndentLines(s, pad), '\n')[k]|
    ensures Join(DropEach(Split(IndentLines(s, pad), '\n'), |pad|), "\n") == s
  {
    var lines := Split(s, '\n');
    var padded := PrefixEach(lines, pad);
    SplitPiecesNoSep(s, '\n');
    forall k | 0 <= k < |padded| ensures '\n' !in padded[k] {
      assert padded[k] == pad + lines[k];
    }
    SplitJoin(padded, '\n');
    assert Split(IndentLines(s, pad), '\n') == padded;
    var stripped := DropEach(padded, |pad|);
    assert stripped == lines by {
      forall k | 0 <= k < |lines| ensures stripped[k] == lines[k] {
        assert padded[k] == pad + lines[k];
      }
    }
    JoinSplit(s, '\n');
  }

  /** Containment is transitive. */
  lemma InfixTrans(a: string, b: string, c: string)
    requires IsInfix(a, b) && IsInfix(b, c)
    ensures IsInfix(a, c)
  {
    var i :| 0 <= i <= |b| - |a| && OccursAt(a, b, i);
    var j :| 0 <= j <= |c| - |b| && OccursAt(b, c, j);
    forall t | 0 <= t < |a| ensures c[j + i + t] == a[t] {
      assert a[t] == b[i..i + |a|][t] == b[i + t];
      assert b[i + t] == c[j..j + |b|][i + t];
    }
    assert c[j + i..j + i + |a|] == a;
    assert OccursAt(a, c, j + i);
  }

  /** A prefix without the separator stays at the head of the first piece. */
  lemma {:induction false} FirstPieceKeepsPrefix(s: string, sep: char, n: nat)
    requires n <= |s| && sep !in s[..n]
    ensures n <= |Split(s, sep)[0]| && Split(s, sep)[0][..n] == s[..n]
    decreases n
  {
    if n > 0 {
      assert s[0] == s[..n][0];
      assert s[1..][..n - 1] == s[..n][1..];
      FirstPieceKeepsPrefix(s[1..], sep, n - 1);
      var rest := Split(s[1..], sep);
      assert Split(s, sep)[0] == [s[0]] + rest[0];
      assert ([s[0]] + rest[0])[..n] == [s[0]] + rest[0][..n - 1];
      assert s[..n] == [s[0]] + s[1..][..n - 1];
    }
  }

  /** A text without the separator that occurs in `s` occurs inside one
      of its pieces. */
  lemma {:induction false} InfixInPiece(x: string, s: string, sep: char) returns (j: nat)
    requires sep !in x && IsInfix(x, s)
    ensures j < |Split(s, sep)| && IsInfix(x, Split(s, sep)[j])
    decreases |s|
  {
    var k :| 0 <= k <= |s| - |x| && OccursAt(x, s, k);
    if k == 0 {
      assert s[..|x|] == x;
      FirstPieceKeepsPrefix(s, sep, |x|);
      j := 0;
      assert OccursAt(x, Split(s, sep)[0], 0);
    } else {
      assert s[1..][k - 1..k - 1 + |x|] == s[k..k + |x|];
      assert OccursAt(x, s[1..], k - 1);
      var j' := InfixInPiece(x, s[1..], sep);
      var rest := Split(s[1..], sep);
      if s[0] == sep {
        j := j' + 1;
        assert Split(s, sep)[j] == rest[j'];
      } else if j' == 0 {
        j := 0;
        InfixEnclosed(x, rest[0], [s[0]], []);
        assert [s[0]] + rest[0] + [] == Split(s, sep)[0];
      } else {
        j := j';
        assert Split(s, sep)[j] == rest[j'];
      }
    }
  }

  /** Every part occurs in the joined text. */
  lemma {:induction false} PartInJoin(parts: seq<string>, sep: string, j: nat)
    requires j < |parts|
    ensures IsInfix(parts[j], Join(parts, sep))
    decreases |parts|
  {
    var whole := Join(parts, sep);
    if |parts| == 1 {
      assert OccursAt(parts[0], whole, 0);
    } else if j == 0 {
      assert whole[..|parts[0]|] == parts[0];
      assert OccursAt(parts[0], whole, 0);
    } else {
      PartInJoin(parts[1..], sep, j - 1);
      InfixEnclosed(parts[j], Join(parts[1..], sep), parts[0] + sep, []);
      assert parts[0] + sep + Join(parts[1..], sep) + [] == whole;
    }
  }

  /** Indenting lines keeps every text without a newline that occurs in
      the input. */
  lemma InfixSurvivesIndent(x: string, s: string, pad: string)
    requires '\n' !in x && IsInfix(x, s)
    ensures IsInfix(x, IndentLines(s, pad))
  {
    var j := InfixInPiece(x, s, '\n');
    var line := Split(s, '\n')[j];
    var padded := PrefixEach(Split(s, '\n'), pad);
    InfixEnclosed(x, line, pad, []);
    assert pad + line + [] == padded[j];
    PartInJoin(padded, "\n", j);
    InfixTrans(x, padded[j], IndentLines(s, pad));
  }
}
