/** Building the item tree of a cloned repository (`fetchContents`). The
    file system is replaced by an in-memory listing: each entry carries its
    name and, for a file, its size in bytes, whether it is judged binary and
    its text. */
module RepoTree {
  import opened Text
  import opened IgnorePatterns

  /** One entry of a directory listing, in listing order. */
  datatype Entry =
    | FileEntry(name: string, size: int, isBinary: bool, text: string)
    | DirEntry(name: string, entries: seq<Entry>)

  /** One node of the tree handed to the formatters. */
  datatype Item =
    | File(name: string, path: string, content: string)
    | Dir(name: string, path: string, contents: seq<Item>)

  /** The request options `fetchContents` threads through its recursion;
      `fileSizeLimit` is in kilobytes. */
  datatype Settings = Settings(gitignorePatterns: seq<Regex>, useGitignore: bool,
                               useStandardIgnore: bool, customIgnore: string,
                               fileSizeLimit: int)

  predicate ValidSettings(s: Settings)
  {
    CustomInDialect(s.customIgnore)
  }

  predicate Ignored(s: Settings, path: string)
    requires ValidSettings(s)
  {
    ShouldIgnore(path, s.gitignorePatterns, s.useGitignore, s.useStandardIgnore, s.customIgnore)
  }

  /** `path.join(currentPath, name)` for a listing name relative to the
      repository root, with the root written as "". */
  function JoinPath(cur: string, name: string): string
  {
    if cur == [] then name else cur + "/" + name
  }

  /** The ignore decision for one request, as a predicate on paths. */
  function IgnoreRule(s: Settings): string -> bool
    requires ValidSettings(s)
  {
    path => Ignored(s, path)
  }

  /** Whether the entry at `cur` yields a node: it is not ignored, and it is
      a directory or a file within `limit` kilobytes that is not binary. */
  predicate Admitted(ignored: string -> bool, limit: int, cur: string, e: Entry)
  {
    !ignored(JoinPath(cur, e.name))
    && (e.DirEntry? || (e.size <= limit * 1024 && !e.isBinary))
  }

  /** The walk of `fetchContents` under any ignore decision, stated one
      entry at a time from the end so that it follows the loop. */
  function Walk(entries: seq<Entry>, cur: string, ignored: string -> bool, limit: int): (r: seq<Item>)
    ensures |r| <= |entries|
    decreases entries
  {
    if entries == [] then []
    else
      var e := entries[|entries| - 1];
      var path := JoinPath(cur, e.name);
      Walk(entries[..|entries| - 1], cur, ignored, limit)
      + (if ignored(path) then []
         else match e
           case DirEntry(name, sub) => [Dir(name, path, Walk(sub, path, ignored, limit))]
           case FileEntry(name, size, isBinary, text) =>
             if size <= limit * 1024 && !isBinary then [File(name, path, text)] else [])
  }

  /** The nodes `fetchContents` returns for the listing `entries` of the
      directory `cur`. */
  function Fetched(entries: seq<Entry>, cur: string, s: Settings): (r: seq<Item>)
    requires ValidSettings(s)
    ensures |r| <= |entries|
  {
    Walk(entries, cur, IgnoreRule(s), s.fileSizeLimit)
  }

  /** `fetchContents(repoPath, ..., currentPath)`: walks the listing in
      order, skips ignored entries without descending into them, recurses
      into directories, and appends admitted files with their text. */
  method FetchContents(entries: seq<Entry>, s: Settings, cur: string) returns (contents: seq<Item>)
    requires ValidSettings(s)
    ensures contents == Fetched(entries, cur, s)
    decreases entries
  {
    contents := [];
    for i := 0 to |entries|
      invariant contents == Fetched(entries[..i], cur, s)
    {
      assert entries[..i + 1][..i] == entries[..i];
      var item := entries[i];
      var itemPath := JoinPath(cur, item.name);
      assert IgnoreRule(s)(itemPath) == Ignored(s, itemPath);
      if Ignored(s, itemPath) {
        continue;
      }
      match item
      case DirEntry(name, sub) =>
        var children := FetchContents(sub, s, itemPath);
        contents := contents + [Dir(name, itemPath, children)];
      case FileEntry(name, size, isBinary, text) =>
        if size <= s.fileSizeLimit * 1024 {
          if isBinary {
            continue;
          }
          contents := contents + [File(name, itemPath, text)];
        }
    }
    assert entries[..|entries|] == entries;
  }
}

// Lemmas about the tree `fetchContents` builds. Most are stated for any
// ignore decision, so they hold for every combination of rule sources.
module RepoTreeProperties {
  import opened Text
  import opened IgnorePatterns
  import opened RepoTree

  /** The node an admitted entry becomes. */
  function NodeFor(ignored: string -> bool, limit: int, cur: string, e: Entry): Item
  {
    var path := JoinPath(cur, e.name);
    match e
    case DirEntry(name, sub) => Dir(name, path, Walk(sub, path, ignored, limit))
    case FileEntry(name, _, _, text) => File(name, path, text)
  }

  /** The listing is processed entry by entry: the nodes for two listings
      one after the other are the nodes of each, in order. */
  lemma {:induction false} WalkAppend(a: seq<Entry>, b: seq<Entry>, cur: string,
                                      ignored: string -> bool, limit: int)
    ensures Walk(a + b, cur, ignored, limit) == Walk(a, cur, ignored, limit) + Walk(b, cur, ignored, limit)
    decreases |b|
  {
    if b == [] {
      assert a + b == a;
    } else {
      var ab := a + b;
      assert ab[..|ab| - 1] == a + b[..|b| - 1];
      assert ab[|ab| - 1] == b[|b| - 1];
      WalkLast(ab, cur, ignored, limit);
      WalkLast(b, cur, ignored, limit);
      WalkAppend(a, b[..|b| - 1], cur, ignored, limit);
    }
  }

  /** One entry gives its node if admitted and nothing otherwise. */
  lemma WalkLast(entries: seq<Entry>, cur: string, ignored: string -> bool, limit: int)
    requires entries != []
    ensures var n := |entries| - 1;
      Walk(entries, cur, ignored, limit)
      == Walk(entries[..n], cur, ignored, limit)
         + (if Admitted(ignored, limit, cur, entries[n]) then [NodeFor(ignored, limit, cur, entries[n])] else [])
  {
  }

  /** The nodes are exactly those of the admitted entries, each built by
      `NodeFor`, at strictly increasing listing positions: listing order is
      kept and every entry gives at most one node. */
  lemma {:induction false} WalkPositions(entries: seq<Entry>, cur: string, ignored: string -> bool, limit: int)
    returns (idx: seq<int>)
    ensures |idx| == |Walk(entries, cur, ignored, limit)|
    ensures StrictlyIncreasing(idx)
    ensures forall m :: 0 <= m < |idx| ==>
      0 <= idx[m] < |entries|
      && Walk(entries, cur, ignored, limit)[m] == NodeFor(ignored, limit, cur, entries[idx[m]])
    ensures forall k :: 0 <= k < |entries| ==> (Admitted(ignored, limit, cur, entries[k]) <==> k in idx)
    decreases |entries|
  {
    if entries == [] {
      idx := [];
    } else {
      var n := |entries| - 1;
      var init := entries[..n];
      var prev := WalkPositions(init, cur, ignored, limit);
      assert forall k :: 0 <= k < n ==> init[k] == entries[k];
      WalkLast(entries, cur, ignored, limit);
      idx := WalkPositionsStep(entries, cur, ignored, limit,
        Walk(entries, cur, ignored, limit), Walk(init, cur, ignored, limit), prev);
    }
  }

  /** The positions of a listing without its last entry, extended to the
      whole listing: the last entry's position is appended iff it is
      admitted. The two walks are plain parameters here. */
  lemma WalkPositionsStep(entries: seq<Entry>, cur: string, ignored: string -> bool, limit: int,
                          r: seq<Item>, rInit: seq<Item>, prev: seq<int>)
    returns (idx: seq<int>)
    requires entries != []
    requires r == rInit + (if Admitted(ignored, limit, cur, entries[|entries| - 1])
                           then [NodeFor(ignored, limit, cur, entries[|entries| - 1])] else [])
    requires |prev| == |rInit| && StrictlyIncreasing(prev)
    requires forall m :: 0 <= m < |prev| ==>
      0 <= prev[m] < |entries| - 1 && rInit[m] == NodeFor(ignored, limit, cur, entries[prev[m]])
    requires forall k :: 0 <= k < |entries| - 1 ==> (Admitted(ignored, limit, cur, entries[k]) <==> k in prev)
    ensures |idx| == |r|
    ensures StrictlyIncreasing(idx)
    ensures forall m :: 0 <= m < |idx| ==>
      0 <= idx[m] < |entries| && r[m] == NodeFor(ignored, limit, cur, entries[idx[m]])
    ensures forall k :: 0 <= k < |entries| ==> (Admitted(ignored, limit, cur, entries[k]) <==> k in idx)
  {
    var n := |entries| - 1;
    if Admitted(ignored, limit, cur, entries[n]) {
      idx := prev + [n];
      forall m | 0 <= m < |idx|
        ensures 0 <= idx[m] < |entries| && r[m] == NodeFor(ignored, limit, cur, entries[idx[m]])
      {
        if m < |prev| {
          assert r[m] == rInit[m];
        }
      }
    } else {
      idx := prev;
    }
  }

  /** No node at any depth has an ignored path. */
  predicate NoneIgnored(ignored: string -> bool, items: seq<Item>)
    decreases items
  {
    forall m :: 0 <= m < |items| ==>
      !ignored(items[m].path) && (items[m].Dir? ==> NoneIgnored(ignored, items[m].contents))
  }

  /** Every node's path is its parent's path joined with its own name. */
  predicate PathsUnder(cur: string, items: seq<Item>)
    decreases items
  {
    forall m :: 0 <= m < |items| ==>
      items[m].path == JoinPath(cur, items[m].name)
      && (items[m].Dir? ==> PathsUnder(items[m].path, items[m].contents))
  }

  lemma {:induction false} WalkNoneIgnored(entries: seq<Entry>, cur: string, ignored: string -> bool, limit: int)
    ensures NoneIgnored(ignored, Walk(entries, cur, ignored, limit))
    decreases entries
  {
    if entries != [] {
      var n := |entries| - 1;
      WalkNoneIgnored(entries[..n], cur, ignored, limit);
      WalkLast(entries, cur, ignored, limit);
      match entries[n]
      case DirEntry(name, sub) =>
        WalkNoneIgnored(sub, JoinPath(cur, name), ignored, limit);
      case FileEntry(_, _, _, _) =>
    }
  }

  lemma {:induction false} WalkPathsUnder(entries: seq<Entry>, cur: string, ignored: string -> bool, limit: int)
    ensures PathsUnder(cur, Walk(entries, cur, ignored, limit))
    decreases entries
  {
    if entries != [] {
      var n := |entries| - 1;
      WalkPathsUnder(entries[..n], cur, ignored, limit);
      WalkLast(entries, cur, ignored, limit);
      match entries[n]
      case DirEntry(name, sub) =>
        WalkPathsUnder(sub, JoinPath(cur, name), ignored, limit);
      case FileEntry(_, _, _, _) =>
    }
  }

  /** No node `fetchContents` emits, at any depth, has a path that
      `shouldIgnore` rejects under the request's settings. */
  lemma FetchedNoneIgnored(entries: seq<Entry>, cur: string, s: Settings)
    requires ValidSettings(s)
    ensures NoneIgnored(IgnoreRule(s), Fetched(entries, cur, s))
    ensures PathsUnder(cur, Fetched(entries, cur, s))
  {
    WalkNoneIgnored(entries, cur, IgnoreRule(s), s.fileSizeLimit);
    WalkPathsUnder(entries, cur, IgnoreRule(s), s.fileSizeLimit);
  }

  /** Nothing beneath an ignored directory is visited: replacing its
      listing changes nothing. */
  lemma IgnoredDirectoryNotVisited(a: seq<Entry>, name: string, sub: seq<Entry>, sub': seq<Entry>,
                                   b: seq<Entry>, cur: string, ignored: string -> bool, limit: int)
    requires ignored(JoinPath(cur, name))
    ensures Walk(a + [DirEntry(name, sub)] + b, cur, ignored, limit)
         == Walk(a + [DirEntry(name, sub')] + b, cur, ignored, limit)
  {
    WalkAppend(a + [DirEntry(name, sub)], b, cur, ignored, limit);
    WalkAppend(a + [DirEntry(name, sub')], b, cur, ignored, limit);
    WalkAppend(a, [DirEntry(name, sub)], cur, ignored, limit);
    WalkAppend(a, [DirEntry(name, sub')], cur, ignored, limit);
    assert [DirEntry(name, sub)][..0] == [];
    assert [DirEntry(name, sub')][..0] == [];
  }

  /** A directory that is not ignored is emitted even when nothing in it
      survives. */
  lemma EmptyDirectoryKept(name: string, cur: string, ignored: string -> bool, limit: int)
    requires !ignored(JoinPath(cur, name))
    ensures Walk([DirEntry(name, [])], cur, ignored, limit) == [Dir(name, JoinPath(cur, name), [])]
  {
    assert [DirEntry(name, [])][..0] == [];
  }

  /** The size bound is inclusive: with a limit of 1 a 1024-byte text file
      is emitted with its text and a 2048-byte one is not. */
  lemma SizeLimitIsInclusive(name: string, text: string, cur: string, ignored: string -> bool)
    requires !ignored(JoinPath(cur, name))
    ensures Walk([FileEntry(name, 1024, false, text)], cur, ignored, 1)
         == [File(name, JoinPath(cur, name), text)]
    ensures Walk([FileEntry(name, 2048, false, text)], cur, ignored, 1) == []
  {
    assert [FileEntry(name, 1024, false, text)][..0] == [];
    assert [FileEntry(name, 2048, false, text)][..0] == [];
  }

  /** A binary file is never emitted, whatever its size. */
  lemma BinaryFileSkipped(name: string, size: int, text: string, cur: string,
                          ignored: string -> bool, limit: int)
    ensures Walk([FileEntry(name, size, true, text)], cur, ignored, limit) == []
  {
    assert [FileEntry(name, size, true, text)][..0] == [];
  }
}
