/** Enumerating Pi session files in batches: a directory walk that resumes after a path cursor. */
module PiDiscovery {
  import opened Sequences
  import opened TextOrder

  const BATCH_SIZE: nat := 256

  /** A directory tree; the walk sees the children of a directory in byte order of their names. */
  datatype Node = File(name: string) | Dir(name: string, children: seq<Node>)

  predicate ValidName(name: string) {
    name != "" && '/' !in name
  }

  predicate ValidNode(node: Node)
    decreases node
  {
    ValidName(node.name) && (node.Dir? ==> ValidTree(node.children))
  }

  predicate ValidTree(nodes: seq<Node>)
    decreases nodes
  {
    && (forall node <- nodes :: ValidNode(node))
    && forall i, j | 0 <= i < j < |nodes| :: Less(nodes[i].name, nodes[j].name)
  }

  function Lower(c: char): char {
    if 'A' <= c <= 'Z' then c - 'A' + 'a' else c
  }

  function LowerAll(s: string): string {
    if s == "" then "" else [Lower(s[0])] + LowerAll(s[1..])
  }

  predicate IsSession(name: string) {
    var lower := LowerAll(name);
    |lower| >= 6 && lower[|lower| - 6..] == ".jsonl"
  }

  function Join(dir: string, name: string): string {
    dir + "/" + name
  }

  // ------------------------------------------------------ the session files

  function FilesOf(node: Node, dir: string): seq<string>
    decreases node, 0
  {
    match node
    case File(name) => if IsSession(name) then [Join(dir, name)] else []
    case Dir(name, children) => Files(children, Join(dir, name))
  }

  /** Every session file, in the order of a full walk. */
  function Files(nodes: seq<Node>, dir: string): seq<string>
    decreases nodes, 1
  {
    if nodes == [] then [] else FilesOf(nodes[0], dir) + Files(nodes[1..], dir)
  }

  /** The path leads through directories of the tree to a file with the extension. */
  predicate InTree(nodes: seq<Node>, dir: string, path: string)
    decreases nodes
  {
    exists node <- nodes ::
      if node.File? then path == dir + "/" + node.name && HasExtension(node.name)
      else InTree(node.children, dir + "/" + node.name, path)
  }

  // ".jsonl" at the end, in upper or lower case.
  predicate HasExtension(name: string) {
    var n := |name|;
    && n >= 6 && name[n - 6] == '.'
    && (name[n - 5] == 'j' || name[n - 5] == 'J') && (name[n - 4] == 's' || name[n - 4] == 'S')
    && (name[n - 3] == 'o' || name[n - 3] == 'O') && (name[n - 2] == 'n' || name[n - 2] == 'N')
    && (name[n - 1] == 'l' || name[n - 1] == 'L')
  }

  lemma {:induction false} LowerAllAt(s: string)
    ensures |LowerAll(s)| == |s| && forall k :: 0 <= k < |s| ==> LowerAll(s)[k] == Lower(s[k])
  {
    if s != "" { LowerAllAt(s[1..]); }
  }

  lemma IsSessionIff(name: string)
    ensures IsSession(name) <==> HasExtension(name)
  {
    LowerAllAt(name);
    var lower, n := LowerAll(name), |name|;
    if n >= 6 {
      var tail := lower[n - 6..];
      assert tail[0] == lower[n - 6] && tail[1] == lower[n - 5] && tail[2] == lower[n - 4];
      assert tail[3] == lower[n - 3] && tail[4] == lower[n - 2] && tail[5] == lower[n - 1];
      assert tail == [tail[0], tail[1], tail[2], tail[3], tail[4], tail[5]];
    }
  }

  /** A full walk reaches exactly the files with the extension. */
  lemma {:induction false} FilesAreInTree(nodes: seq<Node>, dir: string, path: string)
    ensures path in Files(nodes, dir) <==> InTree(nodes, dir, path)
    decreases nodes
  {
    if nodes != [] {
      var node, rest := nodes[0], nodes[1..];
      HeadAndTail(nodes);
      FilesAreInTree(rest, dir, path);
      if node.Dir? { FilesAreInTree(node.children, dir + "/" + node.name, path); } else { IsSessionIff(node.name); }
      if InTree(rest, dir, path) {
        var other :| other in rest
          && if other.File? then path == dir + "/" + other.name && HasExtension(other.name)
             else InTree(other.children, dir + "/" + other.name, path);
        assert other in nodes;
      }
    }
  }

  // --------------------------------------------------------- the resumed walk

  /** The walk skips a directory that does not come after the cursor and does not contain it. */
  predicate Skipped(path: string, cursor: string) {
    cursor != "" && !Less(cursor, path) && !(path + "/" <= cursor)
  }

  function VisitNode(node: Node, dir: string, cursor: string): seq<string>
    decreases node, 0
  {
    var path := Join(dir, node.name);
    match node
    case File(name) => if IsSession(name) && (cursor == "" || Less(cursor, path)) then [path] else []
    case Dir(_, children) => if Skipped(path, cursor) then [] else Visit(children, path, cursor)
  }

  /** The session files a walk visits when it resumes after `cursor` and is not cut short. */
  function Visit(nodes: seq<Node>, dir: string, cursor: string): seq<string>
    decreases nodes, 1
  {
    if nodes == [] then [] else VisitNode(nodes[0], dir, cursor) + Visit(nodes[1..], dir, cursor)
  }

  // ------------------------------------------------- paths and their parents

  /** `path` is the entry `name` of `dir`, or lies below it. */
  predicate Under(path: string, dir: string, name: string) {
    var entry := Join(dir, name);
    entry <= path && (path == entry || path[|entry|] == '/')
  }

  lemma {:induction false} FilesAreUnder(node: Node, dir: string, path: string)
    requires path in FilesOf(node, dir)
    ensures Under(path, dir, node.name)
    ensures node.File? <==> path == Join(dir, node.name)
    decreases node, 0
  {
    if node.Dir? { FilesAreBelow(node.children, Join(dir, node.name), path); }
  }

  lemma {:induction false} FilesAreBelow(nodes: seq<Node>, dir: string, path: string)
    requires path in Files(nodes, dir)
    ensures dir + "/" <= path
    decreases nodes, 1
  {
    if path in FilesOf(nodes[0], dir) {
      FilesAreUnder(nodes[0], dir, path);
    } else {
      FilesAreBelow(nodes[1..], dir, path);
    }
  }

  lemma {:induction false} FilesHaveParent(nodes: seq<Node>, dir: string, path: string) returns (i: nat)
    requires path in Files(nodes, dir)
    ensures i < |nodes| && path in FilesOf(nodes[i], dir)
    decreases |nodes|
  {
    if path in FilesOf(nodes[0], dir) {
      i := 0;
    } else {
      var k := FilesHaveParent(nodes[1..], dir, path);
      i := k + 1;
    }
  }

  // Two names that one path runs through, neither containing a slash, are the same.
  lemma UnderOneName(path: string, dir: string, u: string, v: string)
    requires '/' !in u && '/' !in v && Under(path, dir, u) && Under(path, dir, v)
    ensures u == v
  {
    var k := |dir| + 1;
    forall i | 0 <= i < |u| && i < |v| ensures u[i] == v[i] {
      assert Join(dir, u)[k + i] == path[k + i] == Join(dir, v)[k + i];
    }
  }

  // Siblings compare as their names do.
  lemma SiblingOrder(dir: string, u: string, v: string)
    ensures Less(Join(dir, u), Join(dir, v)) <==> Less(u, v)
  {
    LessUnderPrefix(dir + "/", u, v);
  }

  // A sibling's whole subtree stays on the side of a path that the sibling itself is on.
  lemma SubtreeOrder(dir: string, u: string, v: string, cursor: string)
    requires ValidName(u) && ValidName(v) && Under(cursor, dir, v) && u != v
    ensures !(Join(dir, u) + "/" <= cursor)
    ensures Less(u, v) ==> Less(Join(dir, u), cursor)
  {
    if Join(dir, u) + "/" <= cursor {
      assert Under(cursor, dir, u);
      UnderOneName(cursor, dir, u, v);
    }
    if Less(u, v) {
      SiblingOrder(dir, u, v);
      LessExtendRight(Join(dir, u), Join(dir, v), cursor[|Join(dir, v)|..]);
      AfterPrefix(Join(dir, v), cursor);
    }
  }

  // A later sibling is no prefix of the path: its name would be a prefix of the earlier name.
  lemma LaterNameNotPrefix(dir: string, u: string, v: string, cursor: string)
    requires ValidName(u) && ValidName(v) && Under(cursor, dir, v) && Less(v, u)
    ensures !(Join(dir, u) <= cursor)
  {
    LessAsymmetric(v, u);
    if Join(dir, u) <= cursor {
      var k := |dir| + 1;
      forall i | 0 <= i < |u| && i < |v| ensures u[i] == v[i] {
        assert Join(dir, u)[k + i] == cursor[k + i] == Join(dir, v)[k + i];
      }
      if |u| < |v| { PrefixIsLess(u, v); }
    }
  }

  // ------------------------------------------- a resumed walk is a filter

  // The part of the list after the first occurrence of `x`.
  function TailAfter(files: seq<string>, x: string): seq<string> {
    if files == [] then [] else if files[0] == x then files[1..] else TailAfter(files[1..], x)
  }

  function Greater(files: seq<string>, cursor: string): seq<string> {
    if files == [] then []
    else if Less(cursor, files[0]) then [files[0]] + Greater(files[1..], cursor)
    else Greater(files[1..], cursor)
  }

  lemma {:induction false} TailAfterConcat(a: seq<string>, b: seq<string>, x: string)
    ensures x in a ==> TailAfter(a + b, x) == TailAfter(a, x) + b
    ensures x !in a ==> TailAfter(a + b, x) == TailAfter(b, x)
  {
    if a == [] {
      ConcatNil(b);
    } else {
      CutFirst(a, b, 1);
      TailAfterConcat(a[1..], b, x);
    }
  }

  lemma {:induction false} GreaterConcat(a: seq<string>, b: seq<string>, cursor: string)
    ensures Greater(a + b, cursor) == Greater(a, cursor) + Greater(b, cursor)
  {
    if a == [] {
      ConcatNil(b);
      ConcatNil(Greater(b, cursor));
    } else {
      CutFirst(a, b, 1);
      GreaterConcat(a[1..], b, cursor);
      ConcatAssoc([a[0]], Greater(a[1..], cursor), Greater(b, cursor));
    }
  }

  lemma {:induction false} GreaterAll(files: seq<string>, cursor: string)
    requires forall f <- files :: Less(cursor, f)
    ensures Greater(files, cursor) == files
  {
    if files != [] {
      GreaterAll(files[1..], cursor);
      HeadAndTail(files);
    }
  }

  lemma {:induction false} GreaterNone(files: seq<string>, cursor: string)
    requires forall f <- files :: !Less(cursor, f)
    ensures Greater(files, cursor) == []
  {
    if files != [] { GreaterNone(files[1..], cursor); }
  }

  // Below a directory that comes after the cursor everything is visited.
  lemma {:induction false} VisitPastCursor(nodes: seq<Node>, dir: string, cursor: string)
    requires cursor == "" || Less(cursor, dir)
    ensures Visit(nodes, dir, cursor) == Files(nodes, dir)
    decreases nodes
  {
    if nodes != [] {
      var path := Join(dir, nodes[0].name);
      if cursor != "" {
        LessExtendRight(cursor, dir, "/" + nodes[0].name);
        ConcatAssoc(dir, "/", nodes[0].name);
      }
      if nodes[0].Dir? { VisitPastCursor(nodes[0].children, path, cursor); }
      VisitPastCursor(nodes[1..], dir, cursor);
    }
  }

  // A directory that comes before the cursor, and is no prefix of it, holds nothing that comes after.
  lemma SkippedHoldsNothing(dir: string, u: string, v: string, cursor: string, node: Node)
    requires node.Dir? && node.name == u && ValidName(u) && ValidName(v) && Less(v, u)
    requires Under(cursor, dir, v) && !Less(cursor, Join(dir, u))
    ensures Greater(FilesOf(node, dir), cursor) == []
  {
    var path := Join(dir, u);
    LaterNameNotPrefix(dir, u, v, cursor);
    LessTotal(path, cursor);
    forall f | f in FilesOf(node, dir) ensures !Less(cursor, f) {
      FilesAreUnder(node, dir, f);
      LessExtendLeft(path, cursor, f[|path|..]);
      AfterPrefix(path, f);
      LessAsymmetric(f, cursor);
    }
    GreaterNone(FilesOf(node, dir), cursor);
  }

  lemma VisitLater(node: Node, dir: string, v: string, cursor: string)
    requires ValidNode(node) && ValidName(v) && Less(v, node.name) && Under(cursor, dir, v)
    ensures VisitNode(node, dir, cursor) == Greater(FilesOf(node, dir), cursor)
  {
    var path := Join(dir, node.name);
    if node.Dir? {
      LessAsymmetric(v, node.name);
      SubtreeOrder(dir, node.name, v, cursor);
      if Less(cursor, path) {
        VisitPastCursor(node.children, path, cursor);
        forall f | f in FilesOf(node, dir) ensures Less(cursor, f) {
          FilesAreUnder(node, dir, f);
          LessExtendRight(cursor, path, f[|path|..]);
          AfterPrefix(path, f);
        }
        GreaterAll(FilesOf(node, dir), cursor);
      } else {
        SkippedHoldsNothing(dir, node.name, v, cursor, node);
      }
    }
  }

  lemma {:induction false} VisitAllLater(nodes: seq<Node>, dir: string, v: string, cursor: string)
    requires ValidTree(nodes) && ValidName(v) && Under(cursor, dir, v)
    requires forall node <- nodes :: Less(v, node.name)
    ensures Visit(nodes, dir, cursor) == Greater(Files(nodes, dir), cursor)
    decreases |nodes|
  {
    if nodes != [] {
      VisitLater(nodes[0], dir, v, cursor);
      VisitAllLater(nodes[1..], dir, v, cursor);
      GreaterConcat(FilesOf(nodes[0], dir), Files(nodes[1..], dir), cursor);
    }
  }

  lemma VisitEarlier(node: Node, dir: string, v: string, cursor: string)
    requires ValidNode(node) && ValidName(v) && Less(node.name, v) && Under(cursor, dir, v)
    ensures VisitNode(node, dir, cursor) == []
  {
    LessAsymmetric(node.name, v);
    SubtreeOrder(dir, node.name, v, cursor);
    LessAsymmetric(Join(dir, node.name), cursor);
  }

  // The cursor lies in the first entry.
  lemma ResumeInFirst(nodes: seq<Node>, dir: string, cursor: string)
    requires ValidTree(nodes) && nodes != [] && cursor in FilesOf(nodes[0], dir)
    requires nodes[0].Dir? ==>
               var path, children := Join(dir, nodes[0].name), nodes[0].children;
               Visit(children, path, cursor) == Greater(TailAfter(Files(children, path), cursor), cursor)
    ensures Visit(nodes, dir, cursor) == Greater(TailAfter(Files(nodes, dir), cursor), cursor)
  {
    var node, rest := nodes[0], nodes[1..];
    var head, tail := FilesOf(node, dir), Files(rest, dir);
    assert ValidNode(node);
    TailAfterConcat(head, tail, cursor);
    FilesAreUnder(node, dir, cursor);
    VisitAllLater(rest, dir, node.name, cursor);
    GreaterConcat(TailAfter(head, cursor), tail, cursor);
    if node.Dir? {
      FilesAreBelow(node.children, Join(dir, node.name), cursor);
    } else {
      LessIrreflexive(cursor);
    }
  }

  // The cursor lies in a later entry.
  lemma ResumeInRest(nodes: seq<Node>, dir: string, cursor: string)
    requires ValidTree(nodes) && nodes != [] && cursor !in FilesOf(nodes[0], dir) && cursor in Files(nodes[1..], dir)
    requires Visit(nodes[1..], dir, cursor) == Greater(TailAfter(Files(nodes[1..], dir), cursor), cursor)
    ensures Visit(nodes, dir, cursor) == Greater(TailAfter(Files(nodes, dir), cursor), cursor)
  {
    var rest := nodes[1..];
    TailAfterConcat(FilesOf(nodes[0], dir), Files(rest, dir), cursor);
    var i := FilesHaveParent(rest, dir, cursor);
    FilesAreUnder(rest[i], dir, cursor);
    assert ValidNode(nodes[0]) && ValidNode(nodes[i + 1]);
    VisitEarlier(nodes[0], dir, rest[i].name, cursor);
  }

  /** A walk resumed after a session file of the tree visits exactly the session files that a full walk reaches
      later and whose path is greater; the directories it skips hold none of them. */
  lemma {:induction false} ResumedWalkIsFilter(nodes: seq<Node>, dir: string, cursor: string)
    requires ValidTree(nodes) && cursor in Files(nodes, dir)
    ensures Visit(nodes, dir, cursor) == Greater(TailAfter(Files(nodes, dir), cursor), cursor)
    decreases nodes
  {
    if cursor in FilesOf(nodes[0], dir) {
      assert ValidNode(nodes[0]);
      if nodes[0].Dir? { ResumedWalkIsFilter(nodes[0].children, Join(dir, nodes[0].name), cursor); }
      ResumeInFirst(nodes, dir, cursor);
    } else {
      ResumedWalkIsFilter(nodes[1..], dir, cursor);
      ResumeInRest(nodes, dir, cursor);
    }
  }

  // ------------------------------------------------------------ no duplicates

  /** No path is reached twice by a full walk. */
  lemma {:induction false} FilesDistinct(nodes: seq<Node>, dir: string)
    requires ValidTree(nodes)
    ensures Distinct(Files(nodes, dir))
    decreases nodes
  {
    if nodes != [] {
      var head, tail := FilesOf(nodes[0], dir), Files(nodes[1..], dir);
      assert ValidNode(nodes[0]);
      if nodes[0].Dir? { FilesDistinct(nodes[0].children, Join(dir, nodes[0].name)); }
      FilesDistinct(nodes[1..], dir);
      forall x | x in head ensures x !in tail {
        if x in tail {
          var i := FilesHaveParent(nodes[1..], dir, x);
          FilesAreUnder(nodes[0], dir, x);
          FilesAreUnder(nodes[i + 1], dir, x);
          assert ValidNode(nodes[i + 1]);
          UnderOneName(x, dir, nodes[0].name, nodes[i + 1].name);
          LessIrreflexive(nodes[0].name);
        }
      }
      DistinctConcat(head, tail);
    }
  }

  lemma {:induction false} GreaterSubset(files: seq<string>, cursor: string, x: string)
    ensures x in Greater(files, cursor) <==> x in files && Less(cursor, x)
  {
    if files != [] { GreaterSubset(files[1..], cursor, x); }
  }

  lemma {:induction false} GreaterDistinct(files: seq<string>, cursor: string)
    requires Distinct(files)
    ensures Distinct(Greater(files, cursor))
  {
    if files != [] {
      var rest := files[1..];
      DistinctTail(files);
      GreaterDistinct(rest, cursor);
      GreaterSubset(rest, cursor, files[0]);
      DistinctCons(files[0], Greater(rest, cursor));
    }
  }

  // ------------------------------------------------------------ batch scans

  lemma {:induction false} GreaterLength(files: seq<string>, cursor: string)
    ensures |Greater(files, cursor)| <= |files|
  {
    if files != [] { GreaterLength(files[1..], cursor); }
  }

  /** What is visited when `files` is cut into batches of `n`, each resumed after the last path of the one before. */
  function ScanList(files: seq<string>, n: nat): seq<string>
    requires n > 0
    decreases |files|
  {
    if |files| < n then files else
    GreaterLength(files[n..], files[n - 1]);
    files[..n] + ScanList(Greater(files[n..], files[n - 1]), n)
  }

  lemma {:induction false} ScanListVisitsOnce(files: seq<string>, n: nat)
    requires n > 0 && Distinct(files)
    ensures Distinct(ScanList(files, n)) && forall x | x in ScanList(files, n) :: x in files
    decreases |files|
  {
    if |files| >= n {
      var rest := Greater(files[n..], files[n - 1]);
      SplitAt(files, n);
      DistinctConcat(files[..n], files[n..]);
      GreaterDistinct(files[n..], files[n - 1]);
      GreaterLength(files[n..], files[n - 1]);
      ScanListVisitsOnce(rest, n);
      forall x | x in ScanList(rest, n) ensures x in files[n..] { GreaterSubset(files[n..], files[n - 1], x); }
      DistinctConcat(files[..n], ScanList(rest, n));
    }
  }

  ghost predicate Sorted(files: seq<string>) {
    forall i, j :: 0 <= i < j < |files| ==> Less(files[i], files[j])
  }

  lemma {:induction false} SortedScanIsComplete(files: seq<string>, n: nat)
    requires n > 0 && Sorted(files)
    ensures ScanList(files, n) == files
    decreases |files|
  {
    if |files| >= n {
      var rest := files[n..];
      forall f | f in rest ensures Less(files[n - 1], f) {
        var k :| 0 <= k < |rest| && rest[k] == f;
        assert files[n + k] == f;
      }
      GreaterAll(rest, files[n - 1]);
      forall i, j | 0 <= i < j < |rest| ensures Less(rest[i], rest[j]) {
        assert Less(files[n + i], files[n + j]);
      }
      SortedScanIsComplete(rest, n);
      SplitAt(files, n);
    }
  }

  // A batch that ends just before a smaller path loses it.
  lemma DescentLosesFile(files: seq<string>, n: nat)
    requires 0 < n < |files| && Distinct(files) && !Less(files[n - 1], files[n])
    ensures files[n] !in ScanList(files, n)
  {
    var rest := Greater(files[n..], files[n - 1]);
    GreaterSubset(files[n..], files[n - 1], files[n]);
    GreaterLength(files[n..], files[n - 1]);
    SplitAt(files, n);
    DistinctConcat(files[..n], files[n..]);
    GreaterDistinct(files[n..], files[n - 1]);
    ScanListVisitsOnce(rest, n);
    assert files[n] in files[n..];
  }

  lemma {:induction false} AscendingIsSorted(files: seq<string>)
    requires forall i :: 0 < i < |files| ==> Less(files[i - 1], files[i])
    ensures Sorted(files)
  {
    forall i, j | 0 <= i < j < |files| ensures Less(files[i], files[j]) { AscendsTo(files, i, j); }
  }

  lemma {:induction false} AscendsTo(files: seq<string>, i: nat, j: nat)
    requires forall i :: 0 < i < |files| ==> Less(files[i - 1], files[i])
    requires i < j < |files|
    ensures Less(files[i], files[j])
    decreases j
  {
    if i + 1 < j {
      AscendsTo(files, i, j - 1);
      LessTransitive(files[i], files[j - 1], files[j]);
    } else {
      assert Less(files[j - 1], files[j]);
    }
  }

  /** Scanning in batches visits every file, whatever the batch size, exactly when the files are sorted. */
  lemma BatchesCompleteIffSorted(files: seq<string>)
    requires Distinct(files)
    ensures (forall n | n > 0 :: ScanList(files, n) == files) <==> Sorted(files)
  {
    if Sorted(files) {
      forall n | n > 0 ensures ScanList(files, n) == files { SortedScanIsComplete(files, n); }
    } else {
      if forall i :: 0 < i < |files| ==> Less(files[i - 1], files[i]) {
        AscendingIsSorted(files);
      } else {
        var i :| 0 < i < |files| && !Less(files[i - 1], files[i]);
        DescentLosesFile(files, i);
        assert files[i] in files;
      }
    }
  }

  // -------------------------------------------------- which trees are sorted

  /** Directory `u` sorts before its sibling `v` by name, but the paths below it after those of `v`. */
  predicate Inverts(u: Node, v: Node) {
    u.Dir? && u.name < v.name && v.name[|u.name|] < '/'
  }

  /** No directory with session files in it has a sibling, itself or below it a session file, whose name
      continues the directory's name with a byte below the slash. */
  ghost predicate NoInversion(nodes: seq<Node>, dir: string)
    decreases nodes
  {
    && (forall i, j | 0 <= i < j < |nodes| && Inverts(nodes[i], nodes[j]) ::
          FilesOf(nodes[i], dir) == [] || FilesOf(nodes[j], dir) == [])
    && forall node | node in nodes && node.Dir? :: NoInversion(node.children, Join(dir, node.name))
  }

  // Files of two siblings compare as the names do, unless the siblings are inverted.
  lemma SiblingFilesOrder(u: Node, v: Node, dir: string, f: string, g: string)
    requires ValidNode(u) && ValidNode(v) && Less(u.name, v.name)
    requires f in FilesOf(u, dir) && g in FilesOf(v, dir)
    ensures Less(f, g) <==> !Inverts(u, v)
  {
    var p, q := Join(dir, u.name), Join(dir, v.name);
    FilesAreUnder(u, dir, f);
    FilesAreUnder(v, dir, g);
    AfterPrefix(p, f);
    AfterPrefix(q, g);
    SiblingOrder(dir, u.name, v.name);
    LessExtendRight(p, q, g[|q|..]);
    if p <= q {
      PrefixSiblingsOrder(u, v, dir, f, g);
    } else {
      LaterNameUnrelated(p, q, g);
      LessExtendLeft(p, g, f[|p|..]);
    }
  }

  lemma LaterNameUnrelated(p: string, q: string, g: string)
    requires !(p <= q) && Less(p, q) && q <= g
    ensures !(p <= g)
  {
    if p <= g {
      assert q <= p by { assert forall i :: 0 <= i < |q| && i < |p| ==> q[i] == g[i] == p[i]; }
      if q == p { LessIrreflexive(p); } else { PrefixIsLess(q, p); LessAsymmetric(p, q); }
    }
  }

  lemma JoinPrefix(dir: string, u: string, v: string)
    requires Join(dir, u) <= Join(dir, v)
    ensures u <= v
  {
    var p, q, k := Join(dir, u), Join(dir, v), |dir| + 1;
    assert u == p[k..] && v == q[k..];
    assert forall i :: k <= i < |p| ==> p[i] == q[i];
  }

  lemma PrefixSiblingsOrder(u: Node, v: Node, dir: string, f: string, g: string)
    requires ValidNode(u) && ValidNode(v) && Less(u.name, v.name)
    requires f in FilesOf(u, dir) && g in FilesOf(v, dir) && Join(dir, u.name) <= Join(dir, v.name)
    ensures Less(f, g) <==> !Inverts(u, v)
  {
    var p, q := Join(dir, u.name), Join(dir, v.name);
    FilesAreUnder(u, dir, f);
    FilesAreUnder(v, dir, g);
    LessIrreflexive(u.name);
    JoinPrefix(dir, u.name, v.name);
    ProperPrefix(u.name, v.name);
    assert p < g;
    if u.File? {
      PrefixIsLess(p, g);
    } else {
      assert v.name[|u.name|] in v.name && q[|p|] == v.name[|u.name|];
      NextByteDecides(p, f, g);
    }
  }

  lemma NextByteDecides(p: string, f: string, g: string)
    requires p < f && p < g && f[|p|] != g[|p|]
    ensures Less(f, g) <==> f[|p|] < g[|p|]
  {
    AfterPrefix(p, f);
    AfterPrefix(p, g);
    LessUnderPrefix(p, f[|p|..], g[|p|..]);
  }

  ghost predicate AllLess(a: seq<string>, b: seq<string>) {
    forall x, y | x in a && y in b :: Less(x, y)
  }

  lemma SortedConcat(a: seq<string>, b: seq<string>)
    ensures Sorted(a + b) <==> Sorted(a) && Sorted(b) && AllLess(a, b)
  {
    var all := a + b;
    if Sorted(a) && Sorted(b) && AllLess(a, b) {
      forall i, j | 0 <= i < j < |all| ensures Less(all[i], all[j]) {
        if i < |a| <= j { assert a[i] in a && b[j - |a|] in b; }
      }
    }
    if Sorted(all) {
      forall i, j | 0 <= i < j < |a| ensures Less(a[i], a[j]) { assert Less(all[i], all[j]); }
      forall i, j | 0 <= i < j < |b| ensures Less(b[i], b[j]) { assert Less(all[|a| + i], all[|a| + j]); }
      forall x, y | x in a && y in b ensures Less(x, y) {
        var i :| 0 <= i < |a| && a[i] == x;
        var j :| 0 <= j < |b| && b[j] == y;
        assert Less(all[i], all[|a| + j]);
      }
    }
  }

  ghost predicate HeadInvertsNothing(nodes: seq<Node>, dir: string)
    requires nodes != []
  {
    forall j | 0 < j < |nodes| && Inverts(nodes[0], nodes[j]) ::
      FilesOf(nodes[0], dir) == [] || FilesOf(nodes[j], dir) == []
  }

  lemma {:induction false} FilesOfIn(nodes: seq<Node>, dir: string, i: nat, path: string)
    requires i < |nodes| && path in FilesOf(nodes[i], dir)
    ensures path in Files(nodes, dir)
  {
    if i > 0 { FilesOfIn(nodes[1..], dir, i - 1, path); }
  }

  lemma HeadOrder(nodes: seq<Node>, dir: string)
    requires ValidTree(nodes) && nodes != []
    ensures AllLess(FilesOf(nodes[0], dir), Files(nodes[1..], dir)) <==> HeadInvertsNothing(nodes, dir)
  {
    assert ValidNode(nodes[0]);
    if HeadInvertsNothing(nodes, dir) {
      forall x, y | x in FilesOf(nodes[0], dir) && y in Files(nodes[1..], dir) ensures Less(x, y) {
        var i := FilesHaveParent(nodes[1..], dir, y);
        assert ValidNode(nodes[i + 1]);
        SiblingFilesOrder(nodes[0], nodes[i + 1], dir, x, y);
      }
    }
    if AllLess(FilesOf(nodes[0], dir), Files(nodes[1..], dir)) {
      forall j | 0 < j < |nodes| && Inverts(nodes[0], nodes[j])
        ensures FilesOf(nodes[0], dir) == [] || FilesOf(nodes[j], dir) == []
      {
        if FilesOf(nodes[0], dir) != [] && FilesOf(nodes[j], dir) != [] {
          var x, y := FilesOf(nodes[0], dir)[0], FilesOf(nodes[j], dir)[0];
          FilesOfIn(nodes[1..], dir, j - 1, y);
          assert ValidNode(nodes[j]);
          SiblingFilesOrder(nodes[0], nodes[j], dir, x, y);
        }
      }
    }
  }

  lemma NoInversionCons(nodes: seq<Node>, dir: string)
    requires nodes != []
    ensures NoInversion(nodes, dir) <==>
            && HeadInvertsNothing(nodes, dir)
            && NoInversion(nodes[1..], dir)
            && (nodes[0].Dir? ==> NoInversion(nodes[0].children, Join(dir, nodes[0].name)))
  {
    var rest := nodes[1..];
    if NoInversion(nodes, dir) {
      forall i, j | 0 <= i < j < |rest| && Inverts(rest[i], rest[j])
        ensures FilesOf(rest[i], dir) == [] || FilesOf(rest[j], dir) == []
      {
        assert Inverts(nodes[i + 1], nodes[j + 1]);
      }
    }
    if HeadInvertsNothing(nodes, dir) && NoInversion(rest, dir) {
      forall i, j | 0 <= i < j < |nodes| && Inverts(nodes[i], nodes[j])
        ensures FilesOf(nodes[i], dir) == [] || FilesOf(nodes[j], dir) == []
      {
        if i > 0 { assert Inverts(rest[i - 1], rest[j - 1]); }
      }
    }
  }

  lemma SortedCons(nodes: seq<Node>, dir: string)
    requires ValidTree(nodes) && nodes != []
    ensures Sorted(Files(nodes, dir)) <==>
            Sorted(FilesOf(nodes[0], dir)) && Sorted(Files(nodes[1..], dir)) && HeadInvertsNothing(nodes, dir)
  {
    HeadOrder(nodes, dir);
    SortedConcat(FilesOf(nodes[0], dir), Files(nodes[1..], dir));
  }

  /** The walk order of the session files is their string order exactly when no sibling inverts another. */
  lemma {:induction false} SortedIffNoInversion(nodes: seq<Node>, dir: string)
    requires ValidTree(nodes)
    ensures Sorted(Files(nodes, dir)) <==> NoInversion(nodes, dir)
    decreases nodes
  {
    if nodes != [] {
      assert ValidNode(nodes[0]);
      if nodes[0].Dir? { SortedIffNoInversion(nodes[0].children, Join(dir, nodes[0].name)); }
      SortedIffNoInversion(nodes[1..], dir);
      NoInversionCons(nodes, dir);
      SortedCons(nodes, dir);
    }
  }

  // -------------------------------------------------------- scanning a tree

  /** A stored cursor: empty at first, later a path that an earlier batch ended with. */
  predicate GoodCursor(nodes: seq<Node>, root: string, cursor: string) {
    cursor == "" || cursor in Files(nodes, root)
  }

  lemma VisitedFiles(nodes: seq<Node>, root: string, cursor: string)
    requires ValidTree(nodes) && GoodCursor(nodes, root, cursor)
    ensures Distinct(Visit(nodes, root, cursor))
    ensures forall x | x in Visit(nodes, root, cursor) :: x in Files(nodes, root) && Less(cursor, x)
    ensures cursor == "" ==> Visit(nodes, root, cursor) == Files(nodes, root)
  {
    var files := Files(nodes, root);
    FilesDistinct(nodes, root);
    if cursor == "" {
      VisitPastCursor(nodes, root, cursor);
      forall x | x in files ensures Less("", x) { FilesAreBelow(nodes, root, x); }
    } else {
      ResumedWalkIsFilter(nodes, root, cursor);
      TailAfterSuffix(files, cursor);
      GreaterDistinct(TailAfter(files, cursor), cursor);
      forall x | x in Visit(nodes, root, cursor) ensures x in files && Less(cursor, x) {
        GreaterSubset(TailAfter(files, cursor), cursor, x);
      }
    }
  }

  lemma {:induction false} TailAfterSuffix(files: seq<string>, x: string)
    requires Distinct(files)
    ensures Distinct(TailAfter(files, x)) && forall y | y in TailAfter(files, x) :: y in files
  {
    if files != [] {
      var rest := files[1..];
      DistinctTail(files);
      TailAfterSuffix(rest, x);
    }
  }

  // Resuming after the last path of a batch visits what the batch left over, less what the cursor now excludes.
  lemma {:induction false} GreaterTail(files: seq<string>, c: string, d: string)
    requires d in files && Less(c, d)
    ensures Greater(TailAfter(files, d), d) == Greater(TailAfter(Greater(files, c), d), d)
    ensures d in Greater(files, c)
    decreases |files|
  {
    var rest := files[1..];
    assert ([files[0]] + Greater(rest, c))[1..] == Greater(rest, c);
    if files[0] == d {
      GreaterTwice(rest, c, d);
    } else {
      GreaterTail(rest, c, d);
    }
  }

  lemma {:induction false} GreaterTwice(files: seq<string>, c: string, d: string)
    requires Less(c, d)
    ensures Greater(Greater(files, c), d) == Greater(files, d)
  {
    if files != [] {
      var rest := files[1..];
      GreaterTwice(rest, c, d);
      assert ([files[0]] + Greater(rest, c))[1..] == Greater(rest, c);
      if Less(d, files[0]) { LessTransitive(c, d, files[0]); }
    }
  }

  lemma {:induction false} TailAfterTwice(files: seq<string>, c: string, d: string)
    requires Distinct(files) && c in files && d in TailAfter(files, c)
    ensures TailAfter(TailAfter(files, c), d) == TailAfter(files, d)
    decreases |files|
  {
    var rest := files[1..];
    DistinctTail(files);
    TailAfterSuffix(rest, c);
    if files[0] != c {
      TailAfterTwice(rest, c, d);
      assert files[0] != d;
    } else {
      assert files[0] != d;
    }
  }

  lemma {:induction false} TailAfterIndex(files: seq<string>, i: nat)
    requires Distinct(files) && i < |files|
    ensures TailAfter(files, files[i]) == files[i + 1..]
  {
    if i > 0 {
      var rest := files[1..];
      DistinctTail(files);
      TailAfterIndex(rest, i - 1);
    }
  }

  /** Resuming a walk after one of the paths it visits: the later ones of them, if greater. */
  lemma VisitResumed(nodes: seq<Node>, root: string, cursor: string, i: nat)
    requires ValidTree(nodes) && GoodCursor(nodes, root, cursor) && i < |Visit(nodes, root, cursor)|
    ensures var v := Visit(nodes, root, cursor);
            GoodCursor(nodes, root, v[i]) && Visit(nodes, root, v[i]) == Greater(v[i + 1..], v[i])
  {
    var files, v := Files(nodes, root), Visit(nodes, root, cursor);
    VisitedFiles(nodes, root, cursor);
    FilesDistinct(nodes, root);
    assert v[i] in v;
    ResumedWalkIsFilter(nodes, root, v[i]);
    TailAfterIndex(v, i);
    if cursor != "" {
      ResumedWalkIsFilter(nodes, root, cursor);
      var tail := TailAfter(files, cursor);
      GreaterSubset(tail, cursor, v[i]);
      GreaterTail(tail, cursor, v[i]);
      TailAfterTwice(files, cursor, v[i]);
    }
  }

  /** Everything the batch loop visits from `cursor` on, in batches of `n`. */
  function Scan(nodes: seq<Node>, root: string, cursor: string, n: nat): seq<string>
    requires ValidTree(nodes) && GoodCursor(nodes, root, cursor) && n > 0
    decreases |Visit(nodes, root, cursor)|
  {
    var v := Visit(nodes, root, cursor);
    if |v| < n then v else
    VisitResumed(nodes, root, cursor, n - 1);
    GreaterLength(v[n..], v[n - 1]);
    v[..n] + Scan(nodes, root, v[n - 1], n)
  }

  lemma {:induction false} ScanIsScanList(nodes: seq<Node>, root: string, cursor: string, n: nat)
    requires ValidTree(nodes) && GoodCursor(nodes, root, cursor) && n > 0
    ensures Scan(nodes, root, cursor, n) == ScanList(Visit(nodes, root, cursor), n)
    decreases |Visit(nodes, root, cursor)|
  {
    var v := Visit(nodes, root, cursor);
    if |v| >= n {
      VisitResumed(nodes, root, cursor, n - 1);
      GreaterLength(v[n..], v[n - 1]);
      ScanIsScanList(nodes, root, v[n - 1], n);
    }
  }

  /** On any tree, and from any stored cursor, the batches together visit no session file twice and nothing but
      session files whose path is greater than the cursor. */
  lemma ScanVisitsOnce(nodes: seq<Node>, root: string, cursor: string, n: nat)
    requires ValidTree(nodes) && GoodCursor(nodes, root, cursor) && n > 0
    ensures Distinct(Scan(nodes, root, cursor, n))
    ensures forall x | x in Scan(nodes, root, cursor, n) :: x in Files(nodes, root) && Less(cursor, x)
  {
    ScanIsScanList(nodes, root, cursor, n);
    VisitedFiles(nodes, root, cursor);
    ScanListVisitsOnce(Visit(nodes, root, cursor), n);
  }

  /** The batches visit every session file of a tree, in walk order and whatever the batch size, exactly when no
      directory with session files has a sibling with session files whose name continues its own below '/'. */
  lemma ScanCompleteIffNoInversion(nodes: seq<Node>, root: string)
    requires ValidTree(nodes)
    ensures (forall n | n > 0 :: Scan(nodes, root, "", n) == Files(nodes, root)) <==> NoInversion(nodes, root)
  {
    var files := Files(nodes, root);
    FilesDistinct(nodes, root);
    SortedIffNoInversion(nodes, root);
    BatchesCompleteIffSorted(files);
    if NoInversion(nodes, root) {
      forall n | n > 0 ensures Scan(nodes, root, "", n) == files { FirstScan(nodes, root, n); }
    } else {
      var n :| n > 0 && ScanList(files, n) != files;
      FirstScan(nodes, root, n);
    }
  }

  lemma FirstScan(nodes: seq<Node>, root: string, n: nat)
    requires ValidTree(nodes) && n > 0
    ensures Scan(nodes, root, "", n) == ScanList(Files(nodes, root), n)
  {
    ScanIsScanList(nodes, root, "", n);
    VisitedFiles(nodes, root, "");
  }
}
