/** When batches of one size, and of the size the scan uses, find every session file. */
module PiComplete {
  import opened Sequences
  import opened TextOrder
  import opened PiDiscovery

  /** The last file of each full batch of `n` is less than every file after it. */
  ghost predicate CutsAscend(files: seq<string>, n: nat)
    requires n > 0
    decreases |files|
  {
    |files| >= n ==> (forall f <- files[n..] :: Less(files[n - 1], f)) && CutsAscend(files[n..], n)
  }

  ghost predicate AllVisited(files: seq<string>, n: nat)
    requires n > 0
  {
    forall f <- files :: f in ScanList(files, n)
  }

  // A file that is not greater than the cursor of the first batch is lost.
  lemma LostAtFirstCut(files: seq<string>, n: nat, f: string)
    requires 0 < n <= |files| && Distinct(files) && f in files[n..] && !Less(files[n - 1], f)
    ensures f !in ScanList(files, n)
  {
    var rest := Greater(files[n..], files[n - 1]);
    SplitAt(files, n);
    DistinctConcat(files[..n], files[n..]);
    GreaterSubset(files[n..], files[n - 1], f);
    GreaterLength(files[n..], files[n - 1]);
    GreaterDistinct(files[n..], files[n - 1]);
    ScanListVisitsOnce(rest, n);
  }

  /** Batches of `n` visit every file, and then all of them in order, if and only if each full batch ends with a file
      less than all the later ones. */
  lemma {:induction false} ScanListCompleteIff(files: seq<string>, n: nat)
    requires n > 0 && Distinct(files)
    ensures ScanList(files, n) == files <==> CutsAscend(files, n)
    ensures AllVisited(files, n) <==> CutsAscend(files, n)
    decreases |files|
  {
    if |files| >= n {
      var head, tail := files[..n], files[n..];
      SplitAt(files, n);
      DistinctConcat(head, tail);
      if forall f <- tail :: Less(files[n - 1], f) {
        GreaterAll(tail, files[n - 1]);
        ScanListCompleteIff(tail, n);
        if !CutsAscend(files, n) {
          var f :| f in tail && f !in ScanList(tail, n);
          assert f in files && f !in head;
        }
      } else {
        var f :| f in tail && !Less(files[n - 1], f);
        LostAtFirstCut(files, n, f);
        assert f in files;
      }
    }
  }

  /** The file number 256 k, counted from 1, is less than every file after it. */
  ghost predicate CutAscends(files: seq<string>, k: nat) {
    1 <= k && 256 * k <= |files| ==> forall j :: 256 * k <= j < |files| ==> Less(files[256 * k - 1], files[j])
  }

  lemma {:induction false} CutsAscendIff(files: seq<string>)
    ensures CutsAscend(files, BATCH_SIZE) <==> forall k :: CutAscends(files, k)
    decreases |files|
  {
    if |files| >= 256 {
      var tail := files[256..];
      CutsAscendIff(tail);
      forall k | 1 <= k ensures CutAscends(files, k + 1) <==> CutAscends(tail, k) { LaterCut(files, k); }
      assert CutAscends(files, 1) <==> forall f <- tail :: Less(files[255], f) by { FirstCut(files); }
      if CutsAscend(files, BATCH_SIZE) {
        forall k: nat ensures CutAscends(files, k) {
          if k > 1 { assert CutAscends(tail, k - 1); assert CutAscends(files, k - 1 + 1); }
        }
      }
      if forall k :: CutAscends(files, k) {
        forall k: nat ensures CutAscends(tail, k) { if k >= 1 { assert CutAscends(files, k + 1); } }
      }
    }
  }

  lemma FirstCut(files: seq<string>)
    requires |files| >= 256
    ensures CutAscends(files, 1) <==> forall f <- files[256..] :: Less(files[255], f)
  {
    var tail := files[256..];
    if CutAscends(files, 1) {
      forall f | f in tail ensures Less(files[255], f) {
        var j :| 0 <= j < |tail| && tail[j] == f;
        assert files[256 + j] == f;
      }
    }
    if forall f <- tail :: Less(files[255], f) {
      forall j | 256 <= j < |files| ensures Less(files[255], files[j]) { assert files[j] == tail[j - 256]; }
    }
  }

  lemma LaterCut(files: seq<string>, k: nat)
    requires |files| >= 256 && k >= 1
    ensures CutAscends(files, k + 1) <==> CutAscends(files[256..], k)
  {
    var tail := files[256..];
    if 256 * k <= |tail| {
      assert tail[256 * k - 1] == files[256 * (k + 1) - 1];
      if CutAscends(files, k + 1) {
        forall j | 256 * k <= j < |tail| ensures Less(tail[256 * k - 1], tail[j]) { assert tail[j] == files[j + 256]; }
      }
      if CutAscends(tail, k) {
        forall j | 256 * (k + 1) <= j < |files| ensures Less(files[256 * (k + 1) - 1], files[j]) {
          assert files[j] == tail[j - 256];
        }
      }
    }
  }

  /** The scan of a tree in the batches it uses finds every session file if and only if, in walk order, the 256th,
      512th, ... file is less than all the later ones. */
  lemma ScanCompleteIff(nodes: seq<Node>, root: string)
    requires ValidTree(nodes)
    ensures Scan(nodes, root, "", BATCH_SIZE) == Files(nodes, root) <==> CutsAscend(Files(nodes, root), BATCH_SIZE)
    ensures (forall f <- Files(nodes, root) :: f in Scan(nodes, root, "", BATCH_SIZE))
      <==> CutsAscend(Files(nodes, root), BATCH_SIZE)
    ensures CutsAscend(Files(nodes, root), BATCH_SIZE) <==> forall k :: CutAscends(Files(nodes, root), k)
  {
    CutsAscendIff(Files(nodes, root));
    FilesDistinct(nodes, root);
    FirstScan(nodes, root, BATCH_SIZE);
    ScanListCompleteIff(Files(nodes, root), BATCH_SIZE);
  }

  /** A tree of at most 256 session files loses none, inverted siblings or not. */
  lemma SmallTreeIsComplete(nodes: seq<Node>, root: string)
    requires ValidTree(nodes) && |Files(nodes, root)| <= 256
    ensures Scan(nodes, root, "", BATCH_SIZE) == Files(nodes, root)
  {
    ScanCompleteIff(nodes, root);
  }

  // ------------------------------------------------------ a tree that loses a file

  // "aa.jsonl", "ab.jsonl", ... "pp.jsonl".
  function SmallName(i: nat): string
    requires i < 256
  {
    ['a' + (i / 16) as char, 'a' + (i % 16) as char] + ".jsonl"
  }

  function SmallFiles(n: nat): seq<Node>
    requires n <= 256
  {
    seq(n, i requires 0 <= i < n => File(SmallName(i)))
  }

  /** Directory `a` with 256 session files, and its sibling `a-b` with one. */
  function LosingTree(): seq<Node> {
    [Dir("a", SmallFiles(256)), Dir("a-b", [File("c.jsonl")])]
  }

  lemma SmallNamesAscend(i: nat, j: nat)
    requires i < j < 256
    ensures Less(SmallName(i), SmallName(j))
  {
  }

  lemma SmallNameIsSession(i: nat)
    requires i < 256
    ensures ValidName(SmallName(i)) && IsSession(SmallName(i))
  {
    LowerAllAt(SmallName(i));
    var lower := LowerAll(SmallName(i));
    assert lower[2..] == ".jsonl";
  }

  lemma {:induction false} FlatFiles(nodes: seq<Node>, dir: string)
    requires forall node <- nodes :: node.File? && IsSession(node.name)
    ensures |Files(nodes, dir)| == |nodes|
    ensures forall k :: 0 <= k < |nodes| ==> Files(nodes, dir)[k] == Join(dir, nodes[k].name)
  {
    if nodes != [] {
      assert nodes[0] in nodes && forall node <- nodes[1..] :: node in nodes;
      FlatFiles(nodes[1..], dir);
    }
  }

  lemma SmallFilesSort(i: nat)
    requires i < 256
    ensures SmallFiles(256)[i] == File(SmallName(i))
    ensures ValidNode(SmallFiles(256)[i]) && IsSession(SmallFiles(256)[i].name)
  {
    SmallNameIsSession(i);
  }

  lemma SmallFilesValid()
    ensures ValidTree(SmallFiles(256)) && forall node <- SmallFiles(256) :: node.File? && IsSession(node.name)
  {
    var nodes := SmallFiles(256);
    forall node | node in nodes ensures node.File? && ValidNode(node) && IsSession(node.name) {
      var i :| 0 <= i < |nodes| && nodes[i] == node;
      SmallFilesSort(i);
    }
    forall i, j | 0 <= i < j < |nodes| ensures Less(nodes[i].name, nodes[j].name) { SmallNamesAscend(i, j); }
  }

  lemma SmallFilesAre(dir: string)
    ensures |Files(SmallFiles(256), dir)| == 256
    ensures Files(SmallFiles(256), dir)[255] == Join(dir, "pp.jsonl")
  {
    var nodes := SmallFiles(256);
    SmallFilesValid();
    FlatFiles(nodes, dir);
    LastSmallFile();
    LastOfFlat(Files(nodes, dir), nodes[255].name, dir);
  }

  lemma LastOfFlat(files: seq<string>, name: string, dir: string)
    requires |files| == 256 && files[255] == Join(dir, name) && name == "pp.jsonl"
    ensures files[255] == Join(dir, "pp.jsonl")
  {
  }

  lemma LastSmallFile()
    ensures |SmallFiles(256)| == 256 && SmallFiles(256)[255].name == "pp.jsonl"
  {
    SmallFilesSort(255);
    var name := SmallName(255);
    assert name[0] == 'p' && name[1] == 'p' && name == "pp.jsonl";
  }

  lemma FilesOfTwo(first: Node, second: Node, dir: string)
    ensures Files([first, second], dir) == FilesOf(first, dir) + FilesOf(second, dir)
  {
    assert [first, second][1..] == [second];
    FilesOfOne(second, dir);
  }

  lemma FilesOfOne(node: Node, dir: string)
    ensures Files([node], dir) == FilesOf(node, dir)
  {
    assert [node][1..] == [];
    ConcatNil(FilesOf(node, dir));
  }

  lemma LastFile()
    ensures ValidTree([File("c.jsonl")]) && IsSession("c.jsonl")
  {
    LowerAllAt("c.jsonl");
    assert LowerAll("c.jsonl")[1..] == ".jsonl";
  }

  lemma LosingTreeIsValid()
    ensures ValidTree(LosingTree())
  {
    SmallFilesValid();
    LastFile();
    PrefixIsLess("a", "a-b");
  }

  lemma LosingTreeIs(root: string)
    ensures Files(LosingTree(), root) == Files(SmallFiles(256), Join(root, "a")) + [Join(Join(root, "a-b"), "c.jsonl")]
  {
    LastFile();
    FlatFiles([File("c.jsonl")], Join(root, "a-b"));
    FilesOfTwo(Dir("a", SmallFiles(256)), Dir("a-b", [File("c.jsonl")]), root);
  }

  /** It has 257 session files, and the scan never sees the last of them, since it sorts below the 256th. */
  lemma LosingTreeLosesAFile(root: string)
    ensures ValidTree(LosingTree())
    ensures Join(Join(root, "a-b"), "c.jsonl") in Files(LosingTree(), root)
    ensures Join(Join(root, "a-b"), "c.jsonl") !in Scan(LosingTree(), root, "", BATCH_SIZE)
  {
    LosingTreeIsValid();
    LosingTreeIs(root);
    SmallFilesAre(Join(root, "a"));
    var files := Files(LosingTree(), root);
    FilesDistinct(LosingTree(), root);
    FirstScan(LosingTree(), root, BATCH_SIZE);
    SiblingsInverted(root);
    DescentLosesFile(files, BATCH_SIZE);
  }

  lemma SiblingsInverted(root: string)
    ensures !Less(Join(Join(root, "a"), "pp.jsonl"), Join(Join(root, "a-b"), "c.jsonl"))
  {
    var p := root + "/a";
    var u, v := p + "/pp.jsonl", p + "-b/c.jsonl";
    LessUnderPrefix(p, "-b/c.jsonl", "/pp.jsonl");
    LessAsymmetric(v, u);
    assert Join(Join(root, "a"), "pp.jsonl") == u && Join(Join(root, "a-b"), "c.jsonl") == v;
  }
}
