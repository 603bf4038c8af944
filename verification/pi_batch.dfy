/** The batch lister and the scan loop, step by step, against the specification of the walk. */
module PiBatch {
  import opened Sequences
  import opened TextOrder
  import opened PiDiscovery

  datatype Signal = Continue | SkipDir | BatchFull

  function Select(files: seq<string>, inProject: string -> bool): seq<string> {
    if files == [] then []
    else Select(files[..|files| - 1], inProject)
         + if inProject(files[|files| - 1]) then [files[|files| - 1]] else []
  }

  lemma {:induction false} SelectConcat(a: seq<string>, b: seq<string>, inProject: string -> bool)
    ensures Select(a + b, inProject) == Select(a, inProject) + Select(b, inProject)
  {
    if b == [] {
      ConcatNil(a);
      ConcatNil(Select(a, inProject));
    } else {
      var n := |b| - 1;
      SelectConcat(a, b[..n], inProject);
      assert (a + b)[..|a + b| - 1] == a + b[..n];
      ConcatAssoc(Select(a, inProject), Select(b[..n], inProject), if inProject(b[n]) then [b[n]] else []);
    }
  }

  lemma SelectSnoc(files: seq<string>, f: string, inProject: string -> bool)
    ensures Select(files + [f], inProject) == Select(files, inProject) + if inProject(f) then [f] else []
  {
    assert (files + [f])[..|files|] == files;
  }

  /** What is selected are the files of the project. */
  lemma {:induction false} SelectIff(files: seq<string>, inProject: string -> bool)
    ensures forall f :: f in Select(files, inProject) <==> f in files && inProject(f)
  {
    if files != [] {
      var init, last := files[..|files| - 1], files[|files| - 1];
      SelectIff(init, inProject);
      SplitAt(files, |files| - 1);
      assert files[|files| - 1..] == [last];
    }
  }

  /** They keep their order and their repetitions: files of the project alone are all selected. */
  lemma {:induction false} SelectAll(files: seq<string>, inProject: string -> bool)
    requires forall f <- files :: inProject(f)
    ensures Select(files, inProject) == files
  {
    if files != [] {
      SelectAll(files[..|files| - 1], inProject);
      SplitAt(files, |files| - 1);
    }
  }

  lemma TakeConcat(a: seq<string>, b: seq<string>, n: nat)
    ensures |a| >= n ==> Take(a + b, n) == Take(a, n)
    ensures |a| < n ==> Take(a + b, n) == a + Take(b, n - |a|)
  {
  }

  // One more part of a walk for which there is room after what has been seen.
  lemma TakeStep(before: seq<string>, seen: seq<string>, here: seq<string>, rest: seq<string>, room: nat)
    requires |seen| < room
    ensures seen + (here + rest) == seen + here + rest
    ensures before + seen + Take(here, room - |seen|) == before + Take(seen + here, room)
    ensures |seen| + |here| >= room ==> Take(seen + (here + rest), room) == Take(seen + here, room)
    ensures |seen| + |here| < room ==> Take(here, room - |seen|) == here
  {
    ConcatAssoc(seen, here, rest);
    TakeConcat(seen, here, room);
    TakeConcat(seen + here, rest, room);
    ConcatAssoc(before, seen, Take(here, room - |seen|));
  }

  /** The state one call of the lister keeps while it walks. */
  class BatchWalk {
    var visited: nat
    var nextCursor: string
    var candidates: seq<string>
    ghost var paths: seq<string>
    const afterCursor: string
    const inProject: string -> bool

    constructor (afterCursor: string, inProject: string -> bool)
      ensures this.afterCursor == afterCursor && this.inProject == inProject
      ensures visited == 0 && nextCursor == afterCursor && candidates == [] && paths == []
    {
      this.afterCursor, this.inProject := afterCursor, inProject;
      visited, nextCursor, candidates, paths := 0, afterCursor, [], [];
    }

    ghost predicate Valid()
      reads this
    {
      && visited == |paths| <= BATCH_SIZE
      && candidates == Select(paths, inProject)
      && nextCursor == if paths == [] then afterCursor else paths[|paths| - 1]
    }

    /** The callback for one directory entry; the root itself is never passed. */
    method Entry(path: string, name: string, isDir: bool) returns (signal: Signal)
      requires Valid() && visited < BATCH_SIZE
      modifies this
      ensures Valid()
      ensures isDir ==> paths == old(paths) && signal == if Skipped(path, afterCursor) then SkipDir else Continue
      ensures !isDir ==>
                && paths == old(paths) + (if IsSession(name) && (afterCursor == "" || Less(afterCursor, path))
                                          then [path] else [])
                && signal == if |paths| == BATCH_SIZE then BatchFull else Continue
    {
      if afterCursor != "" && !Less(afterCursor, path) {
        if isDir && !(path + "/" <= afterCursor) {
          return SkipDir;
        }
        return Continue;
      }
      if isDir || !IsSession(name) {
        return Continue;
      }
      visited := visited + 1;
      nextCursor := path;
      paths := paths + [path];
      assert paths[..|paths| - 1] == old(paths);
      if inProject(path) {
        candidates := candidates + [path];
      }
      signal := if visited >= BATCH_SIZE then BatchFull else Continue;
    }

    // The library's depth-first walk over the entries of a directory.
    method Walk(nodes: seq<Node>, dir: string) returns (full: bool)
      requires Valid() && visited < BATCH_SIZE
      modifies this
      ensures Valid()
      ensures paths == old(paths) + Take(Visit(nodes, dir, afterCursor), BATCH_SIZE - old(visited))
      ensures full <==> |Visit(nodes, dir, afterCursor)| >= BATCH_SIZE - old(visited)
      decreases nodes, 1
    {
      full := false;
      ghost var room := BATCH_SIZE - visited;
      ghost var seen: seq<string> := [];
      assert seen + Visit(nodes, dir, afterCursor) == Visit(nodes, dir, afterCursor);
      for i := 0 to |nodes|
        invariant Valid() && visited < BATCH_SIZE && !full
        invariant |seen| < room && paths == old(paths) + seen
        invariant seen + Visit(nodes[i..], dir, afterCursor) == Visit(nodes, dir, afterCursor)
      {
        ghost var here, rest := VisitNode(nodes[i], dir, afterCursor), Visit(nodes[i + 1..], dir, afterCursor);
        assert nodes[i..][1..] == nodes[i + 1..];
        TakeStep(old(paths), seen, here, rest, room);
        full := WalkNode(nodes[i], dir);
        if full {
          return;
        }
        ConcatAssoc(old(paths), seen, here);
        seen := seen + here;
      }
      assert nodes[|nodes|..] == [];
      ConcatNil(seen);
    }

    method WalkNode(node: Node, dir: string) returns (full: bool)
      requires Valid() && visited < BATCH_SIZE
      modifies this
      ensures Valid()
      ensures paths == old(paths) + Take(VisitNode(node, dir, afterCursor), BATCH_SIZE - old(visited))
      ensures full <==> |VisitNode(node, dir, afterCursor)| >= BATCH_SIZE - old(visited)
      decreases node, 0
    {
      var path := Join(dir, node.name);
      var signal := Entry(path, node.name, node.Dir?);
      if node.Dir? && signal == Continue {
        full := Walk(node.children, path);
      } else {
        full := signal == BatchFull;
      }
    }
  }

  /** One batch: at most BATCH_SIZE session files after the cursor, those of the project kept as candidates. */
  method ListBatch(nodes: seq<Node>, root: string, afterCursor: string, inProject: string -> bool)
    returns (candidates: seq<string>, nextCursor: string, hasMore: bool)
    ensures var v := Visit(nodes, root, afterCursor);
            && (hasMore <==> |v| >= 256)
            && candidates == Select(Take(v, 256), inProject)
            && (forall f :: f in candidates <==> f in Take(v, 256) && inProject(f))
            && nextCursor == if hasMore then v[255] else ""
  {
    SelectIff(Take(Visit(nodes, root, afterCursor), 256), inProject);
    var walk := new BatchWalk(afterCursor, inProject);
    var full := walk.Walk(nodes, root);
    ConcatNil(Take(Visit(nodes, root, afterCursor), BATCH_SIZE));
    candidates := walk.candidates;
    if full {
      return candidates, walk.nextCursor, true;
    }
    return candidates, "", false;
  }

  /** Only files of the project have been found, and in the end every one of them. */
  ghost predicate FoundIn(found: seq<string>, files: seq<string>, inProject: string -> bool, all: bool) {
    && (forall f <- found :: f in files && inProject(f))
    && (all ==> forall f <- files :: inProject(f) ==> f in found)
  }

  lemma FoundSoFar(found: seq<string>, rest: seq<string>, files: seq<string>, inProject: string -> bool, all: bool)
    requires found + rest == Select(files, inProject) && (all ==> rest == [])
    ensures FoundIn(found, files, inProject, all)
  {
    SelectIff(files, inProject);
    assert forall f <- found :: f in found + rest;
    if all { ConcatNil(found); }
  }

  /** What the background scan of a project keeps between runs. */
  class ScanState {
    var sessions: seq<string>
    var cursor: string
    var hasMore: bool

    constructor ()
      ensures sessions == [] && cursor == "" && hasMore
    {
      sessions, cursor, hasMore := [], "", true;
    }

    /** What has been found and what the stored cursor will still find are what one uninterrupted scan finds. */
    ghost predicate OnTrack(nodes: seq<Node>, root: string, inProject: string -> bool)
      requires ValidTree(nodes)
      reads this
    {
      && GoodCursor(nodes, root, cursor)
      && sessions + (if hasMore then Select(Scan(nodes, root, cursor, BATCH_SIZE), inProject) else [])
         == Select(Scan(nodes, root, "", BATCH_SIZE), inProject)
    }

    /** Runs batches until there are no more or the `budget` of batches is spent, as when a run is cancelled or a
        batch fails; the stored cursor lets a later run continue, and every batch raises it. */
    method Resume(nodes: seq<Node>, root: string, inProject: string -> bool, budget: nat)
      requires ValidTree(nodes) && OnTrack(nodes, root, inProject)
      modifies this
      ensures OnTrack(nodes, root, inProject)
      ensures hasMore ==> cursor == old(cursor) || Less(old(cursor), cursor)
      ensures budget > |Files(nodes, root)| ==>
                !hasMore && sessions == Select(Scan(nodes, root, "", BATCH_SIZE), inProject)
      ensures FoundIn(sessions, Scan(nodes, root, "", BATCH_SIZE), inProject, !hasMore)
    {
      var spent := 0;
      ghost var start := if hasMore then |Visit(nodes, root, cursor)| else 0;
      VisitShorter(nodes, root, cursor);
      while hasMore && spent < budget
        invariant spent <= budget && OnTrack(nodes, root, inProject)
        invariant hasMore ==> cursor == old(cursor) || Less(old(cursor), cursor)
        invariant hasMore ==> |Visit(nodes, root, cursor)| + spent <= start <= |Files(nodes, root)|
      {
        ghost var v := Visit(nodes, root, cursor);
        ghost var before, from := sessions, cursor;
        VisitedFiles(nodes, root, cursor);
        var candidates, nextCursor, nextHasMore := ListBatch(nodes, root, cursor, inProject);
        sessions := sessions + candidates;
        cursor := nextCursor;
        hasMore := nextHasMore;
        if nextHasMore {
          BatchThenRest(nodes, root, from, inProject, before);
          assert v[BATCH_SIZE - 1] in v;
          if from != old(cursor) { LessTransitive(old(cursor), from, cursor); }
        } else {
          ConcatNil(sessions);
        }
        spent := spent + 1;
      }
      if !hasMore { ConcatNil(sessions); }
      FoundSoFar(sessions, if hasMore then Select(Scan(nodes, root, cursor, BATCH_SIZE), inProject) else [],
                 Scan(nodes, root, "", BATCH_SIZE), inProject, !hasMore);
    }
  }

  lemma VisitShorter(nodes: seq<Node>, root: string, cursor: string)
    requires ValidTree(nodes) && GoodCursor(nodes, root, cursor)
    ensures |Visit(nodes, root, cursor)| <= |Files(nodes, root)|
  {
    if cursor == "" {
      VisitedFiles(nodes, root, cursor);
    } else {
      ResumedWalkIsFilter(nodes, root, cursor);
      GreaterLength(TailAfter(Files(nodes, root), cursor), cursor);
      TailAfterLength(Files(nodes, root), cursor);
    }
  }

  lemma {:induction false} TailAfterLength(files: seq<string>, x: string)
    ensures |TailAfter(files, x)| <= |files|
  {
    if files != [] { TailAfterLength(files[1..], x); }
  }

  // A full batch and the scan from its cursor are the scan from where the batch started.
  lemma BatchThenRest(nodes: seq<Node>, root: string, cursor: string, inProject: string -> bool, before: seq<string>)
    requires ValidTree(nodes) && GoodCursor(nodes, root, cursor) && |Visit(nodes, root, cursor)| >= BATCH_SIZE
    ensures var v := Visit(nodes, root, cursor);
            var next := v[BATCH_SIZE - 1];
            && GoodCursor(nodes, root, next)
            && |Visit(nodes, root, next)| < |v|
            && before + Select(Take(v, BATCH_SIZE), inProject) + Select(Scan(nodes, root, next, BATCH_SIZE), inProject)
               == before + Select(Scan(nodes, root, cursor, BATCH_SIZE), inProject)
  {
    var v := Visit(nodes, root, cursor);
    VisitResumed(nodes, root, cursor, BATCH_SIZE - 1);
    GreaterLength(v[BATCH_SIZE..], v[BATCH_SIZE - 1]);
    var batch, rest := v[..BATCH_SIZE], Scan(nodes, root, v[BATCH_SIZE - 1], BATCH_SIZE);
    assert Take(v, BATCH_SIZE) == batch;
    SelectConcat(batch, rest, inProject);
    ConcatAssoc(before, Select(batch, inProject), Select(rest, inProject));
  }
}
