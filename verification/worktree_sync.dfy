/** Bringing the stored worktrees of a project in line with those git reports. */
module WorktreeSync {
  import opened Wrappers
  import opened Text

  datatype Info = Info(path: string, branch: string, head: string, isMain: bool, isBare: bool)

  datatype Row = Row(id: string, project: string, branch: string, path: string, head: Option<string>,
                     isMain: bool, isBare: bool, deleted: bool)

  /** Rows by id, and worktrees by path. */
  type Table = map<string, Row>

  type Reported = map<string, Info>

  /** filepath.Clean, and the form in which paths are compared: the cleaned path, on Windows in lower case. */
  datatype Paths = Paths(clean: string -> string, norm: string -> string)

  ghost predicate SoundPaths(paths: Paths) {
    forall p :: paths.norm(paths.clean(p)) == paths.norm(p)
  }

  predicate Live(row: Row, project: string) {
    !row.deleted && row.project == project
  }

  ghost predicate Keyed(rows: Table) {
    forall id <- rows :: rows[id].id == id
  }

  /** No two live rows of the project have the same path. */
  ghost predicate DistinctPaths(rows: Table, project: string, paths: Paths) {
    forall a, b ::
      a in rows && b in rows && SamePlace(rows[a], rows[b], project, paths) ==> a == b
  }

  predicate SamePlace(a: Row, b: Row, project: string, paths: Paths) {
    Live(a, project) && Live(b, project) && paths.norm(a.path) == paths.norm(b.path)
  }

  // Where two worktrees have the same path the later one counts.
  function GitByPath(infos: seq<Info>, paths: Paths): Reported {
    if infos == [] then map[] else
    var last := infos[|infos| - 1];
    GitByPath(infos[..|infos| - 1], paths)[paths.norm(last.path) := last]
  }

  function Head(info: Info): Option<string> {
    if info.head == "" then None else Some(info.head)
  }

  /** A row brought up to date; a branch name git does not know is kept. */
  function Wanted(row: Row, info: Info): Row {
    row.(branch := if Trim(info.branch) == "" then row.branch else Trim(info.branch),
         head := Head(info), isMain := info.isMain, isBare := info.isBare)
  }

  function NewRow(id: string, project: string, info: Info, paths: Paths): Row {
    Row(id, project, info.branch, paths.clean(info.path), Head(info), info.isMain, info.isBare, false)
  }

  /** What becomes of a row that is there before. */
  function After(row: Row, project: string, git: Reported, paths: Paths): Row {
    if !Live(row, project) then row
    else if paths.norm(row.path) in git then Wanted(row, git[paths.norm(row.path)])
    else row.(deleted := true)
  }

  ghost predicate HasPath(rows: Table, project: string, paths: Paths, p: string) {
    exists id :: id in rows && Live(rows[id], project) && paths.norm(rows[id].path) == p
  }

  ghost predicate IsNew(row: Row, id: string, was: Table, project: string, git: Reported, paths: Paths) {
    exists p :: p in git && !HasPath(was, project, paths, p) && row == NewRow(id, project, git[p], paths)
  }

  /** The result of a sync, row by row. */
  ghost predicate Synced(rows: Table, was: Table, project: string, git: Reported, paths: Paths) {
    && (forall id <- was :: id in rows && rows[id] == After(was[id], project, git, paths))
    && (forall id <- rows :: id in was || IsNew(rows[id], id, was, project, git, paths))
    && (forall p <- git :: HasPath(rows, project, paths, p))
    && DistinctPaths(rows, project, paths)
  }

  datatype Changes = Changes(updates: seq<Row>, creates: seq<Row>, deletes: seq<string>)

  const NO_CHANGES := Changes([], [], [])

  // --------------------------------------------------------------- the diff

  ghost predicate IsIndexed(db: Table, rows: Table, project: string, paths: Paths, p: string)
    requires p in db
  {
    db[p].id in rows && rows[db[p].id] == db[p] && Live(db[p], project) && paths.norm(db[p].path) == p
  }

  ghost predicate IsIndex(db: Table, rows: Table, project: string, paths: Paths) {
    && (forall p <- db :: IsIndexed(db, rows, project, paths, p))
    && forall p :: HasPath(rows, project, paths, p) ==> p in db
  }

  ghost predicate IsUpdate(u: Row, rows: Table, project: string, git: Reported, paths: Paths) {
    && u.id in rows && Live(rows[u.id], project) && paths.norm(rows[u.id].path) in git
    && u == After(rows[u.id], project, git, paths)
  }

  ghost predicate IsDelete(id: string, rows: Table, project: string, git: Reported, paths: Paths) {
    id in rows && Live(rows[id], project) && paths.norm(rows[id].path) !in git
  }

  /** The changes are those of a sync: every live row that must change, and a new row for every path without one. */
  ghost predicate IsDiff(c: Changes, rows: Table, project: string, git: Reported, paths: Paths) {
    && (forall u <- c.updates :: IsUpdate(u, rows, project, git, paths) && u != rows[u.id])
    && (forall id <- c.deletes :: IsDelete(id, rows, project, git, paths))
    && (forall id <- rows :: Handled(c, rows[id], project, git, paths))
    && CreatesFor(c.creates, rows, project, git, paths, Missing(rows, project, git, paths))
  }

  ghost predicate Handled(c: Changes, row: Row, project: string, git: Reported, paths: Paths) {
    Live(row, project) ==>
      if paths.norm(row.path) in git
      then After(row, project, git, paths) in c.updates || After(row, project, git, paths) == row
      else row.id in c.deletes
  }

  // Exactly one new row for each of these paths, with ids that are not in use.
  ghost predicate CreatesFor(creates: seq<Row>, rows: Table, project: string, git: Reported, paths: Paths,
                             missing: set<string>) {
    && |creates| == |missing|
    && (forall r <- creates :: r.id !in rows && CreatedFrom(r, project, git, paths, missing))
    && (forall p <- missing :: RowFor(creates, paths, p))
    && OneEach(creates, paths)
  }

  ghost predicate OneEach(creates: seq<Row>, paths: Paths) {
    forall r, t :: r in creates && t in creates && SameKey(r, t, paths) ==> r == t
  }

  predicate SameKey(r: Row, t: Row, paths: Paths) {
    r.id == t.id || paths.norm(r.path) == paths.norm(t.path)
  }

  ghost function Missing(rows: Table, project: string, git: Reported, paths: Paths): set<string> {
    set p | p in git && !HasPath(rows, project, paths, p)
  }

  ghost predicate RowFor(creates: seq<Row>, paths: Paths, p: string) {
    exists r :: r in creates && paths.norm(r.path) == p
  }

  ghost predicate CreatedFrom(row: Row, project: string, git: Reported, paths: Paths, missing: set<string>) {
    var p := paths.norm(row.path);
    p in missing && p in git && row == NewRow(row.id, project, git[p], paths)
  }

  class Worktrees {
    const paths: Paths
    var rows: Table

    ghost predicate Valid(project: string)
      reads this
    {
      SoundPaths(paths) && Keyed(rows) && DistinctPaths(rows, project, paths)
    }

    method IndexGit(infos: seq<Info>) returns (git: Reported)
      ensures git == GitByPath(infos, paths)
    {
      git := map[];
      for i := 0 to |infos|
        invariant git == GitByPath(infos[..i], paths)
      {
        assert infos[..i + 1][..i] == infos[..i];
        git := git[paths.norm(infos[i].path) := infos[i]];
      }
      assert infos[..|infos|] == infos;
    }

    method IndexRows(project: string) returns (db: Table)
      requires Valid(project)
      ensures IsIndex(db, rows, project, paths)
    {
      db := map[];
      var ids := rows.Keys;
      while ids != {}
        invariant ids <= rows.Keys
        invariant forall p <- db :: IsIndexed(db, rows, project, paths, p)
        invariant forall id <- rows.Keys - ids :: Live(rows[id], project) ==> paths.norm(rows[id].path) in db
      {
        var id :| id in ids;
        ids := ids - {id};
        if Live(rows[id], project) {
          db := db[paths.norm(rows[id].path) := rows[id]];
        }
      }
    }
  
    // What changes at the paths git reports: rows to update, and new rows with ids that are not in use.
    method DiffGit(project: string, git: Reported, db: Table, newId: nat -> string)
      returns (updates: seq<Row>, creates: seq<Row>)
      requires Valid(project) && IsIndex(db, rows, project, paths) && IsGit(git, paths) && FreshIds(newId, rows)
      ensures UpdatesFor(updates, db, rows, project, git, paths, git.Keys * db.Keys)
      ensures CreatesFor(creates, rows, project, git, paths, git.Keys - db.Keys)
    {
      updates, creates := [], [];
      var todo := git.Keys;
      ghost var known: set<string>, missing: set<string> := {}, {};
      while todo != {}
        invariant Parted(git.Keys, db.Keys, todo, known, missing)
        invariant UpdatesFor(updates, db, rows, project, git, paths, known)
        invariant CreatesFor(creates, rows, project, git, paths, missing)
        invariant Numbered(creates, newId)
        decreases todo
      {
        var p :| p in todo;
        PartOne(git.Keys, db.Keys, todo, known, missing, p);
        todo := todo - {p};
        if p in db {
          var updates' := DiffOne(updates, db[p], git[p]);
          UpdatesOneMore(updates, updates', db, rows, project, git, paths, known, p);
          known, updates := known + {p}, updates';
        } else {
          var row := NewRow(newId(|creates|), project, git[p], paths);
          CreatesOneMore(creates, row, rows, project, git, paths, missing, p, newId);
          missing, creates := missing + {p}, creates + [row];
        }
      }
      AllParted(git.Keys, db.Keys, known, missing);
    }

    method DiffOne(updates: seq<Row>, existing: Row, info: Info) returns (updates': seq<Row>)
      ensures updates' == if Wanted(existing, info) == existing then updates else updates + [Wanted(existing, info)]
    {
      var branchName := Trim(info.branch);
      if branchName == "" {
        branchName := existing.branch;
      }
      if existing.branch == branchName && existing.head == Head(info)
        && existing.isMain == info.isMain && existing.isBare == info.isBare
      {
        return updates;
      }
      var wanted :=
        existing.(branch := branchName, head := Head(info), isMain := info.isMain, isBare := info.isBare);
      updates' := updates + [wanted];
    }

    method DiffGone(project: string, git: Reported, db: Table) returns (deletes: seq<string>)
      requires Valid(project) && IsIndex(db, rows, project, paths)
      ensures forall id <- deletes :: IsDelete(id, rows, project, git, paths)
      ensures forall p <- db :: p !in git ==> db[p].id in deletes
    {
      deletes := [];
      var todo := db.Keys;
      while todo != {}
        invariant todo <= db.Keys
        invariant forall id <- deletes :: IsDelete(id, rows, project, git, paths)
        invariant forall p <- db.Keys - todo :: p !in git ==> db[p].id in deletes
      {
        var p :| p in todo;
        todo := todo - {p};
        if p !in git {
          deletes := deletes + [db[p].id];
        }
      }
    }

    /** The three kinds of statements of the transaction, in their order. */
    method Apply(project: string, ghost git: Reported, c: Changes)
      requires Valid(project) && IsDiff(c, rows, project, git, paths) && IsGit(git, paths)
      modifies this`rows
      ensures Keyed(rows) && Synced(rows, old(rows), project, git, paths)
    {
      ghost var was := rows;
      var updated := ApplyUpdates(project, git, c, rows);
      var created := ApplyCreates(c.creates, updated);
      CreatesKeep(was, updated, created, c.creates, project, git, paths, UpdateIds(c.updates));
      rows := ApplyDeletes(project, git, c, created, was);
      SettledIsSynced(rows, was, c, project, git, paths);
    }

    method ApplyUpdates(project: string, ghost git: Reported, c: Changes, was: Table)
      returns (tx: Table)
      requires forall u <- c.updates :: IsUpdate(u, was, project, git, paths)
      ensures Changed(tx, was, project, git, paths, UpdateIds(c.updates)) && tx.Keys == was.Keys
    {
      tx := was;
      for i := 0 to |c.updates|
        invariant Changed(tx, was, project, git, paths, UpdateIds(c.updates[..i])) && tx.Keys == was.Keys
      {
        var u := c.updates[i];
        assert u in c.updates && IsUpdate(u, was, project, git, paths);
        assert c.updates[..i + 1][..i] == c.updates[..i];
        tx := tx[u.id := tx[u.id].(branch := u.branch, head := u.head, isMain := u.isMain, isBare := u.isBare)];
      }
      assert c.updates[..|c.updates|] == c.updates;
    }

    method ApplyCreates(creates: seq<Row>, was: Table) returns (tx: Table)
      requires forall r <- creates :: r.id !in was
      requires OneEach(creates, paths)
      ensures forall id <- was :: id in tx && tx[id] == was[id]
      ensures forall id <- tx :: id in was || (tx[id] in creates && tx[id].id == id)
      ensures forall r <- creates :: r.id in tx && tx[r.id] == r
    {
      tx := was;
      for i := 0 to |creates|
        invariant forall id <- was :: id in tx && tx[id] == was[id]
        invariant forall id <- tx :: id in was || (tx[id] in creates && tx[id].id == id)
        invariant forall j :: 0 <= j < i ==> creates[j].id in tx && tx[creates[j].id] == creates[j]
      {
        assert creates[i] in creates && forall j :: 0 <= j < i ==> creates[j] in creates;
        assert forall j :: 0 <= j < i && creates[j].id == creates[i].id ==> SameKey(creates[j], creates[i], paths);
        tx := tx[creates[i].id := creates[i]];
      }
    }

    method ApplyDeletes(project: string, ghost git: Reported, c: Changes, from: Table, ghost was: Table)
      returns (tx: Table)
      requires forall id <- c.deletes :: IsDelete(id, was, project, git, paths)
      requires Changed(from, was, project, git, paths, UpdateIds(c.updates))
      ensures Changed(tx, was, project, git, paths, UpdateIds(c.updates) + Elements(c.deletes))
      ensures tx.Keys == from.Keys && forall id <- from :: id in was || tx[id] == from[id]
    {
      tx := from;
      for i := 0 to |c.deletes|
        invariant Changed(tx, was, project, git, paths, UpdateIds(c.updates) + Elements(c.deletes[..i]))
        invariant tx.Keys == from.Keys && forall id <- from :: id in was || tx[id] == from[id]
      {
        var id := c.deletes[i];
        assert id in c.deletes && IsDelete(id, was, project, git, paths);
        DeleteOne(tx, was, project, git, paths, UpdateIds(c.updates) + Elements(c.deletes[..i]), id);
        assert c.deletes[..i + 1] == c.deletes[..i] + [id];
        assert UpdateIds(c.updates) + Elements(c.deletes[..i + 1])
            == UpdateIds(c.updates) + Elements(c.deletes[..i]) + {id};
        tx := tx[id := tx[id].(deleted := true)];
      }
      assert c.deletes[..|c.deletes|] == c.deletes;
    }

    /** A sync: the changes are computed and, if there are any, applied as one transaction, which may fail. */
    method SyncWorktrees(project: string, infos: seq<Info>, newId: nat -> string, commits: bool)
      returns (ok: bool, c: Changes)
      requires Valid(project) && FreshIds(newId, rows)
      modifies this`rows
      ensures Valid(project)
      ensures ok ==> Synced(rows, old(rows), project, GitByPath(infos, paths), paths)
      ensures !ok ==> rows == old(rows)
      ensures ok <==> commits || c == NO_CHANGES
      ensures IsDiff(c, old(rows), project, GitByPath(infos, paths), paths)
    {
      var git := IndexGit(infos);
      GitByPathIsGit(infos, paths);
      var db := IndexRows(project);
      var updates, creates := DiffGit(project, git, db, newId);
      var deletes := DiffGone(project, git, db);
      c := Changes(updates, creates, deletes);
      DiffIsComplete(c, db, rows, project, git, paths);
      if !commits && c != NO_CHANGES {
        return false, c;
      }
      Apply(project, git, c);
      ok := true;
    }
  }

  ghost predicate FreshIds(newId: nat -> string, rows: Table) {
    && (forall k :: newId(k) !in rows)
    && forall j, k :: newId(j) == newId(k) ==> j == k
  }

  ghost predicate IsGit(git: Reported, paths: Paths) {
    forall p <- git :: paths.norm(git[p].path) == p
  }

  ghost predicate Up(updates: seq<Row>, row: Row, project: string, git: Reported, paths: Paths) {
    paths.norm(row.path) in git ==> After(row, project, git, paths) in updates || After(row, project, git, paths) == row
  }

  lemma {:induction false} GitByPathIsGit(infos: seq<Info>, paths: Paths)
    ensures IsGit(GitByPath(infos, paths), paths)
  {
    if infos != [] { GitByPathIsGit(infos[..|infos| - 1], paths); }
  }

  ghost predicate Parted(all: set<string>, db: set<string>, todo: set<string>, known: set<string>,
                         missing: set<string>) {
    all == todo + known + missing && known <= db && missing !! db && todo !! missing
  }

  lemma PartOne(all: set<string>, db: set<string>, todo: set<string>, known: set<string>, missing: set<string>,
                p: string)
    requires Parted(all, db, todo, known, missing) && p in todo
    ensures p in db ==> Parted(all, db, todo - {p}, known + {p}, missing)
    ensures p !in db ==> Parted(all, db, todo - {p}, known, missing + {p})
  {
  }

  lemma AllParted(all: set<string>, db: set<string>, known: set<string>, missing: set<string>)
    requires Parted(all, db, {}, known, missing)
    ensures known == all * db && missing == all - db
  {
  }

  // The updates that the rows at these paths need.
  ghost predicate UpdatesFor(updates: seq<Row>, db: Table, rows: Table, project: string,
                             git: Reported, paths: Paths, done: set<string>)
  {
    && (forall u <- updates :: IsUpdate(u, rows, project, git, paths) && u != rows[u.id])
    && forall p <- done :: p in db && Up(updates, db[p], project, git, paths)
  }

  lemma UpdatesOneMore(updates: seq<Row>, updates': seq<Row>, db: Table, rows: Table, project: string,
                       git: Reported, paths: Paths, done: set<string>, p: string)
    requires IsIndex(db, rows, project, paths) && p in db && p in git
    requires UpdatesFor(updates, db, rows, project, git, paths, done)
    requires updates' == if Wanted(db[p], git[p]) == db[p] then updates else updates + [Wanted(db[p], git[p])]
    ensures UpdatesFor(updates', db, rows, project, git, paths, done + {p})
  {
    var wanted := Wanted(db[p], git[p]);
    assert wanted == After(db[p], project, git, paths);
    assert wanted != db[p] ==> wanted in updates';
  }

  lemma CreatesOneMore(creates: seq<Row>, row: Row, rows: Table, project: string, git: Reported,
                       paths: Paths, done: set<string>, p: string, newId: nat -> string)
    requires CreatesFor(creates, rows, project, git, paths, done) && SoundPaths(paths) && IsGit(git, paths)
    requires FreshIds(newId, rows) && Numbered(creates, newId)
    requires p in git && p !in done && row == NewRow(newId(|creates|), project, git[p], paths)
    ensures CreatesFor(creates + [row], rows, project, git, paths, done + {p}) && Numbered(creates + [row], newId)
  {
    assert paths.norm(row.path) == p;
    RowsForMore(creates, row, paths, done, p);
    NotYetNumbered(creates, newId, rows);
    forall r | r in creates ensures !SameKey(r, row, paths) {
      assert CreatedFrom(r, project, git, paths, done);
    }
    OneEachMore(creates, row, paths);
  }

  lemma RowsForMore(creates: seq<Row>, row: Row, paths: Paths, done: set<string>, p: string)
    requires (forall q <- done :: RowFor(creates, paths, q)) && paths.norm(row.path) == p
    ensures forall q <- done + {p} :: RowFor(creates + [row], paths, q)
  {
    forall q | q in done + {p} ensures RowFor(creates + [row], paths, q) {
      if q == p { assert row in creates + [row]; } else { RowForMore(creates, row, paths, q); }
    }
  }

  lemma NotYetNumbered(creates: seq<Row>, newId: nat -> string, rows: Table)
    requires FreshIds(newId, rows) && Numbered(creates, newId)
    ensures forall r <- creates :: r.id != newId(|creates|)
  {
    forall r | r in creates ensures r.id != newId(|creates|) {
      var i :| 0 <= i < |creates| && creates[i] == r;
    }
  }

  lemma OneEachMore(creates: seq<Row>, row: Row, paths: Paths)
    requires OneEach(creates, paths) && forall r <- creates :: !SameKey(r, row, paths)
    ensures OneEach(creates + [row], paths)
  {
    forall r, t | r in creates + [row] && t in creates + [row] && SameKey(r, t, paths) ensures r == t {
      assert SameKey(t, r, paths);
    }
  }

  lemma RowForMore(creates: seq<Row>, row: Row, paths: Paths, p: string)
    requires RowFor(creates, paths, p)
    ensures RowFor(creates + [row], paths, p)
  {
    var r :| r in creates && paths.norm(r.path) == p;
    assert r in creates + [row];
  }

  ghost predicate Numbered(creates: seq<Row>, newId: nat -> string) {
    forall i :: 0 <= i < |creates| ==> creates[i].id == newId(i)
  }

  lemma DiffIsComplete(c: Changes, db: Table, rows: Table, project: string, git: Reported, paths: Paths)
    requires IsIndex(db, rows, project, paths) && Keyed(rows) && DistinctPaths(rows, project, paths)
    requires UpdatesFor(c.updates, db, rows, project, git, paths, git.Keys * db.Keys)
    requires CreatesFor(c.creates, rows, project, git, paths, git.Keys - db.Keys)
    requires forall id <- c.deletes :: IsDelete(id, rows, project, git, paths)
    requires forall p <- db :: p !in git ==> db[p].id in c.deletes
    ensures IsDiff(c, rows, project, git, paths)
  {
    forall id | id in rows && Live(rows[id], project) ensures Handled(c, rows[id], project, git, paths) {
      IndexFinds(db, rows, project, paths, id);
      var p := paths.norm(rows[id].path);
      assert p in git ==> Up(c.updates, db[p], project, git, paths);
    }
    IndexMissing(db, rows, project, git, paths);
  }

  lemma IndexFinds(db: Table, rows: Table, project: string, paths: Paths, id: string)
    requires IsIndex(db, rows, project, paths) && DistinctPaths(rows, project, paths)
    requires id in rows && Live(rows[id], project)
    ensures paths.norm(rows[id].path) in db && db[paths.norm(rows[id].path)] == rows[id]
  {
    var p := paths.norm(rows[id].path);
    PathOf(rows, id, project, paths);
    assert SamePlace(rows[id], rows[db[p].id], project, paths);
  }

  lemma IndexMissing(db: Table, rows: Table, project: string, git: Reported, paths: Paths)
    requires IsIndex(db, rows, project, paths)
    ensures git.Keys - db.Keys == Missing(rows, project, git, paths)
  {
    forall p | p in db ensures HasPath(rows, project, paths, p) { PathOf(rows, db[p].id, project, paths); }
  }

  function UpdateIds(updates: seq<Row>): set<string> {
    if updates == [] then {} else UpdateIds(updates[..|updates| - 1]) + {updates[|updates| - 1].id}
  }

  function Elements(ids: seq<string>): (elements: set<string>)
    ensures forall id :: id in elements <==> id in ids
  {
    if ids == [] then {} else Elements(ids[..|ids| - 1]) + {ids[|ids| - 1]}
  }

  lemma {:induction false} UpdateIdIn(updates: seq<Row>, u: Row)
    requires u in updates
    ensures u.id in UpdateIds(updates)
  {
    if u != updates[|updates| - 1] { UpdateIdIn(updates[..|updates| - 1], u); }
  }

  // The rows there were before, with these of them changed.
  ghost predicate Changed(rows: Table, was: Table, project: string, git: Reported, paths: Paths,
                          done: set<string>) {
    forall id <- was :: id in rows && rows[id] == if id in done then After(was[id], project, git, paths) else was[id]
  }

  lemma ChangeOne(rows: Table, was: Table, project: string, git: Reported, paths: Paths,
                  done: set<string>, id: string)
    requires Changed(rows, was, project, git, paths, done) && id in was
    ensures id in rows && rows[id] in {was[id], After(was[id], project, git, paths)}
    ensures Changed(rows[id := After(was[id], project, git, paths)], was, project, git, paths, done + {id})
  {
  }

  lemma DeleteOne(rows: Table, was: Table, project: string, git: Reported, paths: Paths, done: set<string>, id: string)
    requires Changed(rows, was, project, git, paths, done) && IsDelete(id, was, project, git, paths)
    ensures id in rows
    ensures Changed(rows[id := rows[id].(deleted := true)], was, project, git, paths, done + {id})
  {
    ChangeOne(rows, was, project, git, paths, done, id);
    assert rows[id].(deleted := true) == After(was[id], project, git, paths);
  }

  lemma CreatesKeep(was: Table, updated: Table, created: Table, creates: seq<Row>,
                    project: string, git: Reported, paths: Paths, done: set<string>)
    requires Changed(updated, was, project, git, paths, done)
    requires forall id <- updated :: id in created && created[id] == updated[id]
    ensures Changed(created, was, project, git, paths, done)
  {
  }

  // Every row not among the changed ones is as a sync leaves it already.
  lemma ChangedIsAfter(rows: Table, was: Table, c: Changes, project: string, git: Reported, paths: Paths)
    requires Changed(rows, was, project, git, paths, UpdateIds(c.updates) + Elements(c.deletes))
    requires IsDiff(c, was, project, git, paths) && Keyed(was)
    ensures forall id <- was :: id in rows && rows[id] == After(was[id], project, git, paths)
  {
    forall id | id in was ensures id in rows && rows[id] == After(was[id], project, git, paths) {
      assert Handled(c, was[id], project, git, paths);
      var after := After(was[id], project, git, paths);
      if after in c.updates { UpdateIdIn(c.updates, after); }
    }
  }

  ghost predicate Extended(rows: Table, was: Table, creates: seq<Row>) {
    && (forall id <- rows :: id in was || (rows[id] in creates && rows[id].id == id))
    && forall r <- creates :: r.id in rows && rows[r.id] == r
  }

  lemma SettledIsSynced(rows: Table, was: Table, c: Changes, project: string, git: Reported, paths: Paths)
    requires Changed(rows, was, project, git, paths, UpdateIds(c.updates) + Elements(c.deletes))
    requires Extended(rows, was, c.creates)
    requires IsDiff(c, was, project, git, paths) && Keyed(was) && DistinctPaths(was, project, paths)
    ensures Keyed(rows) && Synced(rows, was, project, git, paths)
  {
    ChangedIsAfter(rows, was, c, project, git, paths);
    forall p | p in git ensures HasPath(rows, project, paths, p) {
      EveryPathHasARow(rows, was, c.creates, project, git, paths, p);
    }
    forall id | id in rows && id !in was ensures IsNew(rows[id], id, was, project, git, paths) {
      CreatedIsNew(rows[id], c.creates, was, project, git, paths);
    }
    forall a, b | a in rows && b in rows && SamePlace(rows[a], rows[b], project, paths) ensures a == b {
      NewApart(rows, was, c.creates, project, git, paths, a, b);
    }
  }

  lemma CreatedIsNew(row: Row, creates: seq<Row>, was: Table, project: string, git: Reported, paths: Paths)
    requires CreatesFor(creates, was, project, git, paths, Missing(was, project, git, paths)) && row in creates
    ensures IsNew(row, row.id, was, project, git, paths)
  {
    assert CreatedFrom(row, project, git, paths, Missing(was, project, git, paths));
  }

  lemma EveryPathHasARow(rows: Table, was: Table, creates: seq<Row>, project: string, git: Reported,
                         paths: Paths, p: string)
    requires Extended(rows, was, creates) && p in git
    requires CreatesFor(creates, was, project, git, paths, Missing(was, project, git, paths))
    requires forall id <- was :: id in rows && rows[id] == After(was[id], project, git, paths)
    ensures HasPath(rows, project, paths, p)
  {
    if HasPath(was, project, paths, p) {
      var id :| id in was && Live(was[id], project) && paths.norm(was[id].path) == p;
      PathOf(rows, id, project, paths);
    } else {
      assert RowFor(creates, paths, p);
      var r :| r in creates && paths.norm(r.path) == p;
      PathOf(rows, r.id, project, paths);
    }
  }

  // A row that was there and a new one, or two new ones, are never at the same place.
  lemma NewApart(rows: Table, was: Table, creates: seq<Row>, project: string, git: Reported,
                 paths: Paths, a: string, b: string)
    requires Extended(rows, was, creates) && DistinctPaths(was, project, paths)
    requires CreatesFor(creates, was, project, git, paths, Missing(was, project, git, paths))
    requires forall id <- was :: id in rows && rows[id] == After(was[id], project, git, paths)
    requires a in rows && b in rows && SamePlace(rows[a], rows[b], project, paths)
    ensures a == b
  {
    if a in was && b in was {
      assert SamePlace(was[a], was[b], project, paths);
    } else if a in was {
      PathOf(was, a, project, paths);
    } else if b in was {
      PathOf(was, b, project, paths);
    } else {
      assert SameKey(rows[a], rows[b], paths);
    }
  }

  lemma PathOf(rows: Table, id: string, project: string, paths: Paths)
    requires id in rows && Live(rows[id], project)
    ensures HasPath(rows, project, paths, paths.norm(rows[id].path))
  {
  }

  // --------------------------------------------------------- what a sync gives

  /** What a live row says about the worktree at its path. */
  predicate Shows(row: Row, info: Info) {
    && row.head == Head(info) && row.isMain == info.isMain && row.isBare == info.isBare
    && (Trim(info.branch) != "" ==> row.branch == Trim(info.branch) || row.branch == info.branch)
  }

  lemma SyncedRow(rows: Table, was: Table, project: string, git: Reported, paths: Paths, id: string)
    requires Synced(rows, was, project, git, paths) && SoundPaths(paths) && IsGit(git, paths)
    requires id in rows && Live(rows[id], project)
    ensures var p := paths.norm(rows[id].path);
      && p in git && Shows(rows[id], git[p])
      && (if id in was then Live(was[id], project) && rows[id] == Wanted(was[id], git[p])
          else !HasPath(was, project, paths, p) && rows[id] == NewRow(id, project, git[p], paths))
  {
    if id !in was {
      assert IsNew(rows[id], id, was, project, git, paths);
      var p :| p in git && !HasPath(was, project, paths, p) && rows[id] == NewRow(id, project, git[p], paths);
      assert paths.norm(rows[id].path) == p;
    }
  }

  /** After a sync the live rows of the project are those of git, path for path, and a row that stays keeps its id,
      path and, where git knows no branch, its branch. */
  lemma LiveRowsMatchGit(rows: Table, was: Table, project: string, git: Reported, paths: Paths, p: string)
    requires Synced(rows, was, project, git, paths) && SoundPaths(paths) && IsGit(git, paths)
    ensures HasPath(rows, project, paths, p) <==> p in git
    ensures forall id :: id in rows && Live(rows[id], project) && paths.norm(rows[id].path) == p ==>
      && p in git && Shows(rows[id], git[p])
      && (HasPath(was, project, paths, p) ==> id in was && rows[id] == Wanted(was[id], git[p]))
  {
    forall id | id in rows && Live(rows[id], project) && paths.norm(rows[id].path) == p
      ensures p in git && Shows(rows[id], git[p])
      ensures HasPath(was, project, paths, p) ==> id in was && rows[id] == Wanted(was[id], git[p])
    {
      SyncedRow(rows, was, project, git, paths, id);
    }
  }

  /** What a sync makes of the rows that were there: those of other projects and deleted ones stay, those whose path git
      no longer has are deleted, and the others take over what git says, but keep their branch where that is blank. */
  lemma OldRowsBecome(rows: Table, was: Table, project: string, git: Reported, paths: Paths, id: string)
    requires Synced(rows, was, project, git, paths) && id in was
    ensures id in rows
    ensures was[id].deleted || was[id].project != project ==> rows[id] == was[id]
    ensures !was[id].deleted && was[id].project == project ==>
      var p := paths.norm(was[id].path);
      && (p !in git ==> rows[id] == was[id].(deleted := true))
      && (p in git ==>
            && !rows[id].deleted && rows[id].id == was[id].id && rows[id].path == was[id].path
            && rows[id].project == project
            && rows[id].branch == (if Trim(git[p].branch) == "" then was[id].branch else Trim(git[p].branch))
            && rows[id].head == (if git[p].head == "" then None else Some(git[p].head))
            && rows[id].isMain == git[p].isMain && rows[id].isBare == git[p].isBare)
  {
  }

  ghost predicate MadeFrom(row: Row, info: Info, project: string, paths: Paths) {
    && !row.deleted && row.project == project && row.path == paths.clean(info.path) && row.branch == info.branch
    && row.head == (if info.head == "" then None else Some(info.head))
    && row.isMain == info.isMain && row.isBare == info.isBare
  }

  /** A row that was not there is made from a worktree at a path without a live row. */
  lemma NewRowsAre(rows: Table, was: Table, project: string, git: Reported, paths: Paths, id: string)
    requires Synced(rows, was, project, git, paths) && id in rows && id !in was
    ensures exists p :: p in git && !HasPath(was, project, paths, p) && MadeFrom(rows[id], git[p], project, paths)
  {
    assert IsNew(rows[id], id, was, project, git, paths);
  }

  /** Of the worktrees reported for a path the last one counts. */
  lemma {:induction false} LastReportedCounts(infos: seq<Info>, paths: Paths, k: nat)
    requires k < |infos|
    requires forall j :: k < j < |infos| ==> paths.norm(infos[j].path) != paths.norm(infos[k].path)
    ensures paths.norm(infos[k].path) in GitByPath(infos, paths)
    ensures GitByPath(infos, paths)[paths.norm(infos[k].path)] == infos[k]
  {
    var init := infos[..|infos| - 1];
    if k < |init| {
      forall j | k < j < |init| ensures paths.norm(init[j].path) != paths.norm(init[k].path) {
        assert init[j] == infos[j];
      }
      LastReportedCounts(init, paths, k);
      assert paths.norm(infos[|infos| - 1].path) != paths.norm(infos[k].path);
    }
  }

  lemma {:induction false} OnlyReportedPaths(infos: seq<Info>, paths: Paths, p: string)
    ensures p in GitByPath(infos, paths) <==> exists k :: 0 <= k < |infos| && paths.norm(infos[k].path) == p
  {
    if infos != [] {
      var init := infos[..|infos| - 1];
      OnlyReportedPaths(init, paths, p);
      if k :| 0 <= k < |infos| && paths.norm(infos[k].path) == p {
        assert k < |init| ==> paths.norm(init[k].path) == p;
      }
    }
  }

  // A path with a new row whose branch name git gave with blanks around it.
  predicate Untrimmed(branch: string) {
    Trim(branch) != "" && Trim(branch) != branch
  }

  lemma SettledRow(rows: Table, was: Table, project: string, git: Reported, paths: Paths, id: string)
    requires Synced(rows, was, project, git, paths) && SoundPaths(paths) && IsGit(git, paths)
    requires id in rows && Live(rows[id], project)
    ensures var p := paths.norm(rows[id].path);
      && p in git
      && (After(rows[id], project, git, paths) != rows[id]
          <==> !HasPath(was, project, paths, p) && Untrimmed(git[p].branch))
  {
    SyncedRow(rows, was, project, git, paths, id);
    if id in was { PathOf(was, id, project, paths); }
  }

  lemma SecondDiff(rows: Table, was: Table, project: string, git: Reported, paths: Paths, c: Changes)
    requires Synced(rows, was, project, git, paths) && SoundPaths(paths) && IsGit(git, paths)
    requires IsDiff(c, rows, project, git, paths)
    ensures c.creates == [] && c.deletes == []
  {
    assert Missing(rows, project, git, paths) == {};
    if c.deletes != [] {
      var id := c.deletes[0];
      assert id in c.deletes && IsDelete(id, rows, project, git, paths);
      SyncedRow(rows, was, project, git, paths, id);
    }
  }

  /** A second sync finds nothing to change exactly if every worktree that was new to the first had a branch name
      without surrounding blanks, or a blank one: new rows take the name as it is, old ones take it trimmed. */
  lemma SecondSyncIsQuietIff(rows: Table, was: Table, project: string, git: Reported, paths: Paths, c: Changes)
    requires Synced(rows, was, project, git, paths) && SoundPaths(paths) && IsGit(git, paths)
    requires IsDiff(c, rows, project, git, paths)
    requires Keyed(rows)
    ensures c == NO_CHANGES <==> forall p <- git :: !HasPath(was, project, paths, p) ==> !Untrimmed(git[p].branch)
  {
    SecondDiff(rows, was, project, git, paths, c);
    if c.updates != [] {
      var u := c.updates[0];
      assert u in c.updates && IsUpdate(u, rows, project, git, paths);
      SettledRow(rows, was, project, git, paths, u.id);
    }
    if p :| p in git && !HasPath(was, project, paths, p) && Untrimmed(git[p].branch) {
      assert HasPath(rows, project, paths, p);
      var id :| id in rows && Live(rows[id], project) && paths.norm(rows[id].path) == p;
      SettledRow(rows, was, project, git, paths, id);
      assert Handled(c, rows[id], project, git, paths);
    }
  }

  /** A worktree that git reports as on the branch " x" when the project has none: its new row is what one sync gives,
      and the next sync has an update. */
  lemma BlankBeforeBranchIsUpdated(id: string, project: string, path: string, paths: Paths, c: Changes)
    requires SoundPaths(paths)
    requires var info := Info(path, " x", "", true, false);
      IsDiff(c, map[id := NewRow(id, project, info, paths)], project, map[paths.norm(path) := info], paths)
    ensures var info := Info(path, " x", "", true, false);
      && map[paths.norm(path) := info] == GitByPath([info], paths)
      && Synced(map[id := NewRow(id, project, info, paths)], map[], project, GitByPath([info], paths), paths)
    ensures c != NO_CHANGES
  {
    var info := Info(path, " x", "", true, false);
    var git, row := map[paths.norm(path) := info], NewRow(id, project, info, paths);
    var rows := map[id := row];
    assert [info][..0] == [] && git == GitByPath([info], paths);
    assert paths.norm(row.path) == paths.norm(path);
    assert paths.norm(path) in git && !HasPath(map[], project, paths, paths.norm(path));
    assert IsNew(row, id, map[], project, git, paths);
    PathOf(rows, id, project, paths);
    assert Synced(rows, map[], project, git, paths);
    assert Trim(" x") == "x" by { TrimBlankX(); }
    SecondSyncIsQuietIff(rows, map[], project, git, paths, c);
  }

  lemma TrimBlankX()
    ensures Trim(" x") == "x"
  {
    assert " x"[1..] == "x" && TrimLeft("x") == "x";
  }

  /** A third sync never finds anything. */
  lemma ThirdSyncIsQuiet(rows: Table, between: Table, was: Table, project: string,
                         git: Reported, paths: Paths, c: Changes)
    requires Synced(between, was, project, git, paths) && Synced(rows, between, project, git, paths)
    requires SoundPaths(paths) && IsGit(git, paths) && IsDiff(c, rows, project, git, paths) && Keyed(rows)
    ensures c == NO_CHANGES
  {
    SecondSyncIsQuietIff(rows, between, project, git, paths, c);
  }
}
