/** The stored history of quick inputs: a table of rows behind an in-memory copy of the lists. */
module QuickInput {
  import opened Sequences
  import opened Text
  import opened RecentLists

  datatype Scope = Global | Project

  datatype Row = Row(id: nat, scope: Scope, project: string, prompt: string)

  /** What a deletion asks of a row. */
  datatype Where =
    | ThisPrompt(scope: Scope, project: string, prompt: string)
    | ThisList(scope: Scope, project: string)
    | TheseIds(ids: seq<nat>)
    | ProjectsOutside(projects: seq<string>)

  predicate Hit(w: Where, row: Row) {
    match w
    case ThisPrompt(scope, project, prompt) => InList(row, scope, project) && row.prompt == prompt
    case ThisList(scope, project) => InList(row, scope, project)
    case TheseIds(ids) => row.id in ids
    case ProjectsOutside(projects) => row.scope == Project && row.project !in projects
  }

  predicate InList(row: Row, scope: Scope, project: string) {
    row.scope == scope && row.project == project
  }

  /** The rows of a list, newest first. */
  function Selected(rows: seq<Row>, scope: Scope, project: string): seq<Row> {
    if rows == [] then [] else
    var last := rows[|rows| - 1];
    (if InList(last, scope, project) then [last] else []) + Selected(rows[..|rows| - 1], scope, project)
  }

  function Prompts(rows: seq<Row>): (prompts: seq<string>)
    ensures |prompts| == |rows|
  {
    if rows == [] then [] else [rows[0].prompt] + Prompts(rows[1..])
  }

  function Ids(rows: seq<Row>): (ids: seq<nat>)
    ensures |ids| == |rows| && forall k :: 0 <= k < |rows| ==> ids[k] == rows[k].id
  {
    if rows == [] then [] else [rows[0].id] + Ids(rows[1..])
  }

  /** The prompts of a list, newest first. */
  function Listed(rows: seq<Row>, scope: Scope, project: string): seq<string> {
    Prompts(Selected(rows, scope, project))
  }

  function Delete(rows: seq<Row>, w: Where): (left: seq<Row>)
    ensures forall r :: r in left <==> r in rows && !Hit(w, r)
  {
    if rows == [] then [] else
    var left, last := Delete(rows[..|rows| - 1], w), rows[|rows| - 1];
    if Hit(w, last) then left else left + [last]
  }

  // The same for rows newest first.
  function Survivors(rows: seq<Row>, w: Where): seq<Row> {
    if rows == [] then [] else (if Hit(w, rows[0]) then [] else [rows[0]]) + Survivors(rows[1..], w)
  }

  ghost predicate Ordered(rows: seq<Row>, nextId: nat) {
    && (forall i, j :: 0 <= i < j < |rows| ==> rows[i].id < rows[j].id)
    && forall i :: 0 <= i < |rows| ==> rows[i].id < nextId
  }

  predicate IsList(scope: Scope, project: string) {
    match scope
    case Global => project == ""
    case Project => project != "" && Trim(project) == project
  }

  ghost predicate Housed(rows: seq<Row>) {
    forall r <- rows :: IsList(r.scope, r.project)
  }

  ghost predicate Limited(rows: seq<Row>) {
    forall scope, project :: Normal(Listed(rows, scope, project), RECENT_LIMIT)
  }

  ghost predicate SameElsewhere(rows: seq<Row>, was: seq<Row>, scope: Scope, project: string) {
    forall s, p :: s != scope || p != project ==> Listed(rows, s, p) == Listed(was, s, p)
  }

  // ---------------------------------------------------------- about deletions

  lemma {:induction false} SurvivorsConcat(a: seq<Row>, b: seq<Row>, w: Where)
    ensures Survivors(a + b, w) == Survivors(a, w) + Survivors(b, w)
  {
    if a == [] {
      ConcatNil(b);
      ConcatNil(Survivors(b, w));
    } else {
      CutFirst(a, b, 1);
      SurvivorsConcat(a[1..], b, w);
      ConcatAssoc(if Hit(w, a[0]) then [] else [a[0]], Survivors(a[1..], w), Survivors(b, w));
    }
  }

  lemma SelectedSnoc(rows: seq<Row>, row: Row, scope: Scope, project: string)
    ensures Selected(rows + [row], scope, project)
         == (if InList(row, scope, project) then [row] else []) + Selected(rows, scope, project)
  {
    assert (rows + [row])[..|rows|] == rows;
  }

  lemma SurvivorsOne(row: Row, w: Where)
    ensures Survivors([row], w) == if Hit(w, row) then [] else [row]
  {
    assert [row][1..] == [];
  }

  // Deleting from the table deletes from each list.
  lemma {:induction false} SelectedDelete(rows: seq<Row>, w: Where, scope: Scope, project: string)
    ensures Selected(Delete(rows, w), scope, project) == Survivors(Selected(rows, scope, project), w)
  {
    if rows != [] {
      var init, last := rows[..|rows| - 1], rows[|rows| - 1];
      SelectedDelete(init, w, scope, project);
      SelectedSnoc(Delete(init, w), last, scope, project);
      ConcatNil(Selected(init, scope, project));
      ConcatNil(Survivors(Selected(init, scope, project), w));
      if InList(last, scope, project) {
        SurvivorsConcat([last], Selected(init, scope, project), w);
        SurvivorsOne(last, w);
      }
    }
  }

  lemma {:induction false} SelectedMembers(rows: seq<Row>, scope: Scope, project: string)
    ensures forall r :: r in Selected(rows, scope, project) <==> r in rows && InList(r, scope, project)
  {
    if rows != [] {
      SelectedMembers(rows[..|rows| - 1], scope, project);
      SplitAt(rows, |rows| - 1);
    }
  }

  lemma {:induction false} NoneHit(rows: seq<Row>, w: Where)
    requires forall r <- rows :: !Hit(w, r)
    ensures Survivors(rows, w) == rows
  {
    if rows != [] {
      HeadAndTail(rows);
      assert rows[0] in rows && forall r <- rows[1..] :: r in rows;
      NoneHit(rows[1..], w);
    }
  }

  lemma {:induction false} AllHit(rows: seq<Row>, w: Where)
    requires forall r <- rows :: Hit(w, r)
    ensures Survivors(rows, w) == []
  {
    if rows != [] {
      assert rows[0] in rows && forall r <- rows[1..] :: r in rows;
      AllHit(rows[1..], w);
    }
  }

  lemma {:induction false} PromptHit(rows: seq<Row>, scope: Scope, project: string, x: string)
    requires forall r <- rows :: InList(r, scope, project)
    ensures Prompts(Survivors(rows, ThisPrompt(scope, project, x))) == Without(Prompts(rows), x)
  {
    if rows != [] {
      var w := ThisPrompt(scope, project, x);
      assert rows[0] in rows && forall r <- rows[1..] :: r in rows;
      PromptHit(rows[1..], scope, project, x);
      assert Prompts(rows)[1..] == Prompts(rows[1..]);
      var rest := Survivors(rows[1..], w);
      ConcatNil(rest);
      assert ([rows[0]] + rest)[1..] == rest;
    }
  }

  ghost predicate DistinctIds(rows: seq<Row>) {
    forall i, j :: 0 <= i < j < |rows| ==> rows[i].id != rows[j].id
  }

  lemma StaleHit(rows: seq<Row>, n: nat)
    requires DistinctIds(rows) && n <= |rows|
    ensures Survivors(rows, TheseIds(Ids(rows[n..]))) == rows[..n]
  {
    var w := TheseIds(Ids(rows[n..]));
    forall r | r in rows[..n] ensures !Hit(w, r) {
      var i :| 0 <= i < n && rows[i] == r;
    }
    forall r | r in rows[n..] ensures Hit(w, r) {
      var j :| 0 <= j < |rows[n..]| && rows[n..][j] == r;
      assert w.ids[j] == r.id;
    }
    NoneHit(rows[..n], w);
    AllHit(rows[n..], w);
    SplitAt(rows, n);
    SurvivorsConcat(rows[..n], rows[n..], w);
    ConcatNil(rows[..n]);
  }

  lemma {:induction false} SelectedDistinct(rows: seq<Row>, nextId: nat, scope: Scope, project: string)
    requires Ordered(rows, nextId)
    ensures DistinctIds(Selected(rows, scope, project))
  {
    if rows != [] {
      var init, last := rows[..|rows| - 1], rows[|rows| - 1];
      SelectedDistinct(init, nextId, scope, project);
      SelectedMembers(init, scope, project);
      forall r | r in init ensures r.id != last.id { }
      var rest := Selected(init, scope, project);
      forall k | 0 <= k < |rest| ensures rest[k].id != last.id { assert rest[k] in rest; }
    }
  }

  lemma {:induction false} DeleteOrdered(rows: seq<Row>, nextId: nat, w: Where)
    requires Ordered(rows, nextId)
    ensures Ordered(Delete(rows, w), nextId)
  {
    if rows != [] {
      var init, last := rows[..|rows| - 1], rows[|rows| - 1];
      DeleteOrdered(init, nextId, w);
      var left := Delete(init, w);
      forall k | 0 <= k < |left| ensures left[k].id < last.id { assert left[k] in left; }
    }
  }

  lemma {:induction false} PromptsPrefix(rows: seq<Row>, n: nat)
    requires n <= |rows|
    ensures Prompts(rows[..n]) == Prompts(rows)[..n]
  {
    if n > 0 {
      PromptsPrefix(rows[1..], n - 1);
      assert rows[..n][1..] == rows[1..][..n - 1];
    }
  }

  lemma {:induction false} PromptsConcat(a: seq<Row>, b: seq<Row>)
    ensures Prompts(a + b) == Prompts(a) + Prompts(b)
  {
    if a == [] {
      ConcatNil(b);
      ConcatNil(Prompts(b));
    } else {
      CutFirst(a, b, 1);
      PromptsConcat(a[1..], b);
      ConcatAssoc([a[0].prompt], Prompts(a[1..]), Prompts(b));
    }
  }

  // A deletion that hits no row of a list leaves it as it is.
  lemma DeleteElsewhere(rows: seq<Row>, w: Where, scope: Scope, project: string)
    requires forall r <- rows :: InList(r, scope, project) ==> !Hit(w, r)
    ensures Listed(Delete(rows, w), scope, project) == Listed(rows, scope, project)
  {
    SelectedDelete(rows, w, scope, project);
    SelectedMembers(rows, scope, project);
    NoneHit(Selected(rows, scope, project), w);
  }

  lemma DeleteWhole(rows: seq<Row>, w: Where, scope: Scope, project: string)
    requires forall r <- rows :: InList(r, scope, project) ==> Hit(w, r)
    ensures Listed(Delete(rows, w), scope, project) == []
  {
    SelectedDelete(rows, w, scope, project);
    SelectedMembers(rows, scope, project);
    AllHit(Selected(rows, scope, project), w);
  }

  lemma DeletePrompt(rows: seq<Row>, scope: Scope, project: string, x: string)
    ensures var left := Delete(rows, ThisPrompt(scope, project, x));
      && Listed(left, scope, project) == Without(Listed(rows, scope, project), x)
      && SameElsewhere(left, rows, scope, project)
  {
    var w := ThisPrompt(scope, project, x);
    SelectedDelete(rows, w, scope, project);
    SelectedMembers(rows, scope, project);
    PromptHit(Selected(rows, scope, project), scope, project, x);
    forall s, p | s != scope || p != project ensures Listed(Delete(rows, w), s, p) == Listed(rows, s, p) {
      DeleteElsewhere(rows, w, s, p);
    }
  }

  lemma Create(rows: seq<Row>, row: Row)
    ensures Listed(rows + [row], row.scope, row.project) == [row.prompt] + Listed(rows, row.scope, row.project)
    ensures SameElsewhere(rows + [row], rows, row.scope, row.project)
  {
    SelectedSnoc(rows, row, row.scope, row.project);
    PromptsConcat([row], Selected(rows, row.scope, row.project));
    assert Prompts([row]) == [row.prompt];
    forall s, p | s != row.scope || p != row.project ensures Listed(rows + [row], s, p) == Listed(rows, s, p) {
      SelectedSnoc(rows, row, s, p);
      ConcatNil(Selected(rows, s, p));
    }
  }

  lemma DeleteStale(rows: seq<Row>, nextId: nat, scope: Scope, project: string, n: nat)
    requires Ordered(rows, nextId) && n <= |Selected(rows, scope, project)|
    ensures var left := Delete(rows, TheseIds(Ids(Selected(rows, scope, project)[n..])));
      && Listed(left, scope, project) == Listed(rows, scope, project)[..n]
      && SameElsewhere(left, rows, scope, project)
  {
    var list := Selected(rows, scope, project);
    var w := TheseIds(Ids(list[n..]));
    SelectedDelete(rows, w, scope, project);
    SelectedDistinct(rows, nextId, scope, project);
    StaleHit(list, n);
    PromptsPrefix(list, n);
    forall s, p | s != scope || p != project ensures Listed(Delete(rows, w), s, p) == Listed(rows, s, p) {
      forall r | r in rows && InList(r, s, p) ensures !Hit(w, r) {
        SelectedMembers(rows, scope, project);
        if r.id in w.ids {
          var j :| 0 <= j < |w.ids| && w.ids[j] == r.id;
          assert list[n + j] in list;
          SameIdSameRow(rows, nextId, r, list[n + j]);
        }
      }
      DeleteElsewhere(rows, w, s, p);
    }
  }

  lemma SameIdSameRow(rows: seq<Row>, nextId: nat, a: Row, b: Row)
    requires Ordered(rows, nextId) && a in rows && b in rows && a.id == b.id
    ensures a == b
  {
  }
}
