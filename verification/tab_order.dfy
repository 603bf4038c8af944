/** The order of a project's terminal tabs: a sorted view of a map, and what moving a tab means for it. */
module TabOrder {
  import opened Sequences
  import opened Text
  import opened TextOrder
  import opened Wrappers

  datatype Tab = Tab(id: string, project: string, createdAt: int, order: real)

  type Tabs = m: map<string, Tab> | forall id <- m :: m[id].id == id

  function Store(m: Tabs, tab: Tab): Tabs {
    m[tab.id := tab]
  }

  /** The sort order: by index when one is set and they differ, else by age, else by id. */
  predicate Before(a: Tab, b: Tab) {
    if (a.order > 0.0 || b.order > 0.0) && a.order != b.order then a.order < b.order
    else if a.createdAt != b.createdAt then a.createdAt < b.createdAt
    else Less(a.id, b.id)
  }

  /** Set indexes decide, a set one comes after one that is not set; equal or unset ones leave it to age and then id. */
  lemma BeforeIs(a: Tab, b: Tab)
    ensures a.order > 0.0 && b.order > 0.0 && a.order < b.order ==> Before(a, b) && !Before(b, a)
    ensures a.order <= 0.0 && b.order > 0.0 ==> Before(a, b) && !Before(b, a)
    ensures (a.order == b.order || (a.order <= 0.0 && b.order <= 0.0)) && a.createdAt < b.createdAt ==>
      Before(a, b) && !Before(b, a)
    ensures (a.order == b.order || (a.order <= 0.0 && b.order <= 0.0)) && a.createdAt == b.createdAt ==>
      (Before(a, b) <==> Less(a.id, b.id))
  {
  }

  lemma BeforeTotal(a: Tab, b: Tab)
    requires a.id != b.id
    ensures Before(a, b) || Before(b, a)
  {
    LessTotal(a.id, b.id);
  }

  lemma BeforeTransitive(a: Tab, b: Tab, c: Tab)
    requires Before(a, b) && Before(b, c)
    ensures Before(a, c)
  {
    if Less(a.id, b.id) && Less(b.id, c.id) { LessTransitive(a.id, b.id, c.id); }
  }

  lemma BeforeIrreflexive(a: Tab)
    ensures !Before(a, a)
  {
    LessIrreflexive(a.id);
  }

  // -------------------------------------------------------- the ordered view

  ghost predicate Ascending(items: seq<Tab>) {
    forall i, j :: 0 <= i < j < |items| ==> Before(items[i], items[j])
  }

  predicate InProject(tab: Tab, project: string) {
    project == "" || tab.project == project
  }

  /** `items` are the tabs of the project, in order. */
  ghost predicate IsOrdered(items: seq<Tab>, m: Tabs, project: string) {
    && Ascending(items)
    && (forall t <- items :: t.id in m && m[t.id] == t && InProject(t, project))
    && forall id <- m :: InProject(m[id], project) ==> m[id] in items
  }

  lemma AscendingTail(items: seq<Tab>)
    requires items != [] && Ascending(items)
    ensures Ascending(items[1..]) && items[0] !in items[1..]
  {
    var rest := items[1..];
    forall i, j | 0 <= i < j < |rest| ensures Before(rest[i], rest[j]) { assert Before(items[i + 1], items[j + 1]); }
    if items[0] in rest {
      var k :| 0 <= k < |rest| && rest[k] == items[0];
      assert Before(items[0], items[k + 1]);
      BeforeIrreflexive(items[0]);
    }
  }

  lemma {:induction false} AscendingUnique(a: seq<Tab>, b: seq<Tab>)
    requires Ascending(a) && Ascending(b) && forall t :: t in a <==> t in b
    ensures a == b
    decreases |a|
  {
    assert b == [] || b[0] in b;
    if a != [] {
      assert a[0] in b && b != [] && b[0] in a;
      SameFirst(a, b);
      AscendingTail(a);
      AscendingTail(b);
      forall t ensures t in a[1..] <==> t in b[1..] {
        assert t in a <==> t == a[0] || t in a[1..];
        assert t in b <==> t == b[0] || t in b[1..];
      }
      AscendingUnique(a[1..], b[1..]);
      HeadAndTail(a);
      HeadAndTail(b);
    }
  }

  lemma SameFirst(a: seq<Tab>, b: seq<Tab>)
    requires Ascending(a) && Ascending(b) && a != [] && b != [] && a[0] in b && b[0] in a
    ensures a[0] == b[0]
  {
    var i :| 0 <= i < |b| && b[i] == a[0];
    var j :| 0 <= j < |a| && a[j] == b[0];
    if i > 0 && j > 0 {
      assert Before(b[0], b[i]) && Before(a[0], a[j]);
      BeforeTransitive(a[0], b[0], a[0]);
      BeforeIrreflexive(a[0]);
    }
  }

  lemma OrderedUnique(a: seq<Tab>, b: seq<Tab>, m: Tabs, project: string)
    requires IsOrdered(a, m, project) && IsOrdered(b, m, project)
    ensures a == b
  {
    AscendingUnique(a, b);
  }

  function Insert(items: seq<Tab>, t: Tab): seq<Tab> {
    if items == [] || Before(t, items[0]) then [t] + items else [items[0]] + Insert(items[1..], t)
  }

  lemma {:induction false} InsertMembers(items: seq<Tab>, t: Tab)
    ensures forall u :: u in Insert(items, t) <==> u == t || u in items
  {
    if items != [] && !Before(t, items[0]) {
      InsertMembers(items[1..], t);
      HeadAndTail(items);
    }
  }

  lemma {:induction false} InsertAscending(items: seq<Tab>, t: Tab)
    requires Ascending(items) && forall u <- items :: u.id != t.id
    ensures Ascending(Insert(items, t))
  {
    if items == [] {
    } else if Before(t, items[0]) {
      var all := [t] + items;
      forall i, j | 0 <= i < j < |all| ensures Before(all[i], all[j]) {
        if i == 0 && j > 1 {
          assert Before(items[0], items[j - 1]);
          BeforeTransitive(t, items[0], items[j - 1]);
        }
      }
    } else {
      var head, rest := items[0], Insert(items[1..], t);
      AscendingTail(items);
      InsertAscending(items[1..], t);
      InsertMembers(items[1..], t);
      BeforeTotal(t, head);
      var all := [head] + rest;
      forall i, j | 0 <= i < j < |all| ensures Before(all[i], all[j]) {
        if i == 0 {
          assert rest[j - 1] in rest;
          if rest[j - 1] != t {
            var k :| 0 <= k < |items[1..]| && items[1..][k] == rest[j - 1];
            assert Before(items[0], items[k + 1]);
          }
        }
      }
    }
  }

  ghost function Pick(m: Tabs): (id: string)
    requires m != map[]
    ensures id in m
  {
    var id :| id in m; id
  }

  /** The tabs of the project in order; there is one such list. */
  ghost function Order(m: Tabs, project: string): (items: seq<Tab>) {
    if m == map[] then [] else
    var id := Pick(m);
    var others := Order(m - {id}, project);
    if InProject(m[id], project) then Insert(others, m[id]) else others
  }

  lemma {:induction false} OrderSpec(m: Tabs, project: string)
    ensures IsOrdered(Order(m, project), m, project)
  {
    if m != map[] {
      var id := Pick(m);
      var rest := m - {id};
      var others := Order(rest, project);
      OrderSpec(rest, project);
      assert forall k <- m :: k != id ==> k in rest && rest[k] == m[k];
      if InProject(m[id], project) {
        InsertAscending(others, m[id]);
        InsertMembers(others, m[id]);
      }
    }
  }

  lemma OrderIs(items: seq<Tab>, m: Tabs, project: string)
    requires IsOrdered(items, m, project)
    ensures Order(m, project) == items
  {
    OrderSpec(m, project);
    OrderedUnique(Order(m, project), items, m, project);
  }

  function Ids(items: seq<Tab>): (ids: seq<string>)
    ensures |ids| == |items| && forall i :: 0 <= i < |ids| ==> ids[i] == items[i].id
  {
    seq(|items|, i requires 0 <= i < |items| => items[i].id)
  }

  /** The ids of the project's tabs, left to right. */
  ghost function TabIds(m: Tabs, project: string): seq<string> {
    Ids(Order(m, project))
  }

  lemma TabIdsDistinct(m: Tabs, project: string)
    ensures Distinct(TabIds(m, project))
    ensures forall id :: id in TabIds(m, project) <==> id in m && InProject(m[id], project)
  {
    var items := Order(m, project);
    OrderSpec(m, project);
    forall i, j | 0 <= i < j < |items| ensures items[i].id != items[j].id {
      assert Before(items[i], items[j]);
      assert items[i] in items && items[j] in items;
      BeforeIrreflexive(items[i]);
    }
    forall id ensures id in Ids(items) <==> id in m && InProject(m[id], project) {
      if id in Ids(items) {
        var i :| 0 <= i < |items| && items[i].id == id;
        assert items[i] in items;
      }
      if id in m && InProject(m[id], project) {
        var i :| 0 <= i < |items| && items[i] == m[id];
        assert Ids(items)[i] == id;
      }
    }
  }

  // ------------------------------------------------------------- renumbering

  function IndexOf(ids: seq<string>, id: string): (i: nat)
    requires id in ids
    ensures i < |ids| && ids[i] == id && id !in ids[..i]
  {
    if ids[0] == id then 0 else 1 + IndexOf(ids[1..], id)
  }

  function OrderAt(i: int): real {
    (i + 1) as real * 1000.0
  }

  // 1000, 2000, ...
  ghost predicate IsMultiple(order: real) {
    exists i: nat :: order == OrderAt(i)
  }

  /** Every listed tab gets the index of its place in the list. */
  function Renumbered(m: Tabs, ids: seq<string>): Tabs {
    map id | id in m :: if id in ids then m[id].(order := OrderAt(IndexOf(ids, id))) else m[id]
  }

  /** The project's indexes are exactly 1000, 2000, ... from left to right. */
  ghost predicate Normalized(m: Tabs, project: string) {
    forall i :: 0 <= i < |Order(m, project)| ==> Order(m, project)[i].order == OrderAt(i)
  }

  /** Renumbering along a list of the project's tabs makes that list their order. */
  lemma RenumberedOrder(m: Tabs, project: string, ids: seq<string>)
    requires Distinct(ids) && forall id :: id in ids <==> id in m && InProject(m[id], project)
    ensures var m' := Renumbered(m, ids);
            TabIds(m', project) == ids && Normalized(m', project)
  {
    var m' := Renumbered(m, ids);
    var items := seq(|ids|, i requires 0 <= i < |ids| => assert ids[i] in ids; m'[ids[i]]);
    forall i | 0 <= i < |ids| ensures items[i].id == ids[i] && items[i].order == OrderAt(i) {
      assert ids[i] in ids && ids[i] in m;
      assert IndexOf(ids, ids[i]) == i;
    }
    forall t | t in items ensures t.id in m' && m'[t.id] == t && InProject(t, project) {
      var i :| 0 <= i < |items| && items[i] == t;
      assert ids[i] in ids;
    }
    forall id | id in m' && InProject(m'[id], project) ensures m'[id] in items {
      var i := IndexOf(ids, id);
      assert items[i] == m'[id];
    }
    assert IsOrdered(items, m', project);
    OrderIs(items, m', project);
    assert Ids(items) == ids;
  }

  // Other projects do not notice.
  lemma RenumberedElsewhere(m: Tabs, project: string, ids: seq<string>, other: string)
    requires project != other && other != "" && forall id <- ids :: id in m && m[id].project == project
    ensures Order(Renumbered(m, ids), other) == Order(m, other)
  {
    var m' := Renumbered(m, ids);
    OrderSpec(m, other);
    forall t | t in Order(m, other) ensures t.id in m' && m'[t.id] == t {
      assert t.id !in ids;
    }
    OrderIs(Order(m, other), m', other);
  }

  // ------------------------------------------------------------------ moving

  function InsertAt(ids: seq<string>, i: nat, id: string): seq<string>
    requires i <= |ids|
  {
    ids[..i] + [id] + ids[i..]
  }

  /** Where the moved tab goes among the others, or None for an invalid target. */
  function ResolveInsertIndex(others: seq<string>, id: string, prevRaw: string, nextRaw: string): (r: Option<nat>)
    ensures r.Some? ==> r.value <= |others|
  {
    var prev, next := Trim(prevRaw), Trim(nextRaw);
    if prev != "" && prev == next then None
    else if prev == id || next == id then None
    else if next != "" then
      if next !in others then None
      else if prev != "" && (prev !in others || IndexOf(others, prev) >= IndexOf(others, next)) then None
      else Some(IndexOf(others, next))
    else if prev != "" then
      if prev !in others then None else Some(IndexOf(others, prev) + 1)
    else Some(0)
  }

  /** The order after a move, or None when nothing may change. */
  function Moved(ids: seq<string>, id: string, prev: string, next: string): Option<seq<string>> {
    var others := Without(ids, id);
    var at := ResolveInsertIndex(others, id, prev, next);
    if at.None? then None else Some(InsertAt(others, at.value, id))
  }

  lemma {:induction false} WithoutMembers(ids: seq<string>, id: string)
    ensures forall x :: x in Without(ids, id) <==> x in ids && x != id
    ensures Distinct(ids) ==> Distinct(Without(ids, id))
    ensures Distinct(ids) && id in ids ==> |Without(ids, id)| == |ids| - 1
    ensures id !in ids ==> Without(ids, id) == ids
  {
    if ids != [] {
      var rest := ids[1..];
      HeadAndTail(ids);
      WithoutMembers(rest, id);
      if Distinct(ids) {
        DistinctTail(ids);
        DistinctCons(ids[0], Without(rest, id));
      }
    }
  }

  lemma InsertAtMembers(ids: seq<string>, i: nat, id: string)
    requires i <= |ids| && Distinct(ids) && id !in ids
    ensures Distinct(InsertAt(ids, i, id))
    ensures forall x :: x in InsertAt(ids, i, id) <==> x == id || x in ids
  {
    var all := InsertAt(ids, i, id);
    forall j | 0 <= j < |ids| ensures ids[j] in all { assert all[if j < i then j else j + 1] == ids[j]; }
    assert all[i] == id;
  }

  lemma {:induction false} WithoutInsertAt(ids: seq<string>, i: nat, id: string)
    requires i <= |ids| && id !in ids
    ensures Without(InsertAt(ids, i, id), id) == ids
  {
    if i == 0 {
      assert InsertAt(ids, 0, id) == [id] + ids && ([id] + ids)[1..] == ids;
      WithoutMembers(ids, id);
    } else {
      var all := InsertAt(ids, i, id);
      assert all[0] == ids[0] && all[1..] == InsertAt(ids[1..], i - 1, id);
      WithoutInsertAt(ids[1..], i - 1, id);
      HeadAndTail(ids);
    }
  }

  /** A move keeps the tabs and the relative order of all the others, and puts the moved tab immediately before
      `next`, else immediately after `prev`, else first. */
  lemma MoveMeaning(ids: seq<string>, id: string, prevRaw: string, nextRaw: string)
    requires Distinct(ids) && id in ids && Moved(ids, id, prevRaw, nextRaw).Some?
    ensures var ids' := Moved(ids, id, prevRaw, nextRaw).value;
            var prev, next := Trim(prevRaw), Trim(nextRaw);
            && Distinct(ids') && (forall x :: x in ids' <==> x in ids)
            && Without(ids', id) == Without(ids, id)
            && var at := IndexOf(ids', id);
               && (next != "" ==> at + 1 < |ids'| && ids'[at + 1] == next)
               && (next == "" && prev != "" ==> at > 0 && ids'[at - 1] == prev)
               && (next == "" && prev == "" ==> at == 0)
  {
    var others := Without(ids, id);
    var at := ResolveInsertIndex(others, id, prevRaw, nextRaw).value;
    WithoutMembers(ids, id);
    InsertAtMembers(others, at, id);
    WithoutInsertAt(others, at, id);
    InsertedNeighbours(others, at, id);
    ResolvedTarget(others, id, prevRaw, nextRaw);
  }

  lemma InsertedNeighbours(others: seq<string>, at: nat, id: string)
    requires at <= |others| && id !in others
    ensures id in InsertAt(others, at, id) && IndexOf(InsertAt(others, at, id), id) == at
    ensures at < |others| ==> InsertAt(others, at, id)[at + 1] == others[at]
    ensures at > 0 ==> InsertAt(others, at, id)[at - 1] == others[at - 1]
  {
    var all := InsertAt(others, at, id);
    assert all[at] == id;
    forall k | 0 <= k < at ensures all[k] != id { assert all[k] == others[k]; }
  }

  // What stands at the index a move resolves to, and before it.
  lemma ResolvedTarget(others: seq<string>, id: string, prevRaw: string, nextRaw: string)
    requires ResolveInsertIndex(others, id, prevRaw, nextRaw).Some?
    ensures var (at, prev, next) := (ResolveInsertIndex(others, id, prevRaw, nextRaw).value, Trim(prevRaw),
                                     Trim(nextRaw));
      && (next != "" ==> at < |others| && others[at] == next)
      && (next == "" && prev != "" ==> at > 0 && others[at - 1] == prev)
      && (next == "" && prev == "" ==> at == 0)
  {
  }

  /** A move is refused exactly when it names the tab itself, the same tab twice, a tab of elsewhere, or two tabs
      in the wrong order. */
  lemma MoveRefusedIff(ids: seq<string>, id: string, prevRaw: string, nextRaw: string)
    requires Distinct(ids)
    ensures var prev, next := Trim(prevRaw), Trim(nextRaw);
            Moved(ids, id, prevRaw, nextRaw).None? <==>
              || prev == id || next == id
              || (prev != "" && prev !in ids) || (next != "" && next !in ids)
              || (prev != "" && next != "" && IndexOf(ids, prev) >= IndexOf(ids, next))
  {
    var prev, next := Trim(prevRaw), Trim(nextRaw);
    ResolveFailsIff(Without(ids, id), id, prevRaw, nextRaw);
    if prev != id && next != id && prev in ids && next in ids { WithoutKeepsOrder(ids, id, prev, next); }
  }

  lemma ResolveFailsIff(others: seq<string>, id: string, prevRaw: string, nextRaw: string)
    ensures var prev, next := Trim(prevRaw), Trim(nextRaw);
            ResolveInsertIndex(others, id, prevRaw, nextRaw).None? <==>
              || prev == id || next == id
              || (prev != "" && prev !in others) || (next != "" && next !in others)
              || (prev != "" && next != "" && IndexOf(others, prev) >= IndexOf(others, next))
  {
  }

  lemma {:induction false} WithoutKeepsOrder(ids: seq<string>, id: string, a: string, b: string)
    requires a in ids && b in ids && a != id && b != id
    ensures a in Without(ids, id) && b in Without(ids, id)
    ensures IndexOf(Without(ids, id), a) >= IndexOf(Without(ids, id), b) <==> IndexOf(ids, a) >= IndexOf(ids, b)
  {
    WithoutMembers(ids, id);
    HeadAndTail(ids);
    if ids[0] != id {
      assert Without(ids, id)[1..] == Without(ids[1..], id);
    }
    if a in ids[1..] && b in ids[1..] { WithoutKeepsOrder(ids[1..], id, a, b); }
  }
}
