/** What the manager keeps true of the tabs, and how each of its steps keeps it. */
module TabInvariants {
  import opened Sequences
  import opened Text
  import opened TabOrder
  import opened TabRestore

  datatype Refusal = SessionNotFound | SessionLimitReached | InvalidMoveTarget | StartFailed

  // --------------------------------------------------------------- invariant

  ghost function Members(m: Tabs, project: string): set<string> {
    set id | id in m && m[id].project == project
  }

  /** A project whose id is not blank; blank ones are never renumbered. */
  predicate Named(project: string) {
    Trim(project) != ""
  }

  // The indexes of every named project but `except` are distinct positive multiples of 1000.
  ghost predicate IndexesOk(m: Tabs, except: string) {
    && (forall id <- m :: Named(m[id].project) && m[id].project != except ==> IsMultiple(m[id].order))
    && (forall a, b | a in m && b in m && a != b && m[a].project == m[b].project :: 
          Named(m[a].project) && m[a].project != except ==> m[a].order != m[b].order)
  }

  ghost predicate WithinLimit(m: Tabs, limit: int) {
    limit > 0 ==> forall project :: |Members(m, project)| <= limit
  }

  /** Within every named project the order indexes are distinct positive multiples of 1000, possibly with gaps, and
      no project has more tabs than the limit. */
  ghost predicate Inv(m: Tabs, limit: int) {
    && (forall id <- m :: m[id].project != "")
    && IndexesOk(m, "")
    && WithinLimit(m, limit)
  }

  lemma RenumberedMembers(m: Tabs, ids: seq<string>, project: string)
    ensures Members(Renumbered(m, ids), project) == Members(m, project)
  {
  }

  lemma OrderAtInjective(i: nat, j: nat)
    requires i != j
    ensures OrderAt(i) != OrderAt(j)
  {
  }

  // Renumbering a project repairs its indexes, whatever they were.
  lemma RenumberedIndexes(m: Tabs, project: string, ids: seq<string>)
    requires IndexesOk(m, project)
    requires forall id :: id in ids <==> id in m && m[id].project == project
    ensures IndexesOk(Renumbered(m, ids), "")
  {
    var m' := Renumbered(m, ids);
    forall id | id in m' && Named(m'[id].project) ensures IsMultiple(m'[id].order) {
      if id in ids { assert m'[id].order == OrderAt(IndexOf(ids, id)); }
    }
    forall a, b | a in m' && b in m' && a != b && m'[a].project == m'[b].project && Named(m'[a].project)
      ensures m'[a].order != m'[b].order
    {
      if a in ids { OrderAtInjective(IndexOf(ids, a), IndexOf(ids, b)); }
    }
  }

  lemma RenumberedInv(m: Tabs, project: string, ids: seq<string>, limit: int)
    requires project != "" && (forall id <- m :: m[id].project != "") && WithinLimit(m, limit)
    requires IndexesOk(m, project) && forall id :: id in ids <==> id in m && m[id].project == project
    ensures Inv(Renumbered(m, ids), limit)
  {
    RenumberedIndexes(m, project, ids);
    forall other ensures Members(Renumbered(m, ids), other) == Members(m, other) {
      RenumberedMembers(m, ids, other);
    }
  }

  /** Forgetting a tab leaves a gap, but keeps the invariant; and the others keep their order. */
  lemma ForgetKeepsInv(m: Tabs, id: string, limit: int)
    requires Inv(m, limit)
    ensures Inv(m - {id}, limit)
  {
    var m' := m - {id};
    forall project
      ensures Members(m', project) <= Members(m, project) && |Members(m', project)| <= |Members(m, project)|
    {
      SubsetSize(Members(m', project), Members(m, project));
    }
  }

  lemma SubsetSize<T>(a: set<T>, b: set<T>)
    requires a <= b
    ensures |a| <= |b|
  {
    assert b == a + (b - a);
  }

  function WithoutTab(items: seq<Tab>, id: string): seq<Tab> {
    if items == [] then [] else
    if items[0].id == id then WithoutTab(items[1..], id) else [items[0]] + WithoutTab(items[1..], id)
  }

  lemma {:induction false} WithoutTabMembers(items: seq<Tab>, id: string)
    ensures forall t :: t in WithoutTab(items, id) <==> t in items && t.id != id
    ensures Ids(WithoutTab(items, id)) == Without(Ids(items), id)
  {
    if items != [] {
      WithoutTabMembers(items[1..], id);
      HeadAndTail(items);
      assert Ids(items)[1..] == Ids(items[1..]);
      if items[0].id != id {
        assert Ids(WithoutTab(items, id)) == [items[0].id] + Ids(WithoutTab(items[1..], id));
      }
    }
  }

  lemma {:induction false} WithoutTabAscending(items: seq<Tab>, id: string)
    requires Ascending(items)
    ensures Ascending(WithoutTab(items, id))
  {
    if items != [] {
      AscendingTail(items);
      WithoutTabAscending(items[1..], id);
      WithoutTabMembers(items[1..], id);
      if items[0].id != id {
        var rest := WithoutTab(items[1..], id);
        forall j | 0 <= j < |rest| ensures Before(items[0], rest[j]) {
          assert rest[j] in rest;
          var k :| 0 <= k < |items[1..]| && items[1..][k] == rest[j];
          assert Before(items[0], items[k + 1]);
        }
      }
    }
  }

  lemma ForgetOrder(m: Tabs, id: string, project: string)
    ensures TabIds(m - {id}, project) == Without(TabIds(m, project), id)
  {
    var items := Order(m, project);
    OrderSpec(m, project);
    WithoutTabMembers(items, id);
    WithoutTabAscending(items, id);
    OrderIs(WithoutTab(items, id), m - {id}, project);
  }

  // A tab added with a larger index than all the others of its project comes last.
  lemma AppendedOrder(m: Tabs, tab: Tab)
    requires tab.project != "" && tab.id !in m && tab.order > 0.0
    requires forall id <- m :: m[id].project == tab.project ==> m[id].order < tab.order
    ensures TabIds(Store(m, tab), tab.project) == TabIds(m, tab.project) + [tab.id]
  {
    var items := Order(m, tab.project);
    OrderSpec(m, tab.project);
    var m', items' := Store(m, tab), items + [tab];
    forall i | 0 <= i < |items| ensures Before(items[i], tab) { assert items[i] in items; }
    forall t | t in items' ensures t.id in m' && m'[t.id] == t && InProject(t, tab.project) {
      if t != tab { assert t in items; }
    }
    forall id | id in m' && InProject(m'[id], tab.project) ensures m'[id] in items' {
      if id != tab.id { assert m[id] in items; }
    }
    OrderIs(items', m', tab.project);
    assert Ids(items') == Ids(items) + [tab.id];
  }

  /** Where an added tab ends up, given where its index alone would put it. */
  function Placed(ids: seq<string>, id: string, insertAfter: string): seq<string> {
    var moved := Moved(ids, id, insertAfter, "");
    if Trim(insertAfter) != "" && moved.Some? then moved.value else ids
  }

  /** A tab that is to go after another one of its project goes right after it, and the others keep their order;
      nothing else moves it. */
  lemma PlacedIs(ids: seq<string>, id: string, insertAfter: string)
    requires Distinct(ids) && id in ids
    ensures var (placed, after) := (Placed(ids, id, insertAfter), Trim(insertAfter));
      if after != "" && after in ids && after != id && id != ""
      then && (forall x :: x in placed <==> x in ids) && Distinct(placed) && Without(placed, id) == Without(ids, id)
           && IndexOf(placed, id) > 0 && placed[IndexOf(placed, id) - 1] == after
      else placed == ids
  {
    MoveRefusedIff(ids, id, insertAfter, "");
    assert Trim("") == "";
    if Moved(ids, id, insertAfter, "").Some? { MoveMeaning(ids, id, insertAfter, ""); }
  }

  /** The outcome of adding a tab: by its index, or last when it has none, or right after another one. */
  ghost predicate Added(m: Tabs, session: Tab, insertAfter: string, m': Tabs) {
    var p, id := session.project, session.id;
    && m'.Keys == m.Keys + {id}
    && m'[id] == session.(order := m'[id].order)
    && (forall k <- m :: k != id ==> m'[k] == m[k].(order := m'[k].order))
    && (Named(p) ==>
          && Normalized(m', p)
          && (session.order > 0.0 ==> TabIds(m', p) == Placed(TabIds(Store(m, session), p), id, insertAfter))
          && (session.order <= 0.0 && id !in m ==> TabIds(m', p) == Placed(TabIds(m, p) + [id], id, insertAfter)))
    && (id !in m ==> forall other | other != p && other != "" :: TabIds(m', other) == TabIds(m, other))
  }

  // Storing a tab disturbs the indexes of its own project only.
  lemma StoreKeepsIndexes(m: Tabs, tab: Tab)
    requires IndexesOk(m, "")
    ensures IndexesOk(Store(m, tab), tab.project)
  {
    var m' := Store(m, tab);
    forall a, b | a in m' && b in m' && a != b && m'[a].project == m'[b].project
                  && Named(m'[a].project) && m'[a].project != tab.project
      ensures m'[a].order != m'[b].order
    {
      assert m'[a] == m[a] && m'[b] == m[b];
    }
  }

  lemma StoredMembers(m: Tabs, tab: Tab, project: string)
    ensures |Members(Store(m, tab), project)| <= |Members(m, project)| + (if project == tab.project then 1 else 0)
  {
    var m' := Store(m, tab);
    if project == tab.project {
      assert Members(m', project) == Members(m, project) + {tab.id};
    } else {
      assert Members(m', project) <= Members(m, project);
      SubsetSize(Members(m', project), Members(m, project));
    }
  }

  lemma StoreKeepsLimit(m: Tabs, tab: Tab, limit: int)
    requires WithinLimit(m, limit) && (limit > 0 ==> |Members(m, tab.project)| < limit)
    ensures WithinLimit(Store(m, tab), limit)
  {
    var m' := Store(m, tab);
    if limit > 0 {
      forall project ensures |Members(m', project)| <= limit { StoredMembers(m, tab, project); }
    }
  }

  lemma StoreElsewhere(m: Tabs, tab: Tab, other: string)
    requires tab.id !in m && other != "" && other != tab.project
    ensures TabIds(Store(m, tab), other) == TabIds(m, other)
  {
    OrderSpec(m, other);
    OrderIs(Order(m, other), Store(m, tab), other);
  }

  lemma ForgetElsewhere(m: Tabs, id: string, other: string)
    requires other != "" && id in m && m[id].project != other
    ensures TabIds(m - {id}, other) == TabIds(m, other)
  {
    ForgetOrder(m, id, other);
    TabIdsDistinct(m, other);
    WithoutMembers(TabIds(m, other), id);
  }

  lemma RenumberedMembership(m: Tabs, ids: seq<string>)
    ensures Renumbered(m, ids).Keys == m.Keys
    ensures forall id <- m :: Renumbered(m, ids)[id] == m[id].(order := Renumbered(m, ids)[id].order)
  {
  }

  lemma RenumberedSnoc(m: Tabs, ids: seq<string>, i: nat)
    requires Distinct(ids) && i < |ids| && ids[i] in m
    ensures Renumbered(m, ids[..i + 1]) == Renumbered(m, ids[..i])[ids[i] := m[ids[i]].(order := OrderAt(i))]
    ensures ids[i] !in ids[..i]
  {
    assert ids[..i + 1] == ids[..i] + [ids[i]];
    forall id | id in ids[..i + 1] ensures IndexOf(ids[..i + 1], id) == IndexOf(ids, id) {
      PrefixIndex(ids, i + 1, id);
    }
    forall id | id in ids[..i] ensures IndexOf(ids[..i], id) == IndexOf(ids, id) { PrefixIndex(ids, i, id); }
    assert ids[i] in ids && IndexOf(ids, ids[i]) == i;
  }

  lemma PrefixIndex(ids: seq<string>, n: nat, id: string)
    requires n <= |ids| && id in ids[..n] && Distinct(ids)
    ensures id in ids && IndexOf(ids[..n], id) == IndexOf(ids, id)
  {
    var k := IndexOf(ids[..n], id);
    assert ids[k] == id;
  }

  lemma PlacedMembers(m: Tabs, project: string, id: string, insertAfter: string)
    requires project != "" && id in m && m[id].project == project
    ensures var ids := Placed(TabIds(m, project), id, insertAfter);
            Distinct(ids) && forall x :: x in ids <==> x in m && m[x].project == project
  {
    TabIdsDistinct(m, project);
    if Moved(TabIds(m, project), id, insertAfter, "").Some? { MoveMeaning(TabIds(m, project), id, insertAfter, ""); }
  }

  ghost predicate IsPlacement(m: Tabs, tab: Tab, insertAfter: string, m': Tabs) {
    var stored := Store(m, tab);
    || m' == Renumbered(stored, Placed(TabIds(stored, tab.project), tab.id, insertAfter))
    || (!Named(tab.project) && m' == stored)
  }

  // What storing, placing and renumbering a tab amounts to.
  lemma PlacedKeepsInv(m: Tabs, tab: Tab, insertAfter: string, m': Tabs, limit: int)
    requires Inv(m, limit) && tab.project != "" && (limit > 0 ==> |Members(m, tab.project)| < limit)
    requires IsPlacement(m, tab, insertAfter, m')
    ensures Inv(m', limit)
  {
    var p, stored := tab.project, Store(m, tab);
    StoreKeepsIndexes(m, tab);
    StoreKeepsLimit(m, tab, limit);
    PlacedMembers(stored, p, tab.id, insertAfter);
    RenumberedInv(stored, p, Placed(TabIds(stored, p), tab.id, insertAfter), limit);
  }

  lemma PlacedTabs(m: Tabs, tab: Tab, insertAfter: string, m': Tabs)
    requires IsPlacement(m, tab, insertAfter, m')
    ensures m'.Keys == m.Keys + {tab.id}
    ensures m'[tab.id] == tab.(order := m'[tab.id].order)
    ensures forall id <- m :: id != tab.id ==> m'[id] == m[id].(order := m'[id].order)
  {
    var stored := Store(m, tab);
    RenumberedMembership(stored, Placed(TabIds(stored, tab.project), tab.id, insertAfter));
  }

  lemma PlacedOrder(m: Tabs, tab: Tab, insertAfter: string, m': Tabs)
    requires Named(tab.project) && IsPlacement(m, tab, insertAfter, m')
    ensures Normalized(m', tab.project)
    ensures TabIds(m', tab.project) == Placed(TabIds(Store(m, tab), tab.project), tab.id, insertAfter)
  {
    var p, stored := tab.project, Store(m, tab);
    PlacedMembers(stored, p, tab.id, insertAfter);
    RenumberedOrder(stored, p, Placed(TabIds(stored, p), tab.id, insertAfter));
  }

  lemma PlacedElsewhere(m: Tabs, tab: Tab, insertAfter: string, m': Tabs)
    requires tab.project != "" && tab.id !in m && IsPlacement(m, tab, insertAfter, m')
    ensures forall other | other != tab.project && other != "" :: TabIds(m', other) == TabIds(m, other)
  {
    var p, stored := tab.project, Store(m, tab);
    PlacedMembers(stored, p, tab.id, insertAfter);
    forall other | other != p && other != "" ensures TabIds(m', other) == TabIds(m, other) {
      StoreElsewhere(m, tab, other);
      RenumberedElsewhere(stored, p, Placed(TabIds(stored, p), tab.id, insertAfter), other);
    }
  }

  lemma RenumberedTwice(m: Tabs, ids: seq<string>)
    ensures Renumbered(Renumbered(m, ids), ids) == Renumbered(m, ids)
  {
  }

  lemma DistinctSuffix(ids: seq<string>, k: nat)
    requires k < |ids| && Distinct(ids)
    ensures Distinct(ids[k + 1..]) && forall id :: id in ids[k + 1..] <==> id in ids[k..] && id != ids[k]
  {
    SplitAt(ids, k);
    DistinctConcat(ids[..k], ids[k..]);
    DistinctTail(ids[k..]);
    HeadAndTail(ids[k..]);
  }

  lemma NotYetRestored(records: seq<Record>, i: nat, m: Tabs, before: Tabs)
    requires i < |records| && DistinctIds(records) && NoneLive(records, before)
    requires forall id <- m :: id in before || AmongFirst(records, i, id)
    ensures records[i].id !in m
  {
  }

  lemma MemberCount(m: Tabs, project: string)
    requires project != ""
    ensures |Members(m, project)| == |TabIds(m, project)|
  {
    TabIdsDistinct(m, project);
    DistinctSize(TabIds(m, project), Members(m, project));
  }

  lemma {:induction false} DistinctSize(ids: seq<string>, s: set<string>)
    requires Distinct(ids) && forall x :: x in ids <==> x in s
    ensures |s| == |ids|
  {
    if ids == [] {
      assert s == {};
    } else {
      DistinctTail(ids);
      HeadAndTail(ids);
      DistinctSize(ids[1..], s - {ids[0]});
    }
  }

  ghost predicate NoneLive(records: seq<Record>, m: Tabs) {
    forall k | 0 <= k < |records| :: records[k].id !in m
  }

  ghost predicate AllStart(records: seq<Record>, n: nat, starts: set<string>)
    requires n <= |records|
  {
    forall k | 0 <= k < n :: records[k].id in starts
  }

  lemma AllStartStep(records: seq<Record>, i: nat, starts: set<string>)
    requires i < |records|
    ensures AllStart(records, i + 1, starts) <==> AllStart(records, i, starts) && records[i].id in starts
    ensures AllStart(records, |records|, starts) ==> records[i].id in starts
  {
  }

  ghost predicate NoTabs(m: Tabs, p: string) {
    TabIds(m, p) == []
  }

  // The first `i` records are back, numbered in their restored order.
  ghost predicate RestoredUpTo(m: Tabs, before: Tabs, p: string, records: seq<Record>, times: seq<int>, i: nat)
    requires i <= |records| == |times|
  {
    && Order(m, p) == RestoredTabs(records, times, p, i)
    && forall id <- m :: id in before || AmongFirst(records, i, id)
  }

  lemma NothingRestored(m: Tabs, p: string, records: seq<Record>, times: seq<int>)
    requires |records| == |times| && NoTabs(m, p)
    ensures RestoredUpTo(m, m, p, records, times, 0)
  {
    assert |Order(m, p)| == |TabIds(m, p)|;
  }

  // A numbered project has the tabs of any list with its ids.
  lemma OrderByIds(m: Tabs, p: string, items: seq<Tab>)
    requires p != "" && TabIds(m, p) == Ids(items) && Normalized(m, p)
    requires forall t <- items :: t.id in m && m[t.id] == t.(order := m[t.id].order)
    ensures Order(m, p) == Numbered(items)
  {
    var order := Order(m, p);
    OrderSpec(m, p);
    assert |order| == |Ids(items)|;
    forall i | 0 <= i < |order| ensures order[i] == Numbered(items)[i] {
      assert order[i] in order && items[i] in items;
      assert Ids(order)[i] == Ids(items)[i];
    }
  }

  lemma PlacedNowhere(ids: seq<string>, id: string)
    ensures Placed(ids, id, "") == ids
  {
  }

  // What adding a tab behind no other makes of the tabs of its project.
  lemma AddedOrder(m: Tabs, tab: Tab, m': Tabs)
    requires Named(tab.project) && tab.id !in m && Added(m, tab, "", m')
    ensures Order(m', tab.project) == Numbered(Placing(Order(m, tab.project), tab))
  {
    var p := tab.project;
    var items := Placing(Order(m, p), tab);
    OrderSpec(m, p);
    if tab.order > 0.0 {
      StoredOrder(m, tab);
      PlacedNowhere(TabIds(Store(m, tab), p), tab.id);
    } else {
      PlacedNowhere(TabIds(m, p) + [tab.id], tab.id);
      assert Ids(items) == TabIds(m, p) + [tab.id];
    }
    forall t | t in items ensures t.id in m' && m'[t.id] == t.(order := m'[t.id].order) {
      PlacingMembers(Order(m, p), tab, t);
    }
    OrderByIds(m', p, items);
  }

  lemma RestoredNext(m: Tabs, m': Tabs, before: Tabs, p: string, records: seq<Record>, times: seq<int>, i: nat)
    requires Named(p) && i < |records| == |times| && RestoredUpTo(m, before, p, records, times, i)
    requires records[i].id !in m && Added(m, TabOf(records, times, p, i), "", m')
    ensures RestoredUpTo(m', before, p, records, times, i + 1)
  {
    AddedOrder(m, TabOf(records, times, p, i), m');
    AmongOneMore(records, i);
  }

  lemma RestoredCount(m: Tabs, p: string, records: seq<Record>, times: seq<int>, i: nat)
    requires p != "" && i <= |records| == |times| && DistinctIds(records)
    requires Order(m, p) == RestoredTabs(records, times, p, i)
    ensures |Members(m, p)| == i
  {
    MemberCount(m, p);
    RestoredMembers(records, times, p, i);
  }

  lemma {:induction false} RecordIdsAt(records: seq<Record>, n: nat, i: nat)
    requires i < n <= |records|
    ensures RecordIds(records, n)[i] == records[i].id
  {
    if i < n - 1 { RecordIdsAt(records, n - 1, i); }
  }

  /** The tabs of the records, in the order of the records. */
  ghost predicate InRecordOrder(tabs: seq<Tab>, records: seq<Record>, m: Tabs) {
    |tabs| == |records| && forall i :: 0 <= i < |records| ==> records[i].id in m && tabs[i] == m[records[i].id]
  }

  lemma RestoredAreLive(m: Tabs, p: string, records: seq<Record>, times: seq<int>)
    requires |records| == |times| && DistinctIds(records) && p != ""
    requires Order(m, p) == RestoredTabs(records, times, p, |records|)
    ensures var ids := RecordIds(records, |records|);
      && (forall id <- ids :: id in m) && forall i :: 0 <= i < |records| ==> ids[i] == records[i].id
  {
    RecordIdsMembers(records, |records|);
    RestoredMembers(records, times, p, |records|);
    TabIdsDistinct(m, p);
    forall i | 0 <= i < |records| ensures RecordIds(records, |records|)[i] == records[i].id {
      RecordIdsAt(records, |records|, i);
    }
  }

  // After a failed creation the project has the tabs it had before.
  lemma RestoreUndone(m: Tabs, tab: Tab, m': Tabs, err: Refusal)
    requires tab.id !in m && Named(tab.project)
    requires err == SessionLimitReached ==> m' == m
    requires err != SessionLimitReached ==>
               exists added: Tabs :: Added(m, tab, "", added) && m' == added - {tab.id}
    ensures forall id :: id in TabIds(m', tab.project) <==> id in TabIds(m, tab.project)
  {
    TabIdsDistinct(m, tab.project);
    TabIdsDistinct(m', tab.project);
  }

  /** The records that the tabs of a project are saved as, read back in index order. */
  ghost function Saved(m: Tabs, project: string): (records: seq<Record>)
    ensures |records| == |Order(m, project)|
  {
    seq(|Order(m, project)|, i requires 0 <= i < |Order(m, project)| =>
      Record(Order(m, project)[i].id, Order(m, project)[i].order))
  }

  lemma SavedLeavesRoom(m: Tabs, limit: int, p: string)
    requires Inv(m, limit) && Named(p)
    ensures LeaveRoom(Orders(Saved(m, p)))
  {
    var items := Order(m, p);
    OrderSpec(m, p);
    forall j | 0 <= j < |items| ensures IsMultiple(items[j].order) { assert items[j] in items; }
    forall j, k | 0 <= j < k < |items| ensures items[j].order < items[k].order {
      assert items[j] in items && items[k] in items && Before(items[j], items[k]);
      BeforeIrreflexive(items[j]);
    }
  }

  /** Tabs saved in any state the manager reaches, gaps or not, are restored in the same order, on any clock. */
  lemma SavedTabsRestoreInOrder(m: Tabs, limit: int, p: string, times: seq<int>)
    requires Inv(m, limit) && Named(p) && |times| == |Saved(m, p)|
    ensures DistinctIds(Saved(m, p))
    ensures RestoredIds(Saved(m, p), times, p, |Saved(m, p)|) == TabIds(m, p)
  {
    var records := Saved(m, p);
    TabIdsDistinct(m, p);
    forall i, j | 0 <= i < j < |records| ensures records[i].id != records[j].id {
      assert TabIds(m, p)[i] != TabIds(m, p)[j];
    }
    SavedLeavesRoom(m, limit, p);
    IncreasingRecordsRestoreInOrder(records, times, p);
    forall i | 0 <= i < |records| ensures RecordIds(records, |records|)[i] == TabIds(m, p)[i] {
      RecordIdsAt(records, |records|, i);
    }
  }
}
