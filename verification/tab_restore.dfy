/** Restoring saved tabs one by one into a project that is renumbered after every step. */
module TabRestore {
  import opened Sequences
  import opened TextOrder
  import opened TabOrder

  datatype Record = Record(id: string, order: real)

  function Numbered(items: seq<Tab>): (numbered: seq<Tab>)
    ensures |numbered| == |items| && Ids(numbered) == Ids(items)
  {
    seq(|items|, i requires 0 <= i < |items| => items[i].(order := OrderAt(i)))
  }

  // A tab without an index goes last, any other where the sort order puts it.
  function Placing(items: seq<Tab>, tab: Tab): seq<Tab> {
    if tab.order <= 0.0 then items + [tab] else Insert(items, tab)
  }

  function TabOf(records: seq<Record>, times: seq<int>, p: string, i: nat): Tab
    requires i < |records| == |times|
  {
    Tab(records[i].id, p, times[i], records[i].order)
  }

  /** The tabs that restoring the first `n` records in turn gives, created at these times. */
  function RestoredTabs(records: seq<Record>, times: seq<int>, p: string, n: nat): seq<Tab>
    requires n <= |records| == |times|
  {
    if n == 0 then [] else
    Numbered(Placing(RestoredTabs(records, times, p, n - 1), TabOf(records, times, p, n - 1)))
  }

  function RestoredIds(records: seq<Record>, times: seq<int>, p: string, n: nat): seq<string>
    requires n <= |records| == |times|
  {
    Ids(RestoredTabs(records, times, p, n))
  }

  function RecordIds(records: seq<Record>, n: nat): (ids: seq<string>)
    requires n <= |records|
    ensures |ids| == n
  {
    if n == 0 then [] else RecordIds(records, n - 1) + [records[n - 1].id]
  }

  ghost predicate DistinctIds(records: seq<Record>) {
    forall i, j :: 0 <= i < j < |records| ==> records[i].id != records[j].id
  }

  ghost predicate AmongFirst(records: seq<Record>, n: nat, id: string)
    requires n <= |records|
  {
    exists k :: 0 <= k < n && records[k].id == id
  }

  /** The record has no index, or leaves more than 1000 for each record before it, or exactly that and its tab comes
      after the last of them by age or id. */
  predicate KeepsItsPlace(records: seq<Record>, times: seq<int>, i: nat)
    requires i < |records| == |times|
  {
    || i == 0 || records[i].order <= 0.0 || records[i].order > i as real * 1000.0
    || (records[i].order == i as real * 1000.0
        && (times[i - 1] < times[i] || (times[i - 1] == times[i] && Less(records[i - 1].id, records[i].id))))
  }

  // ------------------------------------------------------ where a tab goes in

  function InsertIndex(items: seq<Tab>, t: Tab): (k: nat)
    ensures k <= |items|
  {
    if items == [] || Before(t, items[0]) then 0 else 1 + InsertIndex(items[1..], t)
  }

  lemma {:induction false} InsertIs(items: seq<Tab>, t: Tab)
    ensures Insert(items, t) == items[..InsertIndex(items, t)] + [t] + items[InsertIndex(items, t)..]
  {
    if items == [] || Before(t, items[0]) {
      assert items[..0] + [t] + items[0..] == [t] + items;
    } else {
      InsertIs(items[1..], t);
      ConsInserted(items, InsertIndex(items[1..], t), t);
    }
  }

  lemma ConsInserted(items: seq<Tab>, k: nat, t: Tab)
    requires items != [] && k < |items|
    ensures [items[0]] + (items[1..][..k] + [t] + items[1..][k..]) == items[..k + 1] + [t] + items[k + 1..]
  {
    assert items[..k + 1] == [items[0]] + items[1..][..k] && items[k + 1..] == items[1..][k..];
  }

  lemma InsertIds(items: seq<Tab>, t: Tab)
    ensures Ids(Insert(items, t)) == InsertAt(Ids(items), InsertIndex(items, t), t.id)
  {
    InsertIs(items, t);
  }

  lemma {:induction false} InsertLastIff(items: seq<Tab>, t: Tab)
    requires Ascending(items)
    ensures InsertIndex(items, t) == |items| <==> items == [] || !Before(t, items[|items| - 1])
  {
    if items != [] {
      AscendingTail(items);
      InsertLastIff(items[1..], t);
      if Before(t, items[0]) && |items| > 1 {
        assert Before(items[0], items[|items| - 1]);
        BeforeTransitive(t, items[0], items[|items| - 1]);
      }
    }
  }

  lemma InsertAtLast(ids: seq<string>, i: nat, id: string, target: seq<string>)
    requires i <= |ids| && id !in ids && |target| == |ids| && id !in target
    ensures InsertAt(ids, i, id) == target + [id] <==> ids == target && i == |ids|
  {
    var all := InsertAt(ids, i, id);
    assert all[i] == id;
    if i < |ids| {
      assert (target + [id])[i] == target[i] && target[i] in target;
    } else {
      assert all[..|ids|] == ids && (target + [id])[..|ids|] == target && all == ids + [id];
    }
  }

  lemma NumberedAscends(items: seq<Tab>)
    ensures Ascending(Numbered(items))
  {
  }

  lemma PlacingIds(items: seq<Tab>, tab: Tab)
    ensures Ids(Placing(items, tab))
         == InsertAt(Ids(items), if tab.order <= 0.0 then |items| else InsertIndex(items, tab), tab.id)
  {
    if tab.order <= 0.0 {
      assert Ids(items + [tab]) == Ids(items) + [tab.id];
      assert InsertAt(Ids(items), |items|, tab.id) == Ids(items) + [tab.id];
    } else {
      InsertIds(items, tab);
    }
  }

  // -------------------------------------------------------- the restored list

  lemma {:induction false} RecordIdsMembers(records: seq<Record>, n: nat)
    requires n <= |records|
    ensures forall x :: x in RecordIds(records, n) <==> AmongFirst(records, n, x)
  {
    if n > 0 { RecordIdsMembers(records, n - 1); }
  }

  lemma {:induction false} RecordIdsDistinct(records: seq<Record>, n: nat)
    requires n <= |records| && DistinctIds(records)
    ensures Distinct(RecordIds(records, n))
  {
    if n > 0 {
      RecordIdsDistinct(records, n - 1);
      RecordIdsMembers(records, n - 1);
      NotAmongEarlier(records, n - 1);
    }
  }

  // The place of record `n` among the restored ones before it.
  function PlaceOf(records: seq<Record>, times: seq<int>, p: string, n: nat): nat
    requires n < |records| == |times|
  {
    var items, tab := RestoredTabs(records, times, p, n), TabOf(records, times, p, n);
    if tab.order <= 0.0 then |items| else InsertIndex(items, tab)
  }

  lemma RestoredIdsNext(records: seq<Record>, times: seq<int>, p: string, n: nat)
    requires n < |records| == |times|
    ensures PlaceOf(records, times, p, n) <= |RestoredIds(records, times, p, n)|
    ensures RestoredIds(records, times, p, n + 1)
         == InsertAt(RestoredIds(records, times, p, n), PlaceOf(records, times, p, n), records[n].id)
  {
    PlacingIds(RestoredTabs(records, times, p, n), TabOf(records, times, p, n));
  }

  // The ids of the first `n` records in some order.
  ghost predicate IdsOfFirst(ids: seq<string>, records: seq<Record>, n: nat)
    requires n <= |records|
  {
    |ids| == n && Distinct(ids) && forall x :: x in ids <==> AmongFirst(records, n, x)
  }

  lemma OneMoreId(ids: seq<string>, records: seq<Record>, n: nat, i: nat)
    requires n < |records| && DistinctIds(records) && IdsOfFirst(ids, records, n) && i <= |ids|
    ensures IdsOfFirst(InsertAt(ids, i, records[n].id), records, n + 1)
  {
    NotAmongEarlier(records, n);
    InsertAtMembers(ids, i, records[n].id);
    AmongOneMore(records, n);
  }

  // Induction along a list of lists, each with one more record inserted.
  lemma {:induction false} IdsOfAll(lists: seq<seq<string>>, places: seq<nat>, records: seq<Record>, n: nat)
    requires n < |lists| == |places| + 1 == |records| + 1 && DistinctIds(records) && lists[0] == []
    requires forall k :: 0 <= k < |records| ==> Inserted(lists, places, records, k)
    ensures IdsOfFirst(lists[n], records, n)
  {
    if n > 0 {
      IdsOfAll(lists, places, records, n - 1);
      assert Inserted(lists, places, records, n - 1);
      OneMoreId(lists[n - 1], records, n - 1, places[n - 1]);
    }
  }

  ghost predicate Inserted(lists: seq<seq<string>>, places: seq<nat>, records: seq<Record>, k: nat)
    requires k < |records| && |lists| == |places| + 1 == |records| + 1
  {
    places[k] <= |lists[k]| && lists[k + 1] == InsertAt(lists[k], places[k], records[k].id)
  }

  function Lists(records: seq<Record>, times: seq<int>, p: string): (lists: seq<seq<string>>)
    requires |records| == |times|
    ensures |lists| == |records| + 1
  {
    seq(|records| + 1, k requires 0 <= k <= |records| => RestoredIds(records, times, p, k))
  }

  function Places(records: seq<Record>, times: seq<int>, p: string): (places: seq<nat>)
    requires |records| == |times|
    ensures |places| == |records|
  {
    seq(|records|, k requires 0 <= k < |records| => PlaceOf(records, times, p, k))
  }

  lemma ListsInserted(records: seq<Record>, times: seq<int>, p: string, k: nat)
    requires k < |records| == |times|
    ensures Inserted(Lists(records, times, p), Places(records, times, p), records, k)
  {
    RestoredIdsNext(records, times, p, k);
  }

  lemma RestoredMembers(records: seq<Record>, times: seq<int>, p: string, n: nat)
    requires n <= |records| == |times| && DistinctIds(records)
    ensures IdsOfFirst(RestoredIds(records, times, p, n), records, n)
  {
    var lists, places := Lists(records, times, p), Places(records, times, p);
    forall k | 0 <= k < |records| ensures Inserted(lists, places, records, k) { ListsInserted(records, times, p, k); }
    IdsOfAll(lists, places, records, n);
  }

  lemma NotAmongEarlier(records: seq<Record>, n: nat)
    requires n < |records| && DistinctIds(records)
    ensures !AmongFirst(records, n, records[n].id)
  {
  }

  lemma AmongOneMore(records: seq<Record>, n: nat)
    requires n < |records|
    ensures forall x :: AmongFirst(records, n + 1, x) <==> AmongFirst(records, n, x) || x == records[n].id
  {
    forall x ensures AmongFirst(records, n + 1, x) <==> AmongFirst(records, n, x) || x == records[n].id {
      assert x == records[n].id ==> AmongFirst(records, n + 1, x);
    }
  }

  // Every restored tab has the time of its record.
  ghost predicate FromRecord(t: Tab, records: seq<Record>, times: seq<int>, p: string, n: nat)
    requires n <= |records| == |times|
  {
    exists k :: 0 <= k < n && t.id == records[k].id && t.createdAt == times[k] && t.project == p
  }

  ghost predicate AllFromRecords(items: seq<Tab>, records: seq<Record>, times: seq<int>, p: string, n: nat)
    requires n <= |records| == |times|
  {
    forall t <- items :: FromRecord(t, records, times, p, n)
  }

  lemma PlacingMembers(items: seq<Tab>, tab: Tab, t: Tab)
    requires t in Placing(items, tab)
    ensures t in items || t == tab
  {
    InsertMembers(items, tab);
  }

  lemma PlacedFromRecords(items: seq<Tab>, records: seq<Record>, times: seq<int>, p: string, n: nat)
    requires n < |records| == |times| && AllFromRecords(items, records, times, p, n)
    ensures AllFromRecords(Numbered(Placing(items, TabOf(records, times, p, n))), records, times, p, n + 1)
  {
    var tab := TabOf(records, times, p, n);
    var placed := Placing(items, tab);
    forall t | t in Numbered(placed) ensures FromRecord(t, records, times, p, n + 1) {
      var i :| 0 <= i < |placed| && Numbered(placed)[i] == t;
      PlacingMembers(items, tab, placed[i]);
      if placed[i] in items {
        var k :| 0 <= k < n && placed[i].id == records[k].id && placed[i].createdAt == times[k];
        assert t.id == records[k].id && t.createdAt == times[k];
      } else {
        assert t.id == records[n].id && t.createdAt == times[n];
      }
    }
  }

  lemma {:induction false} RestoredFromRecords(records: seq<Record>, times: seq<int>, p: string, n: nat)
    requires n <= |records| == |times|
    ensures AllFromRecords(RestoredTabs(records, times, p, n), records, times, p, n)
  {
    if n > 0 {
      RestoredFromRecords(records, times, p, n - 1);
      PlacedFromRecords(RestoredTabs(records, times, p, n - 1), records, times, p, n - 1);
    }
  }

  // The last of tabs restored in record order.
  lemma LastRestored(records: seq<Record>, times: seq<int>, p: string, n: nat)
    requires 0 < n <= |records| == |times| && DistinctIds(records)
    requires RestoredIds(records, times, p, n) == RecordIds(records, n)
    ensures var items := RestoredTabs(records, times, p, n);
            |items| == n && items[n - 1] == Tab(records[n - 1].id, p, times[n - 1], n as real * 1000.0)
  {
    var items := RestoredTabs(records, times, p, n);
    RestoredMembers(records, times, p, n);
    RestoredFromRecords(records, times, p, n);
    assert items[n - 1] in items && Ids(items)[n - 1] == records[n - 1].id;
    assert FromRecord(items[n - 1], records, times, p, n);
  }

  lemma BeforeLast(records: seq<Record>, times: seq<int>, p: string, n: nat, last: Tab)
    requires 0 < n < |records| == |times| && DistinctIds(records) && records[n].order > 0.0
    requires last == Tab(records[n - 1].id, p, times[n - 1], n as real * 1000.0)
    ensures !Before(TabOf(records, times, p, n), last) <==> KeepsItsPlace(records, times, n)
  {
    LessTotal(records[n - 1].id, records[n].id);
    if Less(records[n - 1].id, records[n].id) { LessAsymmetric(records[n - 1].id, records[n].id); }
  }

  // Among tabs in record order the next record goes last exactly if it keeps its place.
  lemma PlaceIsLastIff(records: seq<Record>, times: seq<int>, p: string, n: nat)
    requires n < |records| == |times| && DistinctIds(records)
    requires RestoredIds(records, times, p, n) == RecordIds(records, n)
    ensures PlaceOf(records, times, p, n) == n <==> KeepsItsPlace(records, times, n)
  {
    var items, tab := RestoredTabs(records, times, p, n), TabOf(records, times, p, n);
    RestoredMembers(records, times, p, n);
    if tab.order > 0.0 {
      RestoredAscends(records, times, p, n);
      InsertLastIff(items, tab);
      if n > 0 {
        LastRestored(records, times, p, n);
        BeforeLast(records, times, p, n, items[n - 1]);
      }
    }
  }

  lemma RestoredAscends(records: seq<Record>, times: seq<int>, p: string, n: nat)
    requires n <= |records| == |times|
    ensures Ascending(RestoredTabs(records, times, p, n))
  {
    if n > 0 {
      NumberedAscends(Placing(RestoredTabs(records, times, p, n - 1), TabOf(records, times, p, n - 1)));
    }
  }

  // Among ids in record order the next one goes last.
  ghost predicate LastIff(lists: seq<seq<string>>, places: seq<nat>, records: seq<Record>, keeps: seq<bool>, k: nat)
    requires k < |records| == |keeps| && |lists| == |places| + 1 == |records| + 1
  {
    lists[k] == RecordIds(records, k) ==> (places[k] == k <==> keeps[k])
  }

  // Inserted one by one the ids are in record order exactly if each goes last.
  lemma {:induction false} InRecordOrderIff(lists: seq<seq<string>>, places: seq<nat>, records: seq<Record>,
                                            keeps: seq<bool>, n: nat)
    requires n < |lists| == |places| + 1 == |records| + 1 && |keeps| == |records|
    requires DistinctIds(records) && lists[0] == []
    requires forall k :: 0 <= k < |records| ==> Inserted(lists, places, records, k)
    requires forall k :: 0 <= k < |records| ==> LastIff(lists, places, records, keeps, k)
    ensures lists[n] == RecordIds(records, n) <==> forall k :: 0 <= k < n ==> keeps[k]
  {
    if n > 0 {
      InRecordOrderIff(lists, places, records, keeps, n - 1);
      IdsOfAll(lists, places, records, n - 1);
      RecordIdsMembers(records, n - 1);
      NotAmongEarlier(records, n - 1);
      assert Inserted(lists, places, records, n - 1) && LastIff(lists, places, records, keeps, n - 1);
      InsertAtLast(lists[n - 1], places[n - 1], records[n - 1].id, RecordIds(records, n - 1));
    }
  }

  function Keeps(records: seq<Record>, times: seq<int>): (keeps: seq<bool>)
    requires |records| == |times|
    ensures |keeps| == |records|
  {
    seq(|records|, k requires 0 <= k < |records| => KeepsItsPlace(records, times, k))
  }

  lemma LastAt(records: seq<Record>, times: seq<int>, p: string, k: nat)
    requires k < |records| == |times| && DistinctIds(records)
    ensures LastIff(Lists(records, times, p), Places(records, times, p), records, Keeps(records, times), k)
  {
    if RestoredIds(records, times, p, k) == RecordIds(records, k) { PlaceIsLastIff(records, times, p, k); }
  }

  /** Whatever the clock reads, the restored tabs are in the order of the records exactly when every record keeps its
      place. */
  lemma RestoreKeepsOrderIff(records: seq<Record>, times: seq<int>, p: string, n: nat)
    requires n <= |records| == |times| && DistinctIds(records)
    ensures RestoredIds(records, times, p, n) == RecordIds(records, n)
      <==> forall i | 0 <= i < n :: KeepsItsPlace(records, times, i)
  {
    var lists, places, keeps := Lists(records, times, p), Places(records, times, p), Keeps(records, times);
    forall k | 0 <= k < |records| ensures Inserted(lists, places, records, k) { ListsInserted(records, times, p, k); }
    forall k | 0 <= k < |records| ensures LastIff(lists, places, records, keeps, k) { LastAt(records, times, p, k); }
    InRecordOrderIff(lists, places, records, keeps, n);
    forall k | 0 <= k < n ensures keeps[k] <==> KeepsItsPlace(records, times, k) { }
  }

  /** Two records with the indexes 500 and 600 come back in the other order, since the first one is renumbered 1000
      before the second is placed. */
  lemma CloseIndexesSwap(first: string, second: string, times: seq<int>, p: string)
    requires |times| == 2
    ensures RestoredIds([Record(first, 500.0), Record(second, 600.0)], times, p, 2) == [second, first]
  {
    var records := [Record(first, 500.0), Record(second, 600.0)];
    var a, b := TabOf(records, times, p, 0), TabOf(records, times, p, 1);
    assert Placing([], a) == [a] && Numbered([a]) == [a.(order := 1000.0)];
    assert RestoredTabs(records, times, p, 1) == [a.(order := 1000.0)];
    assert Placing([a.(order := 1000.0)], b) == [b, a.(order := 1000.0)];
  }

  // -------------------------------------------------- indexes that leave room

  /** Strictly increasing positive multiples of 1000. */
  ghost predicate LeaveRoom(orders: seq<real>) {
    && (forall i :: 0 <= i < |orders| ==> IsMultiple(orders[i]))
    && forall i, j :: 0 <= i < j < |orders| ==> orders[i] < orders[j]
  }

  lemma {:induction false} IndexesLeaveRoom(orders: seq<real>, i: nat)
    requires LeaveRoom(orders) && i < |orders|
    ensures orders[i] >= OrderAt(i)
  {
    var k: nat :| orders[i] == OrderAt(k);
    if i > 0 {
      IndexesLeaveRoom(orders, i - 1);
      var j: nat :| orders[i - 1] == OrderAt(j);
      assert orders[i - 1] < orders[i];
      assert k > j;
    }
  }

  function Orders(records: seq<Record>): (orders: seq<real>)
    ensures |orders| == |records|
  {
    seq(|records|, i requires 0 <= i < |records| => records[i].order)
  }

  lemma {:induction false} RestoredAreNumbered(records: seq<Record>, times: seq<int>, p: string, n: nat)
    requires n <= |records| == |times|
    ensures var items := RestoredTabs(records, times, p, n);
            forall i :: 0 <= i < |items| ==> items[i].order == OrderAt(i)
  {
  }

  /** Records with strictly increasing positive multiples of 1000 as indexes are restored in their order, numbered
      1000, 2000, ..., on any clock. */
  lemma IncreasingRecordsRestoreInOrder(records: seq<Record>, times: seq<int>, p: string)
    requires |records| == |times| && DistinctIds(records) && LeaveRoom(Orders(records))
    ensures RestoredIds(records, times, p, |records|) == RecordIds(records, |records|)
    ensures forall i :: 0 <= i < |RestoredTabs(records, times, p, |records|)| ==>
              RestoredTabs(records, times, p, |records|)[i].order == OrderAt(i)
  {
    forall i | 0 <= i < |records| ensures KeepsItsPlace(records, times, i) { IndexesLeaveRoom(Orders(records), i); }
    RestoreKeepsOrderIff(records, times, p, |records|);
    RestoredAreNumbered(records, times, p, |records|);
  }

  // ----------------------------------------------- one step of a restoration

  // A stored tab is inserted among the tabs of its project.
  lemma StoredOrder(m: Tabs, tab: Tab)
    requires tab.project != "" && tab.id !in m
    ensures Order(Store(m, tab), tab.project) == Insert(Order(m, tab.project), tab)
  {
    var items := Order(m, tab.project);
    OrderSpec(m, tab.project);
    InsertMembers(items, tab);
    InsertAscending(items, tab);
    OrderIs(Insert(items, tab), Store(m, tab), tab.project);
  }
}
