/** The branch of a Pi session's history that its last entry belongs to. */
module PiHistory {
  import opened Sequences
  import opened Wrappers
  import opened Text

  datatype Entry = Entry(id: string, parent: Option<string>, content: string)

  // A later entry with the same id replaces an earlier one.
  function ById(entries: seq<Entry>): map<string, Entry> {
    if entries == [] then map[] else
    ById(entries[..|entries| - 1])[entries[|entries| - 1].id := entries[|entries| - 1]]
  }

  /** The entry that another one names as its parent, if it does and there is one. */
  function Parent(byId: map<string, Entry>, e: Entry): Option<Entry> {
    if e.parent.None? || Trim(e.parent.value) == "" || e.parent.value !in byId then None else Some(byId[e.parent.value])
  }

  function Up(byId: map<string, Entry>): Entry -> Option<Entry> {
    e => Parent(byId, e)
  }

  ghost predicate OnPath(path: seq<Entry>, e: Entry) {
    exists k :: 0 <= k < |path| && path[k].id == e.id
  }

  ghost predicate DistinctIds(path: seq<Entry>) {
    forall i, j :: 0 <= i < j < |path| ==> path[i].id != path[j].id
  }

  /** The walk towards the root stops at an entry without a parent, or whose parent is on the path already. */
  ghost predicate Stops(up: Entry -> Option<Entry>, path: seq<Entry>, e: Entry) {
    up(e).Some? ==> OnPath(path, up(e).value)
  }

  /** From the oldest ancestor that can be reached to the leaf, each entry the parent of the next, none twice. */
  ghost predicate IsActivePath(path: seq<Entry>, up: Entry -> Option<Entry>, leaf: Entry) {
    && path != [] && path[|path| - 1] == leaf
    && DistinctIds(path)
    && (forall i :: 0 < i < |path| ==> up(path[i]) == Some(path[i - 1]))
    && Stops(up, path, path[0])
  }

  function Reversed(s: seq<Entry>): (r: seq<Entry>)
    ensures |r| == |s|
  {
    if s == [] then [] else Reversed(s[1..]) + [s[0]]
  }

  lemma {:induction false} ReversedAt(s: seq<Entry>, k: nat)
    requires k < |s|
    ensures Reversed(s)[k] == s[|s| - 1 - k]
  {
    if k < |s| - 1 { ReversedAt(s[1..], k); }
  }

  method ActivePath(entries: seq<Entry>) returns (path: seq<Entry>)
    ensures entries == [] ==> path == []
    ensures entries != [] ==> IsActivePath(path, Up(ById(entries)), entries[|entries| - 1])
  {
    if entries == [] {
      return [];
    }
    var byId := IndexById(entries);
    ByIdKeys(entries);
    var leaf := entries[|entries| - 1];
    forall id | id in byId ensures byId[id].id == id { ByIdEntry(entries, id); }
    var walked := Walk(byId, leaf);
    var buffer := new Entry[|walked|](i requires 0 <= i < |walked| => walked[i]);
    assert buffer[..] == walked;
    ReverseInPlace(buffer);
    path := buffer[..];
    ReversedClimb(walked, Up(byId), leaf);
  }

  ghost predicate Seen(seen: set<string>, walked: seq<Entry>) {
    forall id :: id in seen <==> exists k :: 0 <= k < |walked| && walked[k].id == id
  }

  /** From the leaf upwards, until there is no parent or it has been seen. */
  method Walk(byId: map<string, Entry>, leaf: Entry) returns (walked: seq<Entry>)
    requires leaf.id in byId && forall id <- byId :: byId[id].id == id
    ensures Climbs(walked, Up(byId), leaf) && DistinctIds(walked)
    ensures walked != [] && Stops(Up(byId), walked, walked[|walked| - 1])
  {
    ghost var up := Up(byId);
    walked := [];
    var seen: set<string> := {};
    var current := Some(leaf);
    while current.Some?
      invariant Seen(seen, walked)
      invariant Climbs(walked, up, leaf) && DistinctIds(walked)
      invariant current.Some? ==> current.value.id in byId
      invariant if walked == [] then current == Some(leaf) else current == up(walked[|walked| - 1])
      decreases |byId.Keys - seen|
    {
      var e := current.value;
      if e.id in seen {
        break;
      }
      FewerLeft(byId.Keys, seen, e.id);
      SeenOneMore(seen, walked, e);
      ClimbOneMore(walked, up, leaf, e);
      seen := seen + {e.id};
      walked := walked + [e];
      current := ParentOf(byId, e);
    }
    StopsThere(seen, walked, up, current);
  }

  method ParentOf(byId: map<string, Entry>, e: Entry) returns (parent: Option<Entry>)
    requires forall id <- byId :: byId[id].id == id
    ensures parent == Up(byId)(e)
    ensures parent.Some? ==> parent.value.id in byId
  {
    if e.parent.None? || Trim(e.parent.value) == "" {
      return None;
    }
    parent := if e.parent.value in byId then Some(byId[e.parent.value]) else None;
  }

  lemma StopsThere(seen: set<string>, walked: seq<Entry>, up: Entry -> Option<Entry>, current: Option<Entry>)
    requires walked != [] && Seen(seen, walked) && current == up(walked[|walked| - 1])
    requires current.Some? ==> current.value.id in seen
    ensures Stops(up, walked, walked[|walked| - 1])
  {
  }

  lemma SeenOneMore(seen: set<string>, walked: seq<Entry>, e: Entry)
    requires Seen(seen, walked) && DistinctIds(walked) && e.id !in seen
    ensures Seen(seen + {e.id}, walked + [e]) && DistinctIds(walked + [e])
  {
    var more := walked + [e];
    forall id | id in seen + {e.id} ensures exists k :: 0 <= k < |more| && more[k].id == id {
      if id == e.id {
        assert more[|walked|].id == id;
      } else {
        var k :| 0 <= k < |walked| && walked[k].id == id;
        assert more[k].id == id;
      }
    }
    forall k | 0 <= k < |walked| ensures walked[k].id in seen { }
  }

  lemma ClimbOneMore(walked: seq<Entry>, up: Entry -> Option<Entry>, leaf: Entry, e: Entry)
    requires Climbs(walked, up, leaf)
    requires if walked == [] then e == leaf else Some(e) == up(walked[|walked| - 1])
    ensures Climbs(walked + [e], up, leaf)
  {
  }

  method IndexById(entries: seq<Entry>) returns (byId: map<string, Entry>)
    ensures byId == ById(entries)
  {
    byId := map[];
    for i := 0 to |entries|
      invariant byId == ById(entries[..i])
    {
      assert entries[..i + 1][..i] == entries[..i];
      byId := byId[entries[i].id := entries[i]];
    }
    assert entries[..|entries|] == entries;
  }

  method ReverseInPlace(a: array<Entry>)
    modifies a
    ensures a[..] == Reversed(old(a[..]))
  {
    var left, right := 0, a.Length - 1;
    while left < right
      invariant 0 <= left && right == a.Length - 1 - left && left <= right + 1
      invariant forall k :: 0 <= k < left || right < k < a.Length ==> a[k] == old(a[a.Length - 1 - k])
      invariant forall k :: left <= k <= right ==> a[k] == old(a[k])
    {
      a[left], a[right] := a[right], a[left];
      left, right := left + 1, right - 1;
    }
    ghost var was := old(a[..]);
    forall k | 0 <= k < a.Length ensures a[k] == Reversed(was)[k] { ReversedAt(was, k); }
  }

  // The walk, leaf first.
  ghost predicate Climbs(walked: seq<Entry>, up: Entry -> Option<Entry>, leaf: Entry) {
    && (walked != [] ==> walked[0] == leaf)
    && forall i :: 0 < i < |walked| ==> up(walked[i - 1]) == Some(walked[i])
  }

  lemma ReversedClimb(walked: seq<Entry>, up: Entry -> Option<Entry>, leaf: Entry)
    requires walked != [] && Climbs(walked, up, leaf) && DistinctIds(walked)
    requires Stops(up, walked, walked[|walked| - 1])
    ensures IsActivePath(Reversed(walked), up, leaf)
  {
    ReversedAt(walked, 0);
    ReversedAt(walked, |walked| - 1);
    ReversedParents(walked, up, leaf);
    ReversedDistinct(walked);
    ReversedStops(walked, up, walked[|walked| - 1]);
  }

  lemma ReversedParents(walked: seq<Entry>, up: Entry -> Option<Entry>, leaf: Entry)
    requires Climbs(walked, up, leaf)
    ensures forall i :: 0 < i < |walked| ==> up(Reversed(walked)[i]) == Some(Reversed(walked)[i - 1])
  {
    forall i | 0 < i < |walked| ensures up(Reversed(walked)[i]) == Some(Reversed(walked)[i - 1]) {
      ReversedAt(walked, i);
      ReversedAt(walked, i - 1);
    }
  }

  lemma ReversedDistinct(walked: seq<Entry>)
    requires DistinctIds(walked)
    ensures DistinctIds(Reversed(walked))
  {
    forall i, j | 0 <= i < j < |walked| ensures Reversed(walked)[i].id != Reversed(walked)[j].id {
      ReversedAt(walked, i);
      ReversedAt(walked, j);
    }
  }

  lemma ReversedStops(walked: seq<Entry>, up: Entry -> Option<Entry>, e: Entry)
    requires Stops(up, walked, e)
    ensures Stops(up, Reversed(walked), e)
  {
    if up(e).Some? {
      var k :| 0 <= k < |walked| && walked[k].id == up(e).value.id;
      ReversedAt(walked, |walked| - 1 - k);
    }
  }

  lemma FewerLeft(all: set<string>, seen: set<string>, id: string)
    requires id in all && id !in seen
    ensures |all - (seen + {id})| < |all - seen|
  {
    assert all - seen == (all - (seen + {id})) + {id};
  }

  lemma {:induction false} ByIdKeys(entries: seq<Entry>)
    ensures forall e <- entries :: e.id in ById(entries)
    ensures entries != [] ==> ById(entries)[entries[|entries| - 1].id] == entries[|entries| - 1]
  {
    if entries != [] {
      ByIdKeys(entries[..|entries| - 1]);
      SplitAt(entries, |entries| - 1);
    }
  }

  lemma {:induction false} ByIdEntry(entries: seq<Entry>, id: string)
    requires id in ById(entries)
    ensures ById(entries)[id].id == id && ById(entries)[id] in entries
  {
    if id != entries[|entries| - 1].id { ByIdEntry(entries[..|entries| - 1], id); }
  }

  /** The entry found by an id is the last one that has it. */
  lemma {:induction false} ByIdIsLast(entries: seq<Entry>, k: nat)
    requires k < |entries| && forall j :: k < j < |entries| ==> entries[j].id != entries[k].id
    ensures entries[k].id in ById(entries) && ById(entries)[entries[k].id] == entries[k]
  {
    var init := entries[..|entries| - 1];
    if k < |init| {
      forall j | k < j < |init| ensures init[j].id != init[k].id { assert init[j] == entries[j]; }
      ByIdIsLast(init, k);
      assert entries[|entries| - 1].id != entries[k].id;
    }
  }

  lemma {:induction false} ByIdMembers(entries: seq<Entry>, id: string)
    ensures id in ById(entries) <==> exists k :: 0 <= k < |entries| && entries[k].id == id
  {
    if entries != [] {
      var init := entries[..|entries| - 1];
      ByIdMembers(init, id);
      if k :| 0 <= k < |entries| && entries[k].id == id { assert k < |init| ==> init[k].id == id; }
    }
  }

  /** It names no parent, or a blank, or an id that no entry has. */
  ghost predicate NamesNobody(entries: seq<Entry>, e: Entry) {
    || e.parent.None? || Trim(e.parent.value) == ""
    || forall j :: 0 <= j < |entries| ==> entries[j].id != e.parent.value
  }

  /** The parent of an entry is the last entry with the id it names; there is none if it names nobody. */
  lemma ParentIs(entries: seq<Entry>, e: Entry, k: nat)
    requires k < |entries| && forall j :: k < j < |entries| ==> entries[j].id != entries[k].id
    ensures e.parent == Some(entries[k].id) && Trim(entries[k].id) != "" ==>
      Up(ById(entries))(e) == Some(entries[k])
    ensures NamesNobody(entries, e) ==> Up(ById(entries))(e) == None
  {
    ByIdIsLast(entries, k);
    if e.parent.Some? { ByIdMembers(entries, e.parent.value); }
  }

  ghost predicate NamesAt(entries: seq<Entry>, path: seq<Entry>, i: nat)
    requires 0 < i < |path|
  {
    path[i].parent == Some(path[i - 1].id) && path[i - 1] in entries
  }

  /** Along the path each entry names the one before it as its parent; the first one names nobody, or an id that is on
      the path. */
  lemma PathFollowsParents(entries: seq<Entry>, path: seq<Entry>, leaf: Entry)
    requires IsActivePath(path, Up(ById(entries)), leaf)
    ensures forall i :: 0 < i < |path| ==> NamesAt(entries, path, i)
    ensures NamesNobody(entries, path[0]) || exists k :: 0 <= k < |path| && path[k].id == path[0].parent.value
  {
    forall i | 0 < i < |path| ensures NamesAt(entries, path, i) {
      assert Up(ById(entries))(path[i]) == Some(path[i - 1]);
      ByIdEntry(entries, path[i].parent.value);
    }
    if path[0].parent.Some? && Trim(path[0].parent.value) != "" {
      ByIdMembers(entries, path[0].parent.value);
      if path[0].parent.value in ById(entries) { ByIdEntry(entries, path[0].parent.value); }
    }
  }

  // -------------------------------------------------------------- uniqueness

  /** Two active paths agree as far as both go, counted from the leaf. */
  lemma {:induction false} SuffixesAgree(a: seq<Entry>, b: seq<Entry>, up: Entry -> Option<Entry>, leaf: Entry, k: nat)
    requires IsActivePath(a, up, leaf) && IsActivePath(b, up, leaf) && k < |a| && k < |b|
    ensures a[|a| - 1 - k] == b[|b| - 1 - k]
  {
    if k > 0 {
      SuffixesAgree(a, b, up, leaf, k - 1);
      assert up(a[|a| - k]) == Some(a[|a| - 1 - k]) && up(b[|b| - k]) == Some(b[|b| - 1 - k]);
    }
  }

  // A path cannot go on beyond one that has stopped.
  lemma NotLonger(a: seq<Entry>, b: seq<Entry>, up: Entry -> Option<Entry>, leaf: Entry)
    requires IsActivePath(a, up, leaf) && IsActivePath(b, up, leaf)
    ensures |b| <= |a|
  {
    if |b| > |a| {
      var n := |b| - |a|;
      SuffixesAgree(a, b, up, leaf, |a| - 1);
      var k :| 0 <= k < |a| && a[k].id == b[n - 1].id;
      SuffixesAgree(a, b, up, leaf, |a| - 1 - k);
      assert false;
    }
  }

  /** The requirements leave no choice, with cycles, repeated ids and missing parents too. */
  lemma ActivePathIsUnique(a: seq<Entry>, b: seq<Entry>, up: Entry -> Option<Entry>, leaf: Entry)
    requires IsActivePath(a, up, leaf) && IsActivePath(b, up, leaf)
    ensures a == b
  {
    NotLonger(a, b, up, leaf);
    NotLonger(b, a, up, leaf);
    forall i | 0 <= i < |a| ensures a[i] == b[i] { SuffixesAgree(a, b, up, leaf, |a| - 1 - i); }
  }
}
