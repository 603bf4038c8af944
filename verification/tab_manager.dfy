/** The terminal manager: creating, moving, closing and restoring tabs keeps every project's order indexes in step. */
module TabManager {
  import opened Sequences
  import opened Text
  import opened Wrappers
  import opened TabOrder
  import opened TabRestore
  import opened TabInvariants

  class Manager {
    var sessions: Tabs
    const maxSessionsPerProject: int

    constructor (limit: int)
      ensures sessions == map[] && maxSessionsPerProject == limit
    {
      sessions := map[];
      maxSessionsPerProject := limit;
    }

    method OrderedProjectSessions(project: string) returns (items: seq<Tab>)
      ensures items == Order(sessions, project)
    {
      items := [];
      var left := sessions.Keys;
      ghost var done: set<string> := {};
      while left != {}
        invariant left !! done && left + done == sessions.Keys
        invariant Ascending(items)
        invariant forall t <- items :: t.id in done && sessions[t.id] == t && InProject(t, project)
        invariant forall id <- done :: InProject(sessions[id], project) ==> sessions[id] in items
        decreases left
      {
        var id :| id in left;
        var tab := sessions[id];
        if InProject(tab, project) {
          InsertMembers(items, tab);
          InsertAscending(items, tab);
          items := Insert(items, tab);
        }
        left, done := left - {id}, done + {id};
      }
      OrderIs(items, sessions, project);
    }

    method CountByProject(project: string) returns (count: nat)
      requires project != ""
      ensures count == |Members(sessions, project)|
    {
      count := 0;
      var left := sessions.Keys;
      ghost var done: set<string> := {};
      while left != {}
        invariant left !! done && left + done == sessions.Keys
        invariant count == |Members(sessions, project) * done|
        decreases left
      {
        var id :| id in left;
        ghost var members := Members(sessions, project);
        if sessions[id].project == project {
          count := count + 1;
          assert members * (done + {id}) == members * done + {id};
        } else {
          assert members * (done + {id}) == members * done;
        }
        left, done := left - {id}, done + {id};
      }
      assert Members(sessions, project) * done == Members(sessions, project);
    }

    method NextSessionOrderIndex(project: string) returns (next: real)
      requires project != ""
      ensures next >= 1000.0
      ensures forall id <- sessions :: sessions[id].project == project ==> sessions[id].order <= next - 1000.0
      ensures next == 1000.0 || exists id <- sessions ::
                sessions[id].project == project && sessions[id].order == next - 1000.0
    {
      var maxOrder := 0.0;
      var left := sessions.Keys;
      while left != {}
        invariant left <= sessions.Keys && maxOrder >= 0.0
        invariant forall id | id in sessions && id !in left && sessions[id].project == project ::
                    sessions[id].order <= maxOrder
        invariant maxOrder == 0.0 || exists id | id in sessions && sessions[id].project == project ::
                    sessions[id].order == maxOrder
        decreases left
      {
        var id :| id in left;
        if sessions[id].project == project && sessions[id].order > maxOrder {
          maxOrder := sessions[id].order;
        }
        left := left - {id};
      }
      next := maxOrder + 1000.0;
    }

    // Writes the index of each tab's place, one tab at a time.
    method WriteIndexes(ids: seq<string>)
      requires Distinct(ids) && forall id <- ids :: id in sessions
      modifies this`sessions
      ensures sessions == Renumbered(old(sessions), ids)
    {
      for index := 0 to |ids|
        invariant sessions == Renumbered(old(sessions), ids[..index])
      {
        RenumberedSnoc(old(sessions), ids, index);
        sessions := sessions[ids[index] := sessions[ids[index]].(order := (index + 1) as real * 1000.0)];
      }
      assert ids[..|ids|] == ids;
    }

    method NormalizeProjectOrder(project: string)
      modifies this`sessions
      ensures Trim(project) == "" ==> sessions == old(sessions)
      ensures Trim(project) != "" ==> sessions == Renumbered(old(sessions), TabIds(old(sessions), project))
    {
      if Trim(project) == "" {
        return;
      }
      var ordered := OrderedProjectSessions(project);
      TabIdsDistinct(sessions, project);
      WriteIndexes(Ids(ordered));
    }

    method MoveSessionLocked(project: string, id: string, prev: string, next: string) returns (err: Option<Refusal>)
      requires project != ""
      modifies this`sessions
      ensures var ids := TabIds(old(sessions), project);
              && (err == Some(SessionNotFound) <==> id !in ids)
              && (err == Some(InvalidMoveTarget) <==> id in ids && Moved(ids, id, prev, next).None?)
              && (err.None? <==> id in ids && Moved(ids, id, prev, next).Some?)
              && sessions == if err.None? then Renumbered(old(sessions), Moved(ids, id, prev, next).value)
                             else old(sessions)
    {
      var ordered := OrderedProjectSessions(project);
      var ids := Ids(ordered);
      TabIdsDistinct(sessions, project);
      if id !in ids {
        return Some(SessionNotFound);
      }
      var filtered := Without(ids, id);
      var insertIndex := ResolveInsertIndex(filtered, id, prev, next);
      if insertIndex.None? {
        return Some(InvalidMoveTarget);
      }
      var reordered := filtered[..insertIndex.value] + [id] + filtered[insertIndex.value..];
      MoveMeaning(ids, id, prev, next);
      WriteIndexes(reordered);
      err := None;
    }

    /** Moves a tab within its project; a refused move changes nothing. */
    method MoveSession(project: string, sessionId: string, prev: string, next: string) returns (err: Option<Refusal>)
      requires Inv(sessions, maxSessionsPerProject)
      modifies this`sessions
      ensures Inv(sessions, maxSessionsPerProject)
      ensures err.Some? ==> sessions == old(sessions)
      ensures err == Some(SessionNotFound) <==>
                var id := Trim(sessionId);
                id == "" || id !in old(sessions) || (project != "" && old(sessions)[id].project != project)
      ensures err.None? ==>
                var id := Trim(sessionId);
                && id in old(sessions)
                && var p := old(sessions)[id].project;
                   && Moved(TabIds(old(sessions), p), id, prev, next) == Some(TabIds(sessions, p))
                   && Normalized(sessions, p)
                   && forall other | other != p && other != "" ::
                        TabIds(sessions, other) == TabIds(old(sessions), other)
    {
      var id := Trim(sessionId);
      if id == "" || id !in sessions {
        return Some(SessionNotFound);
      }
      var p := sessions[id].project;
      if project != "" && project != p {
        return Some(SessionNotFound);
      }
      ghost var before, ids := sessions, TabIds(sessions, p);
      TabIdsDistinct(before, p);
      err := MoveSessionLocked(p, id, prev, next);
      if err.None? {
        MoveMeaning(ids, id, prev, next);
        ghost var ids' := Moved(ids, id, prev, next).value;
        RenumberedOrder(before, p, ids');
        RenumberedInv(before, p, ids', maxSessionsPerProject);
        forall other | other != p && other != "" ensures TabIds(sessions, other) == TabIds(before, other) {
          RenumberedElsewhere(before, p, ids', other);
        }
      }
    }

    /** Adds a tab by its index (or last, when it has none), or right after another tab of the project. */
    method AddSession(session: Tab, insertAfter: string) returns (err: Option<Refusal>)
      requires Inv(sessions, maxSessionsPerProject) && session.project != ""
      modifies this`sessions
      ensures Inv(sessions, maxSessionsPerProject)
      ensures err == (if maxSessionsPerProject > 0
                         && |Members(old(sessions), session.project)| >= maxSessionsPerProject
                      then Some(SessionLimitReached) else None)
      ensures err.Some? ==> sessions == old(sessions)
      ensures err.None? ==> Added(old(sessions), session, insertAfter, sessions)
    {
      var p, id := session.project, session.id;
      if maxSessionsPerProject > 0 {
        var count := CountByProject(p);
        if count >= maxSessionsPerProject {
          return Some(SessionLimitReached);
        }
      }
      var tab := session;
      if tab.order <= 0.0 {
        var next := NextSessionOrderIndex(p);
        tab := tab.(order := next);
        if id !in sessions { AppendedOrder(sessions, tab); }
      }
      ghost var before := sessions;
      StoreAndPlace(tab, insertAfter);
      PlacedKeepsInv(before, tab, insertAfter, sessions, maxSessionsPerProject);
      PlacedTabs(before, tab, insertAfter, sessions);
      if Named(p) { PlacedOrder(before, tab, insertAfter, sessions); }
      if id !in before { PlacedElsewhere(before, tab, insertAfter, sessions); }
      err := None;
    }

    // Closes tabs of one project, in turn.
    method CloseAll(project: string, ids: seq<string>)
      requires Inv(sessions, maxSessionsPerProject) && Distinct(ids) && project != ""
      requires forall id :: id in ids <==> id in TabIds(sessions, project)
      modifies this`sessions
      ensures Inv(sessions, maxSessionsPerProject)
      ensures TabIds(sessions, project) == []
    {
      for k := 0 to |ids|
        invariant Inv(sessions, maxSessionsPerProject)
        invariant forall id :: id in ids[k..] <==> id in TabIds(sessions, project)
      {
        TabIdsDistinct(sessions, project);
        WithoutMembers(TabIds(sessions, project), ids[k]);
        DistinctSuffix(ids, k);
        CloseSession(ids[k]);
      }
      FirstIsMember(TabIds(sessions, project));
    }

    // Creates the tab of record `i` after those of the records before it, or closes all of those.
    method RestoreOne(p: string, records: seq<Record>, times: seq<int>, i: nat, created: seq<string>,
                      starts: set<string>, ghost before: Tabs)
      returns (done: bool)
      requires Inv(sessions, maxSessionsPerProject) && Named(p) && DistinctIds(records) && NoneLive(records, before)
      requires |times| == |records| && i < |records| && created == RecordIds(records, i)
      requires i < |records| && RestoredUpTo(sessions, before, p, records, times, i)
      modifies this`sessions
      ensures Inv(sessions, maxSessionsPerProject)
      ensures done <==> records[i].id in starts && (maxSessionsPerProject > 0 ==> i < maxSessionsPerProject)
      ensures AllStart(records, i + 1, starts) <==> AllStart(records, i, starts) && records[i].id in starts
      ensures AllStart(records, |records|, starts) ==> records[i].id in starts
      ensures if done then RestoredUpTo(sessions, before, p, records, times, i + 1) else NoTabs(sessions, p)
    {
      var tab := TabOf(records, times, p, i);
      ghost var middle := sessions;
      NotYetRestored(records, i, middle, before);
      AllStartStep(records, i, starts);
      RestoredCount(middle, p, records, times, i);
      var err := CreateSession(tab, "", tab.id in starts);
      done := err.None?;
      if done {
        RestoredNext(middle, sessions, before, p, records, times, i);
      } else {
        RestoreUndone(middle, tab, sessions, err.value);
        RestoredMembers(records, times, p, i);
        RecordIdsMembers(records, i);
        RecordIdsDistinct(records, i);
        CloseAll(p, created);
      }
    }

    method RestoreAll(p: string, records: seq<Record>, times: seq<int>, starts: set<string>)
      returns (done: bool, created: seq<string>)
      requires Inv(sessions, maxSessionsPerProject) && Named(p) && NoTabs(sessions, p)
      requires DistinctIds(records) && NoneLive(records, sessions)
      requires |times| == |records|
      modifies this`sessions
      ensures Inv(sessions, maxSessionsPerProject)
      ensures done <==> AllStart(records, |records|, starts)
                        && (maxSessionsPerProject > 0 ==> |records| <= maxSessionsPerProject)
      ensures if done then RestoredUpTo(sessions, old(sessions), p, records, times, |records|) else NoTabs(sessions, p)
      ensures done ==> created == RecordIds(records, |records|)
    {
      ghost var before := sessions;
      NothingRestored(before, p, records, times);
      created := [];
      for i := 0 to |records|
        invariant Inv(sessions, maxSessionsPerProject) && RestoredUpTo(sessions, before, p, records, times, i)
        invariant AllStart(records, i, starts) && created == RecordIds(records, i)
        invariant maxSessionsPerProject > 0 ==> i <= maxSessionsPerProject
      {
        done := RestoreOne(p, records, times, i, created, starts, before);
        if !done {
          return;
        }
        created := created + [records[i].id];
      }
      done := true;
    }

    /** The tabs of these ids as they are now. */
    method Snapshots(ids: seq<string>) returns (tabs: seq<Tab>)
      requires forall id <- ids :: id in sessions
      ensures |tabs| == |ids| && forall i :: 0 <= i < |ids| ==> tabs[i] == sessions[ids[i]]
    {
      tabs := [];
      for i := 0 to |ids|
        invariant |tabs| == i && forall j :: 0 <= j < i ==> tabs[j] == sessions[ids[j]]
      {
        tabs := tabs + [sessions[ids[i]]];
      }
    }

    /** Restores a project's saved tabs one after another, unless it has live ones already. When one cannot be created
        those created before it are closed again. The restored tabs are returned in the order of the records, as they
        are once all of them are there; live ones in the order they have. */
    method RestoreProjectSessions(projectId: string, records: seq<Record>, times: seq<int>, starts: set<string>)
      returns (live: Option<seq<Tab>>)
      requires Inv(sessions, maxSessionsPerProject)
      requires DistinctIds(records) && NoneLive(records, sessions)
      requires |times| == |records|
      modifies this`sessions
      ensures Inv(sessions, maxSessionsPerProject)
      ensures var p := Trim(projectId);
              if p == "" || TabIds(old(sessions), p) != [] then sessions == old(sessions)
              else if AllStart(records, |records|, starts)
                      && (maxSessionsPerProject > 0 ==> |records| <= maxSessionsPerProject)
              then Order(sessions, p) == RestoredTabs(records, times, p, |records|)
              else TabIds(sessions, p) == []
      ensures var p := Trim(projectId);
              if p == "" then live == None
              else if TabIds(old(sessions), p) != [] then live == Some(Order(sessions, p))
              else if AllStart(records, |records|, starts)
                      && (maxSessionsPerProject > 0 ==> |records| <= maxSessionsPerProject)
              then live.Some? && InRecordOrder(live.value, records, sessions)
              else live == None
    {
      var p := Trim(projectId);
      if p == "" {
        return None;
      }
      TrimIdempotent(projectId);
      var items := OrderedProjectSessions(p);
      if items != [] {
        assert TabIds(sessions, p)[0] == items[0].id;
        return Some(items);
      }
      var done, created := RestoreAll(p, records, times, starts);
      if !done {
        return None;
      }
      RestoredAreLive(sessions, p, records, times);
      var snapshots := Snapshots(created);
      live := Some(snapshots);
    }

    // Stores a tab, moves it behind the requested one if there is one, and renumbers the project.
    method StoreAndPlace(tab: Tab, insertAfter: string)
      requires tab.project != ""
      modifies this`sessions
      ensures IsPlacement(old(sessions), tab, insertAfter, sessions)
    {
      var p, id := tab.project, tab.id;
      sessions := sessions[id := tab];
      ghost var stored, ids := sessions, TabIds(sessions, p);
      ghost var placed := Placed(ids, id, insertAfter);
      TabIdsDistinct(stored, p);
      PlacedMembers(stored, p, id, insertAfter);
      RenumberedOrder(stored, p, placed);
      if Trim(insertAfter) != "" {
        var err := MoveSessionLocked(p, id, insertAfter, "");
        if err.Some? && err != Some(InvalidMoveTarget) {
          assert false;
        }
      }
      ghost var moved := sessions;
      NormalizeProjectOrder(p);
      if moved == stored { assert Named(p) ==> placed == ids || sessions == stored; }
      RenumberedTwice(stored, placed);
    }

    /** Adds a tab and starts its process; when that fails the tab is dropped again without renumbering. */
    method CreateSession(session: Tab, insertAfter: string, starts: bool) returns (err: Option<Refusal>)
      requires Inv(sessions, maxSessionsPerProject) && session.project != ""
      modifies this`sessions
      ensures Inv(sessions, maxSessionsPerProject)
      ensures err == (if maxSessionsPerProject > 0
                         && |Members(old(sessions), session.project)| >= maxSessionsPerProject
                      then Some(SessionLimitReached) else if starts then None else Some(StartFailed))
      ensures err == Some(SessionLimitReached) ==> sessions == old(sessions)
      ensures err.None? ==> Added(old(sessions), session, insertAfter, sessions)
      ensures err == Some(StartFailed) ==>
                exists added: Tabs ::
                  Added(old(sessions), session, insertAfter, added) && sessions == added - {session.id}
    {
      err := AddSession(session, insertAfter);
      if err.Some? {
        return;
      }
      if !starts {
        DropSession(session.id);
        err := Some(StartFailed);
      }
    }

    /** The clean-up of a failed start: a step of its own, without the lock, in any state the other calls may have led
        to in between; it leaves the indexes of the others as they are. */
    method DropSession(id: string)
      requires Inv(sessions, maxSessionsPerProject)
      modifies this`sessions
      ensures Inv(sessions, maxSessionsPerProject) && sessions == old(sessions) - {id}
      ensures forall p :: TabIds(sessions, p) == Without(TabIds(old(sessions), p), id)
    {
      ForgetKeepsInv(sessions, id, maxSessionsPerProject);
      forall p ensures TabIds(sessions - {id}, p) == Without(TabIds(sessions, p), id) { ForgetOrder(sessions, id, p); }
      sessions := sessions - {id};
    }

    /** Closing a tab removes it and renumbers the rest of its project. */
    method CloseSession(id: string)
      requires Inv(sessions, maxSessionsPerProject) && id in sessions
      modifies this`sessions
      ensures Inv(sessions, maxSessionsPerProject)
      ensures sessions.Keys == old(sessions).Keys - {id}
      ensures var p := old(sessions)[id].project;
              && TabIds(sessions, p) == Without(TabIds(old(sessions), p), id)
              && (Named(p) ==> Normalized(sessions, p))
              && forall other | other != p && other != "" :: TabIds(sessions, other) == TabIds(old(sessions), other)
    {
      var p := sessions[id].project;
      ghost var before := sessions;
      sessions := sessions - {id};
      ghost var after := sessions;
      ForgetKeepsInv(before, id, maxSessionsPerProject);
      ForgetOrder(before, id, p);
      TabIdsDistinct(after, p);
      NormalizeProjectOrder(p);
      if Named(p) {
        RenumberedOrder(after, p, TabIds(after, p));
        RenumberedInv(after, p, TabIds(after, p), maxSessionsPerProject);
      }
      forall other | other != p && other != "" ensures TabIds(sessions, other) == TabIds(before, other) {
        ForgetElsewhere(before, id, other);
        if Named(p) { RenumberedElsewhere(after, p, TabIds(after, p), other); }
      }
    }
  }
}
