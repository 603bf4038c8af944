/** The quick-input part of the configuration database: every write goes to the table, then to the copy in memory. */
module QuickStore {
  import opened Sequences
  import opened Wrappers
  import opened Text
  import opened RecentLists
  import opened QuickInput
  import opened QuickConfig
  import opened QuickTable

  datatype StoreError = ReadOnlyStore | DatabaseFailed

  /** What the database does to a call: commit and read, refuse to commit, or fail to read after committing. */
  datatype Fault = NoFault | WriteFails | ReadFails

  datatype View = View(pinned: seq<string>, globalRecent: seq<string>, project: string, projectRecent: seq<string>)

  class Store {
    const readOnly: bool
    var rows: seq<Row>
    var nextId: nat
    var pinnedRow: seq<string>
    // The copy in memory.
    var pinned: seq<string>
    var recent: seq<string>
    var recentByProject: map<string, seq<string>>

    ghost predicate Valid()
      reads this
    {
      ValidTable(rows, nextId)
    }

    /** The copy in memory says what the table says. */
    ghost predicate Coherent()
      reads this
    {
      pinned == pinnedRow && Caches(rows, recent, recentByProject)
    }

    /** Opening a database that holds a table already. */
    constructor Open(readOnly: bool, rows: seq<Row>, nextId: nat, pinned: seq<string>)
      requires Ordered(rows, nextId) && Housed(rows) && Limited(rows)
      ensures Valid() && Coherent()
      ensures this.readOnly == readOnly && this.rows == rows && pinnedRow == pinned
    {
      this.readOnly, this.rows, this.nextId := readOnly, rows, nextId;
      this.pinnedRow, this.pinned, this.recent, this.recentByProject := pinned, pinned, [], map[];
      new;
      RefreshCache();
    }

    // The rows of each list, newest first; a list without rows has no entry.
    method RefreshCache()
      requires Sound(rows, nextId)
      modifies this`recent, this`recentByProject
      ensures Caches(rows, recent, recentByProject)
    {
      var global: seq<string> := [];
      var byProject: map<string, seq<string>> := map[];
      ghost var all := rows;
      GatheredAtFirst(all);
      for n := |rows| downto 0
        invariant Gathered(global, byProject, all[..n], all)
      {
        var row := rows[n];
        GatherNext(global, byProject, all, n);
        if row.scope == Global {
          global := global + [row.prompt];
        } else {
          var list := if row.project in byProject then byProject[row.project] else [];
          byProject := byProject[row.project := list + [row.prompt]];
        }
      }
      GatheredAtLast(global, byProject, all);
      recent := global;
      recentByProject := byProject;
    }

    // ------------------------------------------------------------ transactions

    /** A prompt moves to the head of one list, and what falls off the end is deleted. */
    method TouchRecent(scope: Scope, project: string, prompt: string)
      requires Valid() && IsList(scope, project) && prompt != "" && Trim(prompt) == prompt
      modifies this`rows, this`nextId
      ensures Valid() && Touched(rows, old(rows), scope, project, prompt)
    {
      var tx := Delete(rows, ThisPrompt(scope, project, prompt));
      tx := tx + [Row(nextId, scope, project, prompt)];
      ghost var created := tx;
      var listed := Selected(tx, scope, project);
      if |listed| > RECENT_LIMIT {
        tx := Delete(tx, TheseIds(Ids(listed[RECENT_LIMIT..])));
      }
      TouchRows(rows, nextId, scope, project, prompt, created, tx);
      rows, nextId := tx, nextId + 1;
    }

    method TouchBoth(project: string, prompt: string)
      requires Valid() && Trim(project) == project && prompt != "" && Trim(prompt) == prompt
      modifies this`rows, this`nextId
      ensures Valid() && Recorded(rows, old(rows), project, prompt)
    {
      TouchRecent(Global, "", prompt);
      ghost var between := rows;
      if project != "" {
        TouchRecent(Project, project, prompt);
      }
      BothTouched(rows, between, old(rows), project, prompt);
    }

    // The values are created last first, so that they read in their own order.
    method Insert(scope: Scope, project: string, values: seq<string>)
      requires Sound(rows, nextId) && IsList(scope, project) && Listed(rows, scope, project) == []
      modifies this`rows, this`nextId
      ensures Sound(rows, nextId)
      ensures Listed(rows, scope, project) == values
      ensures SameElsewhere(rows, old(rows), scope, project)
    {
      for index := |values| downto 0
        invariant Sound(rows, nextId) && Listed(rows, scope, project) == values[index..]
        invariant SameElsewhere(rows, old(rows), scope, project)
      {
        InsertRow(rows, nextId, scope, project, values, index);
        rows := rows + [Row(nextId, scope, project, values[index])];
        nextId := nextId + 1;
      }
    }

    method ReplaceHistory(config: Config) returns (ghost normal: Config)
      requires Sound(rows, nextId)
      modifies this`rows, this`nextId
      ensures Valid() && NormalForm(config, normal) && NormalConfig(normal) && Holds(rows, normal, {})
    {
      var normalized := NormalizeConfig(config);
      normal := normalized;
      rows := [];
      Insert(Global, "", normalized.recent);
      var projects := normalized.recentByProject.Keys;
      HoldsAtFirst(rows, normalized);
      while projects != {}
        invariant Sound(rows, nextId) && projects <= normalized.recentByProject.Keys
        invariant Holds(rows, normalized, projects)
      {
        var project :| project in projects;
        ghost var before := rows;
        Insert(Project, project, normalized.recentByProject[project]);
        HoldsOneMore(rows, before, normalized, projects, project);
        projects := projects - {project};
      }
      HoldingIsLimited(rows, normal);
    }

    // ------------------------------------------------------ what callers call

    method QuickInputView(projectID: string, fault: Fault) returns (r: Result<View, StoreError>)
      requires Valid()
      ensures r == if fault == ReadFails then Err(DatabaseFailed) else Ok(TheView(Trim(projectID)))
    {
      if fault == ReadFails {
        return Err(DatabaseFailed);
      }
      var project := Trim(projectID);
      TrimIdempotent(projectID);
      var global := Take(Listed(rows, Global, ""), RECENT_LIMIT);
      var projectRecent := [];
      if project != "" {
        projectRecent := Take(Listed(rows, Project, project), RECENT_LIMIT);
      }
      assert Normal(Listed(rows, Global, ""), RECENT_LIMIT) && Normal(Listed(rows, Project, project), RECENT_LIMIT);
      return Ok(View(pinned, global, project, projectRecent));
    }

    /** A view shows the whole lists. */
    function TheView(project: string): View
      reads this
    {
      View(pinned, Listed(rows, Global, ""), project, if project == "" then [] else Listed(rows, Project, project))
    }

    method ApplyViewToCache(view: View)
      modifies this`recent, this`recentByProject
      ensures recent == view.globalRecent
      ensures recentByProject == CachedView(old(recentByProject), view.project, view.projectRecent)
    {
      recent := view.globalRecent;
      if view.project == "" {
        return;
      }
      if view.projectRecent == [] {
        recentByProject := recentByProject - {view.project};
        return;
      }
      recentByProject := recentByProject[view.project := view.projectRecent];
    }

    /** A prompt is recorded in the global list and in its project's; the copy in memory stays coherent unless the
        read after the commit fails and a list did change. */
    method RecordQuickInput(text: string, projectID: string, fault: Fault) returns (r: Result<View, StoreError>)
      requires Valid()
      modifies this`rows, this`nextId, this`recent, this`recentByProject
      ensures Valid()
      ensures r == if readOnly then Err(ReadOnlyStore)
                   else if fault == ReadFails || (fault == WriteFails && Trim(text) != "") then Err(DatabaseFailed)
                   else Ok(TheView(Trim(projectID)))
      ensures if !readOnly && Trim(text) != "" && fault != WriteFails
              then Recorded(rows, old(rows), Trim(projectID), Trim(text)) else rows == old(rows)
      ensures r.Ok? && old(Coherent()) ==> Coherent()
      ensures r.Err? && old(Coherent()) ==> (Coherent() <==> SameLists(rows, old(rows)))
    {
      if readOnly {
        return Err(ReadOnlyStore);
      }
      var normalized := NormalizeItems([text], RECENT_LIMIT);
      NormalisedOne(text);
      if |normalized| == 0 {
        r := QuickInputView(projectID, if fault == WriteFails then NoFault else fault);
        return;
      }
      var project := Trim(projectID);
      TrimIdempotent(projectID);
      if fault == WriteFails {
        return Err(DatabaseFailed);
      }
      r := CommitQuickInput(normalized[0], project, fault);
      if old(Coherent()) {
        if fault == ReadFails {
          StaleCache(rows, old(rows), recent, recentByProject);
        } else {
          CacheAfterView(rows, old(rows), project, normalized[0], old(recent), old(recentByProject));
        }
      }
    }

    method CommitQuickInput(prompt: string, project: string, fault: Fault) returns (r: Result<View, StoreError>)
      requires Valid() && Trim(project) == project && prompt != "" && Trim(prompt) == prompt
      modifies this`rows, this`nextId, this`recent, this`recentByProject
      ensures Valid() && Recorded(rows, old(rows), project, prompt)
      ensures r == if fault == ReadFails then Err(DatabaseFailed) else Ok(TheView(project))
      ensures r.Err? ==> recent == old(recent) && recentByProject == old(recentByProject)
      ensures r.Ok? ==> recent == Listed(rows, Global, "")
      ensures r.Ok? ==> recentByProject == CachedView(old(recentByProject), project, Listed(rows, Project, project))
    {
      TouchBoth(project, prompt);
      r := ViewAndCache(project, fault);
    }

    // The lists as they now are, put into the copy in memory.
    method ViewAndCache(project: string, fault: Fault) returns (r: Result<View, StoreError>)
      requires Valid() && Trim(project) == project
      modifies this`recent, this`recentByProject
      ensures r == if fault == ReadFails then Err(DatabaseFailed) else Ok(TheView(project))
      ensures r.Err? ==> recent == old(recent) && recentByProject == old(recentByProject)
      ensures r.Ok? ==> recent == Listed(rows, Global, "")
      ensures r.Ok? ==> recentByProject == CachedView(old(recentByProject), project, Listed(rows, Project, project))
    {
      r := QuickInputView(project, fault);
      if r.Ok? {
        ApplyViewToCache(r.value);
      }
    }

    method UpdateQuickInputPinned(items: seq<string>, fault: Fault) returns (r: Result<View, StoreError>)
      requires Valid()
      modifies this`pinnedRow, this`pinned
      ensures Valid() && (old(Coherent()) ==> Coherent())
      ensures r == if readOnly then Err(ReadOnlyStore) else if fault != NoFault then Err(DatabaseFailed)
                   else Ok(TheView(""))
      ensures pinned == if readOnly || fault == WriteFails then old(pinned) else Normalised(items, 0)
      ensures pinnedRow == if readOnly || fault == WriteFails then old(pinnedRow) else Normalised(items, 0)
    {
      if readOnly {
        return Err(ReadOnlyStore);
      }
      var next := NormalizeItems(items, 0);
      if fault == WriteFails {
        return Err(DatabaseFailed);
      }
      pinnedRow := next;
      pinned := next;
      r := QuickInputView("", fault);
    }

    /** Replacing the history: table and copy hold the normalised lists, whatever they held before. */
    method ReplaceQuickInput(config: Config, writeFails: bool) returns (r: Option<StoreError>, ghost normal: Config)
      requires Valid()
      modifies this`rows, this`nextId, this`pinnedRow, this`pinned, this`recent, this`recentByProject
      ensures Valid() && NormalForm(config, normal)
      ensures r == if readOnly then Some(ReadOnlyStore) else if writeFails then Some(DatabaseFailed) else None
      ensures r == None ==> Coherent() && Holds(rows, normal, {}) && pinned == normal.pinned
      ensures r != None ==> rows == old(rows) && pinnedRow == old(pinnedRow) && (old(Coherent()) ==> Coherent())
    {
      var normalized := NormalizeConfig(config);
      normal := normalized;
      if readOnly {
        return Some(ReadOnlyStore), normal;
      }
      if writeFails {
        return Some(DatabaseFailed), normal;
      }
      pinnedRow := normalized.pinned;
      ghost var again := ReplaceHistory(normalized);
      NormalConfigIffFixed(normalized, again);
      HeldIsCached(rows, normalized);
      pinned, recent, recentByProject := normalized.pinned, normalized.recent, normalized.recentByProject;
      r := None;
    }

    method DeleteProjectQuickInput(projectID: string, writeFails: bool) returns (r: Option<StoreError>)
      requires Valid()
      modifies this`rows, this`recentByProject
      ensures Valid() && (old(Coherent()) ==> Coherent())
      ensures r == if readOnly then Some(ReadOnlyStore)
                   else if writeFails && Trim(projectID) != "" then Some(DatabaseFailed) else None
      ensures r != None ==> rows == old(rows)
      ensures r == None ==> Listed(rows, Project, Trim(projectID)) == []
      ensures r == None ==> SameElsewhere(rows, old(rows), Project, Trim(projectID))
    {
      if readOnly {
        return Some(ReadOnlyStore);
      }
      var project := Trim(projectID);
      if project == "" {
        NotAList(rows, Project, "");
        return None;
      }
      if writeFails {
        return Some(DatabaseFailed);
      }
      DeleteStored(project);
      r := None;
    }

    method DeleteStored(project: string)
      requires Valid()
      modifies this`rows, this`recentByProject
      ensures Valid() && (old(Coherent()) ==> Coherent())
      ensures Listed(rows, Project, project) == [] && SameElsewhere(rows, old(rows), Project, project)
    {
      var left := Delete(rows, ThisList(Project, project));
      DeleteProject(rows, nextId, project, left);
      if Coherent() { UncacheProject(left, rows, recent, recentByProject, project); }
      rows := left;
      recentByProject := recentByProject - {project};
    }

    /** Only the lists of projects that still exist are kept; the copy in memory is read afresh, so that it is
        coherent afterwards even where it was not before. When reading fails the lists are gone from the table all the
        same, and the copy is coherent only if there were none to delete. */
    method ReconcileProjectQuickInput(projectIDs: seq<string>, fault: Fault) returns (r: Option<StoreError>)
      requires Valid()
      modifies this`rows, this`recent, this`recentByProject
      ensures Valid()
      ensures r == if readOnly then Some(ReadOnlyStore) else if fault != NoFault then Some(DatabaseFailed) else None
      ensures readOnly || fault == WriteFails ==> rows == old(rows) && (old(Coherent()) ==> Coherent())
      ensures !readOnly && fault != WriteFails ==> OnlyProjects(rows, old(rows), Trims(projectIDs))
      ensures r == None ==> Caches(rows, recent, recentByProject)
      ensures !readOnly && fault == ReadFails && old(Coherent()) ==>
                (Coherent() <==> NoOthers(old(rows), Trims(projectIDs)))
    {
      if readOnly {
        return Some(ReadOnlyStore);
      }
      var valid := TrimAll(projectIDs);
      if fault == WriteFails {
        return Some(DatabaseFailed);
      }
      var left := Delete(rows, ProjectsOutside(valid));
      DeleteOutside(rows, nextId, valid, left);
      rows := left;
      if fault == ReadFails {
        if old(Coherent()) {
          StaleCache(rows, old(rows), recent, recentByProject);
          KeepsAllListsIff(rows, old(rows), valid);
        }
        return Some(DatabaseFailed);
      }
      RefreshCache();
      r := None;
    }
  }

  /** A view shows the pinned items, the whole global list, and the whole list of the project it names, if any. */
  lemma ViewShows(store: Store, project: string)
    ensures var view := store.TheView(project);
      && view.pinned == store.pinned && view.globalRecent == Listed(store.rows, Global, "")
      && view.project == project
      && (project != "" ==> view.projectRecent == Listed(store.rows, Project, project))
      && (project == "" ==> view.projectRecent == [])
  {
  }
}
