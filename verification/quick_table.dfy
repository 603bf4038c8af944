/** What the statements on the table do to its lists, and when a copy in memory says the same. */
module QuickTable {
  import opened Sequences
  import opened Text
  import opened RecentLists
  import opened QuickInput
  import opened QuickConfig

  ghost predicate Sound(rows: seq<Row>, nextId: nat) {
    Ordered(rows, nextId) && Housed(rows)
  }

  ghost predicate ValidTable(rows: seq<Row>, nextId: nat) {
    Sound(rows, nextId) && Limited(rows)
  }

  ghost predicate CachesProject(rows: seq<Row>, lists: map<string, seq<string>>, project: string) {
    && (project in lists <==> Listed(rows, Project, project) != [])
    && (project in lists ==> lists[project] == Listed(rows, Project, project))
  }

  ghost predicate Caches(rows: seq<Row>, recent: seq<string>, lists: map<string, seq<string>>) {
    recent == Listed(rows, Global, "") && forall project :: CachesProject(rows, lists, project)
  }

  function CachedView(lists: map<string, seq<string>>, project: string, list: seq<string>): map<string, seq<string>> {
    if project == "" then lists else if list == [] then lists - {project} else lists[project := list]
  }

  ghost predicate SameLists(rows: seq<Row>, was: seq<Row>) {
    forall s, p :: Listed(rows, s, p) == Listed(was, s, p)
  }

  ghost predicate Touched(rows: seq<Row>, was: seq<Row>, scope: Scope, project: string, prompt: string) {
    && Listed(rows, scope, project) == Touch(Listed(was, scope, project), prompt)
    && SameElsewhere(rows, was, scope, project)
  }

  predicate RecordsIn(scope: Scope, p: string, project: string) {
    (scope == Global && p == "") || (scope == Project && p == project && project != "")
  }

  /** A recorded prompt has been touched in the global list and in its project's, if it has one. */
  ghost predicate Recorded(rows: seq<Row>, was: seq<Row>, project: string, prompt: string) {
    forall s, p :: Listed(rows, s, p)
      == if RecordsIn(s, p, project) then Touch(Listed(was, s, p), prompt) else Listed(was, s, p)
  }

  ghost predicate OnlyProjects(rows: seq<Row>, was: seq<Row>, projects: seq<string>) {
    forall s, p :: Listed(rows, s, p) == if s == Project && p !in projects then [] else Listed(was, s, p)
  }

  function ListOf(config: Config, project: string): seq<string> {
    if project in config.recentByProject then config.recentByProject[project] else []
  }

  /** The table holds the lists of a config, except that those of some projects are still to come. */
  ghost predicate Holds(rows: seq<Row>, config: Config, missing: set<string>) {
    && Listed(rows, Global, "") == config.recent
    && forall p :: Listed(rows, Project, p) == if p in missing then [] else ListOf(config, p)
  }

  lemma HoldsAtFirst(rows: seq<Row>, config: Config)
    requires Listed(rows, Global, "") == config.recent && SameElsewhere(rows, [], Global, "")
    ensures Holds(rows, config, config.recentByProject.Keys)
  {
  }

  lemma HoldsOneMore(rows: seq<Row>, was: seq<Row>, config: Config, missing: set<string>, project: string)
    requires Holds(was, config, missing) && project in config.recentByProject
    requires Listed(rows, Project, project) == ListOf(config, project) && SameElsewhere(rows, was, Project, project)
    ensures Holds(rows, config, missing - {project})
  {
  }

  method TrimAll(items: seq<string>) returns (trimmed: seq<string>)
    ensures trimmed == Trims(items)
  {
    trimmed := [];
    for i := 0 to |items|
      invariant trimmed == Trims(items[..i])
    {
      TrimsNext(items, i);
      var value := Trim(items[i]);
      if value != "" {
        trimmed := trimmed + [value];
      }
    }
    assert items[..|items|] == items;
  }

  // ------------------------------------------------------- reading the lists

  // What a project's list still needs after the newer rows have been gathered.
  ghost predicate GatheredFor(lists: map<string, seq<string>>, older: seq<Row>, rows: seq<Row>, project: string) {
    && (project in lists ==> lists[project] != [])
    && (if project in lists then lists[project] else []) + Listed(older, Project, project)
       == Listed(rows, Project, project)
  }

  ghost predicate Gathered(global: seq<string>, lists: map<string, seq<string>>, older: seq<Row>, rows: seq<Row>) {
    && global + Listed(older, Global, "") == Listed(rows, Global, "")
    && forall p :: GatheredFor(lists, older, rows, p)
  }

  lemma GatheredAtFirst(rows: seq<Row>)
    ensures Gathered([], map[], rows[..|rows|], rows)
  {
    assert rows[..|rows|] == rows;
    ConcatNil(Listed(rows, Global, ""));
    forall p ensures GatheredFor(map[], rows, rows, p) { ConcatNil(Listed(rows, Project, p)); }
  }

  lemma GatheredAtLast(global: seq<string>, lists: map<string, seq<string>>, rows: seq<Row>)
    requires Gathered(global, lists, rows[..0], rows)
    ensures Caches(rows, global, lists)
  {
    ConcatNil(global);
    forall p ensures CachesProject(rows, lists, p) {
      assert GatheredFor(lists, rows[..0], rows, p);
      ConcatNil(if p in lists then lists[p] else []);
    }
  }

  lemma GatherNext(global: seq<string>, lists: map<string, seq<string>>, rows: seq<Row>, n: nat)
    requires n < |rows| && Housed(rows) && Gathered(global, lists, rows[..n + 1], rows)
    ensures var row := rows[n];
      if row.scope == Global then Gathered(global + [row.prompt], lists, rows[..n], rows)
      else var list := if row.project in lists then lists[row.project] else [];
           Gathered(global, lists[row.project := list + [row.prompt]], rows[..n], rows)
  {
    var row, older := rows[n], rows[..n];
    assert row in rows && rows[..n + 1] == older + [row];
    Create(older, row);
    if row.scope == Global {
      ConcatAssoc(global, [row.prompt], Listed(older, Global, ""));
      forall p ensures GatheredFor(lists, older, rows, p) { assert GatheredFor(lists, older + [row], rows, p); }
    } else {
      var list := if row.project in lists then lists[row.project] else [];
      ConcatAssoc(list, [row.prompt], Listed(older, Project, row.project));
      var lists' := lists[row.project := list + [row.prompt]];
      forall p ensures GatheredFor(lists', older, rows, p) {
        assert GatheredFor(lists, older + [row], rows, p);
      }
    }
  }

  lemma TrimsNext(items: seq<string>, i: nat)
    requires i < |items|
    ensures Trims(items[..i + 1]) == Trims(items[..i]) + (if Trim(items[i]) == "" then [] else [Trim(items[i])])
  {
    assert items[..i + 1] == items[..i] + [items[i]];
    TrimsConcat(items[..i], [items[i]]);
    TrimsOne(items[i]);
  }

  // ------------------------------------------------------ changing the table

  lemma AppendSound(rows: seq<Row>, nextId: nat, scope: Scope, project: string, prompt: string)
    requires Sound(rows, nextId) && IsList(scope, project)
    ensures Sound(rows + [Row(nextId, scope, project, prompt)], nextId + 1)
  {
  }

  lemma DeleteSound(rows: seq<Row>, nextId: nat, w: Where)
    requires Sound(rows, nextId)
    ensures Sound(Delete(rows, w), nextId)
  {
    DeleteOrdered(rows, nextId, w);
  }

  // The three statements of a touch.
  lemma TouchRows(was: seq<Row>, nextId: nat, scope: Scope, project: string, prompt: string,
                  created: seq<Row>, rows: seq<Row>)
    requires ValidTable(was, nextId) && IsList(scope, project) && prompt != "" && Trim(prompt) == prompt
    requires created == Delete(was, ThisPrompt(scope, project, prompt)) + [Row(nextId, scope, project, prompt)]
    requires var listed := Selected(created, scope, project);
      rows == if |listed| > RECENT_LIMIT then Delete(created, TheseIds(Ids(listed[RECENT_LIMIT..]))) else created
    ensures ValidTable(rows, nextId + 1) && Touched(rows, was, scope, project, prompt)
  {
    var kept := Delete(was, ThisPrompt(scope, project, prompt));
    DeletePrompt(was, scope, project, prompt);
    DeleteSound(was, nextId, ThisPrompt(scope, project, prompt));
    AppendSound(kept, nextId, scope, project, prompt);
    Create(kept, Row(nextId, scope, project, prompt));
    SameElsewhereTwice(created, kept, was, scope, project);
    var listed := Selected(created, scope, project);
    if |listed| > RECENT_LIMIT {
      DeleteStale(created, nextId + 1, scope, project, RECENT_LIMIT);
      DeleteSound(created, nextId + 1, TheseIds(Ids(listed[RECENT_LIMIT..])));
      SameElsewhereTwice(rows, created, was, scope, project);
    }
    TouchedIsLimited(rows, was, scope, project, prompt);
  }

  lemma SameElsewhereTwice(rows: seq<Row>, between: seq<Row>, was: seq<Row>, scope: Scope, project: string)
    requires SameElsewhere(rows, between, scope, project) && SameElsewhere(between, was, scope, project)
    ensures SameElsewhere(rows, was, scope, project)
  {
  }

  lemma TouchedIsLimited(rows: seq<Row>, was: seq<Row>, scope: Scope, project: string, prompt: string)
    requires Limited(was) && prompt != "" && Trim(prompt) == prompt && Touched(rows, was, scope, project, prompt)
    ensures Limited(rows)
  {
    TouchIsNormal(Listed(was, scope, project), prompt);
  }

  lemma BothTouched(rows: seq<Row>, between: seq<Row>, was: seq<Row>, project: string, prompt: string)
    requires Touched(between, was, Global, "", prompt)
    requires if project == "" then rows == between else Touched(rows, between, Project, project, prompt)
    ensures Recorded(rows, was, project, prompt)
  {
  }

  lemma InsertRow(rows: seq<Row>, nextId: nat, scope: Scope, project: string, values: seq<string>, index: nat)
    requires index < |values| && Sound(rows, nextId) && IsList(scope, project)
    requires Listed(rows, scope, project) == values[index + 1..]
    ensures var rows' := rows + [Row(nextId, scope, project, values[index])];
      && Sound(rows', nextId + 1)
      && Listed(rows', scope, project) == values[index..]
      && SameElsewhere(rows', rows, scope, project)
  {
    AppendSound(rows, nextId, scope, project, values[index]);
    Create(rows, Row(nextId, scope, project, values[index]));
    HeadAndTail(values[index..]);
    assert values[index..][1..] == values[index + 1..];
  }

  lemma LimitedByLists(rows: seq<Row>, was: seq<Row>)
    requires Limited(was)
    requires forall s, p :: Listed(rows, s, p) == [] || Listed(rows, s, p) == Listed(was, s, p)
    ensures Limited(rows)
  {
  }

  lemma DeleteProject(was: seq<Row>, nextId: nat, project: string, rows: seq<Row>)
    requires ValidTable(was, nextId) && rows == Delete(was, ThisList(Project, project))
    ensures ValidTable(rows, nextId)
    ensures Listed(rows, Project, project) == [] && SameElsewhere(rows, was, Project, project)
  {
    var w := ThisList(Project, project);
    DeleteSound(was, nextId, w);
    DeleteWhole(was, w, Project, project);
    forall s, p | s != Project || p != project ensures Listed(rows, s, p) == Listed(was, s, p) {
      DeleteElsewhere(was, w, s, p);
    }
    LimitedByLists(rows, was);
  }

  lemma DeleteOutside(was: seq<Row>, nextId: nat, projects: seq<string>, rows: seq<Row>)
    requires ValidTable(was, nextId) && rows == Delete(was, ProjectsOutside(projects))
    ensures ValidTable(rows, nextId) && OnlyProjects(rows, was, projects)
  {
    var w := ProjectsOutside(projects);
    DeleteSound(was, nextId, w);
    forall s, p
      ensures Listed(rows, s, p) == if s == Project && p !in projects then [] else Listed(was, s, p)
    {
      if s == Project && p !in projects { DeleteWhole(was, w, s, p); } else { DeleteElsewhere(was, w, s, p); }
    }
    LimitedByLists(rows, was);
  }

  // Nothing is stored under a name that is not a list.
  lemma NotAList(rows: seq<Row>, scope: Scope, project: string)
    requires Housed(rows) && !IsList(scope, project)
    ensures Listed(rows, scope, project) == []
  {
    SelectedMembers(rows, scope, project);
    FirstIsMember(Selected(rows, scope, project));
  }

  lemma HoldingIsLimited(rows: seq<Row>, config: Config)
    requires Housed(rows) && NormalConfig(config) && Holds(rows, config, {})
    ensures Limited(rows)
  {
    forall scope, project ensures Normal(Listed(rows, scope, project), RECENT_LIMIT) {
      if !IsList(scope, project) { NotAList(rows, scope, project); }
    }
  }

  // ---------------------------------------------------- the copy in memory

  // Once the view has been applied the copy is coherent again.
  lemma CacheAfterView(rows: seq<Row>, was: seq<Row>, project: string, prompt: string,
                       recent: seq<string>, lists: map<string, seq<string>>)
    requires Recorded(rows, was, project, prompt) && Caches(was, recent, lists)
    ensures Caches(rows, Listed(rows, Global, ""), CachedView(lists, project, Listed(rows, Project, project)))
  {
    var cached := CachedView(lists, project, Listed(rows, Project, project));
    forall p ensures CachesProject(rows, cached, p) {
      assert CachesProject(was, lists, p);
      assert RecordsIn(Project, p, project) <==> p == project && project != "";
    }
  }

  lemma SameListsSameCache(rows: seq<Row>, was: seq<Row>, recent: seq<string>, lists: map<string, seq<string>>)
    requires SameLists(rows, was) && Caches(was, recent, lists)
    ensures Caches(rows, recent, lists)
  {
    forall p ensures CachesProject(rows, lists, p) { assert CachesProject(was, lists, p); }
  }

  /** A copy that was not brought up to date is coherent only if no list changed. */
  lemma StaleCache(rows: seq<Row>, was: seq<Row>, recent: seq<string>, lists: map<string, seq<string>>)
    requires Housed(rows) && Housed(was) && Caches(was, recent, lists)
    ensures Caches(rows, recent, lists) <==> SameLists(rows, was)
  {
    if SameLists(rows, was) { SameListsSameCache(rows, was, recent, lists); }
    if Caches(rows, recent, lists) {
      forall s, p ensures Listed(rows, s, p) == Listed(was, s, p) {
        if IsList(s, p) {
          assert s == Project ==> CachesProject(was, lists, p) && CachesProject(rows, lists, p);
        } else {
          NotAList(rows, s, p);
          NotAList(was, s, p);
        }
      }
    }
  }

  /** A record puts its prompt first in the global list and in that of its project, cuts both at thirty, and leaves the
      lists of all other projects alone. */
  lemma RecordedIs(rows: seq<Row>, was: seq<Row>, project: string, prompt: string)
    requires Recorded(rows, was, project, prompt)
    ensures Listed(rows, Global, "") == Take([prompt] + Without(Listed(was, Global, ""), prompt), 30)
    ensures project != "" ==>
      Listed(rows, Project, project) == Take([prompt] + Without(Listed(was, Project, project), prompt), 30)
    ensures forall p :: p != project || p == "" ==> Listed(rows, Project, p) == Listed(was, Project, p)
  {
    assert RecordsIn(Global, "", project);
    if project != "" { assert RecordsIn(Project, project, project); }
  }

  /** The prompts used in the global list are all of them, those used in a project's list the ones recorded for it. */
  lemma UsedInNext(recordings: seq<Recording>, next: Recording, project: string)
    ensures UsedIn(recordings + [next], Global, "") == UsedIn(recordings, Global, "") + [next.prompt]
    ensures project != "" ==>
      UsedIn(recordings + [next], Project, project)
      == UsedIn(recordings, Project, project) + if next.project == project then [next.prompt] else []
  {
    assert (recordings + [next])[..|recordings|] == recordings;
  }

  /** A record leaves every list alone only where its prompt is already the newest one. */
  lemma RecordChangesNothingIff(rows: seq<Row>, was: seq<Row>, project: string, prompt: string)
    requires Recorded(rows, was, project, prompt) && Limited(was)
    ensures SameLists(rows, was) <==>
      forall s, p :: RecordsIn(s, p, project) ==> Listed(was, s, p) != [] && Listed(was, s, p)[0] == prompt
  {
    forall s, p | RecordsIn(s, p, project)
      ensures Listed(rows, s, p) == Listed(was, s, p) <==> Listed(was, s, p) != [] && Listed(was, s, p)[0] == prompt
    {
      assert Normal(Listed(was, s, p), RECENT_LIMIT);
      TouchFixes(Listed(was, s, p), prompt);
    }
  }

  /** The first record into an empty table, with a copy that is not brought up to date: the copy lacks it. */
  lemma FirstRecordLeavesStale(rows: seq<Row>, project: string, prompt: string)
    requires Recorded(rows, [], project, prompt)
    ensures Caches([], [], map[]) && !Caches(rows, [], map[])
  {
    assert Listed(rows, Global, "") == Touch([], prompt);
  }

  // No project but these has a list.
  ghost predicate NoOthers(rows: seq<Row>, projects: seq<string>) {
    forall p :: p !in projects ==> Listed(rows, Project, p) == []
  }

  /** Keeping the lists of some projects leaves every list alone only where no other project has one. */
  lemma KeepsAllListsIff(rows: seq<Row>, was: seq<Row>, projects: seq<string>)
    requires OnlyProjects(rows, was, projects)
    ensures SameLists(rows, was) <==> NoOthers(was, projects)
  {
    if SameLists(rows, was) {
      forall p | p !in projects ensures Listed(was, Project, p) == [] {
        assert Listed(rows, Project, p) == Listed(was, Project, p);
      }
    }
  }

  datatype Recording = Recording(project: string, prompt: string)

  // The prompts among these recordings that go into a list, in the order of their use.
  function UsedIn(recordings: seq<Recording>, scope: Scope, project: string): seq<string> {
    if recordings == [] then [] else
    var last := recordings[|recordings| - 1];
    UsedIn(recordings[..|recordings| - 1], scope, project)
    + (if RecordsIn(scope, project, last.project) then [last.prompt] else [])
  }

  ghost predicate RecordedInTurn(tables: seq<seq<Row>>, recordings: seq<Recording>) {
    && |tables| == |recordings| + 1
    && forall i :: 0 <= i < |recordings| ==>
         Recorded(tables[i + 1], tables[i], recordings[i].project, recordings[i].prompt)
  }

  lemma {:induction false} ListsAreTouches(tables: seq<seq<Row>>, recordings: seq<Recording>, scope: Scope,
                                           project: string)
    requires RecordedInTurn(tables, recordings)
    ensures Listed(tables[|recordings|], scope, project)
         == Touches(Listed(tables[0], scope, project), UsedIn(recordings, scope, project))
  {
    if recordings != [] {
      var n := |recordings| - 1;
      ListsAreTouches(tables[..n + 1], recordings[..n], scope, project);
      var before, last := UsedIn(recordings[..n], scope, project), recordings[n];
      assert Recorded(tables[n + 1], tables[n], last.project, last.prompt);
      assert (before + [last.prompt])[..|before|] == before;
      ConcatNil(before);
    }
  }

  /** However many prompts are recorded for whatever projects, each list is the first thirty distinct prompts of
      its whole history read backwards, followed by what it held at first. */
  lemma ListsAreRecentHistory(tables: seq<seq<Row>>, recordings: seq<Recording>, scope: Scope, project: string)
    requires RecordedInTurn(tables, recordings) && Limited(tables[0])
    ensures Listed(tables[|recordings|], scope, project)
         == Take(First(Reverse(UsedIn(recordings, scope, project)) + Listed(tables[0], scope, project)), 30)
  {
    ListsAreTouches(tables, recordings, scope, project);
    assert Normal(Listed(tables[0], scope, project), RECENT_LIMIT);
    TouchesKeepMostRecent(Listed(tables[0], scope, project), UsedIn(recordings, scope, project));
  }

  lemma UncacheProject(rows: seq<Row>, was: seq<Row>, recent: seq<string>, lists: map<string, seq<string>>,
                       project: string)
    requires Caches(was, recent, lists)
    requires Listed(rows, Project, project) == [] && SameElsewhere(rows, was, Project, project)
    ensures Caches(rows, recent, lists - {project})
  {
    forall p ensures CachesProject(rows, lists - {project}, p) { assert CachesProject(was, lists, p); }
  }

  lemma HeldIsCached(rows: seq<Row>, config: Config)
    requires Holds(rows, config, {}) && NormalConfig(config)
    ensures Caches(rows, config.recent, config.recentByProject)
  {
  }

  lemma NormalisedOne(text: string)
    ensures Normalised([text], RECENT_LIMIT) == if Trim(text) == "" then [] else [Trim(text)]
    ensures Trim(Trim(text)) == Trim(text)
  {
    TrimIdempotent(text);
    TrimsOne(text);
    FirstOfDistinct(Trims([text]));
  }
}
