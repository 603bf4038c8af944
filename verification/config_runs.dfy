/** Whole histories of the configuration store: starts, updates, crashes and hand-edited files in any order. */
module ConfigRuns {
  import opened Wrappers
  import opened ConfigSettings
  import opened ConfigStore
  import RecentLists
  import Text

  /** `Update` names the normalised settings to be committed, if there are any; `RestoreYaml` is someone putting back
      a YAML file without a marker while the program is not running. */
  datatype Event =
    | Start(r: Outcome, input: Input)
    | Update(r: Outcome, next: Option<Settings>)
    | Crash
    | RestoreYaml(yaml: Yaml)

  predicate Next(s: System, s': System, e: Event) {
    match e
    case Start(r, input) => s.memory == None && FreshSecrets(input) && StartStep(s, s', r, input)
    case Update(r, next) =>
      s.memory.Some? && UpdateStep(s, s', r, next) && (next.Some? ==> Loaded(next.value) == next)
    case Crash => s' == s.(memory := None)
    case RestoreYaml(yaml) =>
      s.memory == None && yaml.marker < CURRENT_VERSION && s' == s.(disk := s.disk.(yaml := Some(yaml)))
  }

  ghost predicate Run(ss: seq<System>, es: seq<Event>) {
    Linked(ss, es) && Safe(ss[0])
  }

  ghost predicate Linked(ss: seq<System>, es: seq<Event>) {
    |ss| == |es| + 1 && forall k {:trigger NextAt(ss, es, k)} :: 0 <= k < |es| ==> NextAt(ss, es, k)
  }

  predicate NextAt(ss: seq<System>, es: seq<Event>, k: nat)
    requires |ss| == |es| + 1 && k < |es|
  {
    Next(ss[k], ss[k + 1], es[k])
  }

  lemma StepAt(ss: seq<System>, es: seq<Event>, k: nat)
    requires Linked(ss, es) && k < |es|
    ensures Next(ss[k], ss[k + 1], es[k])
  {
    assert NextAt(ss, es, k);
  }

  predicate Commits(e: Event) {
    e.Update? && e.r == Works
  }

  // No update commits in this part of a run.
  predicate Quiet(es: seq<Event>, from: nat, to: nat)
    requires to <= |es|
  {
    forall k :: from <= k < to ==> !Commits(es[k])
  }

  lemma StepIsSafe(s: System, s': System, e: Event)
    requires Safe(s) && Next(s, s', e)
    ensures Safe(s')
    ensures Initialized(s.disk) ==> Initialized(s'.disk)
    ensures Initialized(s.disk) && !Commits(e) ==> s'.committed == s.committed
  {
  }

  lemma SafeStepAt(ss: seq<System>, es: seq<Event>, k: nat)
    requires Linked(ss, es) && k < |es| && Safe(ss[k])
    ensures Safe(ss[k + 1])
    ensures Initialized(ss[k].disk) ==> Initialized(ss[k + 1].disk)
    ensures Initialized(ss[k].disk) && !Commits(es[k]) ==> ss[k + 1].committed == ss[k].committed
  {
    StepAt(ss, es, k);
    StepIsSafe(ss[k], ss[k + 1], es[k]);
  }

  // Induction over a run, for any property of states.
  lemma {:induction false} Invariant(inv: System -> bool, ss: seq<System>, es: seq<Event>, k: nat)
    requires Linked(ss, es) && k < |ss| && inv(ss[0])
    requires forall i :: 0 <= i < |es| && inv(ss[i]) ==> inv(ss[i + 1])
    ensures inv(ss[k])
  {
    if k > 0 { Invariant(inv, ss, es, k - 1); }
  }

  /** In every state of every run a marked file implies an initialised database with the last commit in it. */
  lemma EveryStateIsSafe(ss: seq<System>, es: seq<Event>, k: nat)
    requires Run(ss, es) && k < |ss|
    ensures Safe(ss[k])
  {
    var inv := (s: System) => Safe(s);
    forall i | 0 <= i < |es| && inv(ss[i]) ensures inv(ss[i + 1]) { SafeStepAt(ss, es, i); }
    Invariant(inv, ss, es, k);
  }

  lemma QuietBefore(es: seq<Event>, i: nat, k: nat)
    requires i < k <= |es| && Quiet(es, i, k)
    ensures Quiet(es, i, k - 1) && !Commits(es[k - 1])
  {
  }

  /** An initialised database stays so, and only updates change what is committed. */
  lemma {:induction false} InitializedForGood(ss: seq<System>, es: seq<Event>, i: nat, k: nat)
    requires Run(ss, es) && i <= k < |ss| && Initialized(ss[i].disk)
    ensures Initialized(ss[k].disk)
    ensures Quiet(es, i, k) ==> ss[k].committed == ss[i].committed
    decreases k - i
  {
    if i < k {
      InitializedForGood(ss, es, i, k - 1);
      EveryStateIsSafe(ss, es, k - 1);
      SafeStepAt(ss, es, k - 1);
      if Quiet(es, i, k) { QuietBefore(es, i, k); }
    }
  }

  /** Whatever happened in between, a start that succeeds has in memory what the last committed update stored. */
  lemma StartLoadsLastUpdate(ss: seq<System>, es: seq<Event>, i: nat, k: nat)
    requires Run(ss, es) && i < k < |es| && Commits(es[i]) && Quiet(es, i + 1, k)
    requires es[k].Start? && es[k].r == Works
    ensures ss[k + 1].memory.Some? && Some(ss[k + 1].memory.value.settings) == es[i].next
  {
    UpdatedHasCommitted(ss, es, i);
    InitializedForGood(ss, es, i + 1, k + 1);
    StartedHasCommitted(ss, es, k);
  }

  lemma UpdatedHasCommitted(ss: seq<System>, es: seq<Event>, k: nat)
    requires Run(ss, es) && k < |es| && Commits(es[k])
    ensures Initialized(ss[k + 1].disk) && ss[k + 1].committed == es[k].next
  {
    StepAt(ss, es, k);
  }

  lemma StartedHasCommitted(ss: seq<System>, es: seq<Event>, k: nat)
    requires Run(ss, es) && k < |es| && es[k].Start? && es[k].r == Works
    ensures ss[k + 1].memory.Some? && Initialized(ss[k + 1].disk)
    ensures Some(ss[k + 1].memory.value.settings) == ss[k + 1].committed
  {
    EveryStateIsSafe(ss, es, k + 1);
    StepAt(ss, es, k);
  }

  ghost predicate MigratedFrom(yaml: Yaml, settings: Option<Settings>) {
    exists input :: FreshSecrets(input) && settings == Migrated(yaml, input.salt, input.token)
  }

  // Either nothing is committed and the file still reads as it did, or what is committed came from it.
  ghost predicate GoesBackTo(yaml: Yaml, s: System) {
    if Initialized(s.disk) then MigratedFrom(yaml, s.committed)
    else FromYaml(Legacy(s.disk).settings) == FromYaml(yaml.settings)
  }

  predicate UntouchedYaml(es: seq<Event>, k: nat)
    requires k <= |es|
  {
    forall i :: 0 <= i < k ==> !es[i].RestoreYaml?
  }

  lemma StepGoesBack(yaml: Yaml, s: System, s': System, e: Event)
    requires Safe(s) && Next(s, s', e) && GoesBackTo(yaml, s) && !Commits(e) && !e.RestoreYaml?
    ensures GoesBackTo(yaml, s')
  {
    StepIsSafe(s, s', e);
    if e.Start? && !Initialized(s.disk) && Initialized(s'.disk) {
      assert s'.committed == Migrated(yaml, e.input.salt, e.input.token);
    } else if e.Start? && !Initialized(s'.disk) {
      assert Reading(s'.disk) == Reading(s.disk);
    }
  }

  lemma GoesBackAt(yaml: Yaml, ss: seq<System>, es: seq<Event>, k: nat)
    requires Run(ss, es) && k < |es| && Safe(ss[k])
    requires GoesBackTo(yaml, ss[k]) && !Commits(es[k]) && !es[k].RestoreYaml?
    ensures GoesBackTo(yaml, ss[k + 1])
  {
    StepAt(ss, es, k);
    StepGoesBack(yaml, ss[k], ss[k + 1], es[k]);
  }

  lemma {:induction false} LegacyUntilCommitted(ss: seq<System>, es: seq<Event>, k: nat)
    requires Run(ss, es) && k < |ss| && !Initialized(ss[0].disk)
    requires Quiet(es, 0, k) && UntouchedYaml(es, k)
    ensures GoesBackTo(Legacy(ss[0].disk), ss[k])
  {
    if k > 0 {
      LegacyUntilCommitted(ss, es, k - 1);
      EveryStateIsSafe(ss, es, k - 1);
      GoesBackAt(Legacy(ss[0].disk), ss, es, k - 1);
    }
  }

  /** Until an update commits, a start that succeeds has the settings of the YAML file the run began with, however
      many starts were interrupted before; only blank secrets are filled in. */
  lemma StartLoadsLegacy(ss: seq<System>, es: seq<Event>, k: nat)
    requires Run(ss, es) && k < |es| && !Initialized(ss[0].disk)
    requires Quiet(es, 0, k) && UntouchedYaml(es, k)
    requires es[k].Start? && es[k].r == Works
    ensures ss[k + 1].memory.Some?
    ensures MigratedFrom(Legacy(ss[0].disk), Some(ss[k + 1].memory.value.settings))
    ensures TakenOver(Legacy(ss[0].disk).settings, ss[k + 1].memory.value.settings)
    ensures ss[0].disk.yaml.Some? ==> TakenOver(ss[0].disk.yaml.value.settings, ss[k + 1].memory.value.settings)
    ensures ss[0].disk.yaml.None? ==> AreDefaults(ss[k + 1].memory.value.settings)
  {
    MigratedTakesOver(ss, es, k);
    LegacyOf(ss[0].disk, ss[k + 1].memory.value.settings);
  }

  // What a start has without a file, but for the fresh secrets.
  predicate AreDefaults(s: Settings) {
    && s.title == "Code Kanban" && s.baseDir == "" && s.pattern == "{projectName}-{branch}"
    && s.pinned == [] && s.other == ""
  }

  lemma PatternIsTrimmed()
    ensures Text.Trim("{projectName}-{branch}") == "{projectName}-{branch}"
  {
    var s := "{projectName}-{branch}";
    assert !Text.IsSpace(s[0]) && !Text.IsSpace(s[|s| - 1]);
  }

  lemma LegacyOf(disk: Disk, loaded: Settings)
    requires TakenOver(Legacy(disk).settings, loaded)
    ensures disk.yaml.Some? ==> TakenOver(disk.yaml.value.settings, loaded)
    ensures disk.yaml.None? ==> AreDefaults(loaded)
  {
    if disk.yaml.None? {
      assert DEFAULT_SETTINGS.title == "Code Kanban" && RecentLists.Normalised([], 0) == [];
      PatternIsTrimmed();
      TitleAccepted(DEFAULT_SETTINGS.title);
      DefaultTitleIsNormal();
    }
  }

  lemma MigratedTakesOver(ss: seq<System>, es: seq<Event>, k: nat)
    requires Run(ss, es) && k < |es| && !Initialized(ss[0].disk)
    requires Quiet(es, 0, k) && UntouchedYaml(es, k)
    requires es[k].Start? && es[k].r == Works
    ensures ss[k + 1].memory.Some?
    ensures MigratedFrom(Legacy(ss[0].disk), Some(ss[k + 1].memory.value.settings))
    ensures TakenOver(Legacy(ss[0].disk).settings, ss[k + 1].memory.value.settings)
  {
    MigratedAtStart(ss, es, k);
    var yaml, settings := Legacy(ss[0].disk), ss[k + 1].memory.value.settings;
    var input: Input :| FreshSecrets(input) && Some(settings) == Migrated(yaml, input.salt, input.token);
    MigratedIs(yaml.settings, input.salt, input.token);
  }

  lemma MigratedAtStart(ss: seq<System>, es: seq<Event>, k: nat)
    requires Run(ss, es) && k < |es| && !Initialized(ss[0].disk)
    requires Quiet(es, 0, k) && UntouchedYaml(es, k)
    requires es[k].Start? && es[k].r == Works
    ensures ss[k + 1].memory.Some?
    ensures MigratedFrom(Legacy(ss[0].disk), Some(ss[k + 1].memory.value.settings))
  {
    LegacyUntilCommitted(ss, es, k + 1);
    StartedHasCommitted(ss, es, k);
  }

  /** The settings in memory change only in a start or in an update that commits. */
  lemma MemoryFollowsCommits(ss: seq<System>, es: seq<Event>, k: nat)
    requires Run(ss, es) && k < |es| && ss[k].memory.Some? && ss[k + 1].memory.Some?
    ensures ss[k].memory.value.settings != ss[k + 1].memory.value.settings ==> Commits(es[k])
    ensures Some(ss[k + 1].memory.value.settings) == ss[k + 1].committed
  {
    StepAt(ss, es, k);
    EveryStateIsSafe(ss, es, k + 1);
  }

  /** Once there is a backup no later step replaces it, complete or not. */
  lemma {:induction false} BackupIsFinal(ss: seq<System>, es: seq<Event>, i: nat, k: nat)
    requires Linked(ss, es) && i <= k < |ss| && ss[i].disk.backup != NoBackup
    ensures ss[k].disk.backup == ss[i].disk.backup
    decreases k - i
  {
    if i < k {
      BackupIsFinal(ss, es, i, k - 1);
      StepKeepsBackup(ss, es, k - 1);
    }
  }

  lemma StepKeepsBackup(ss: seq<System>, es: seq<Event>, k: nat)
    requires Linked(ss, es) && k < |es| && ss[k].disk.backup != NoBackup
    ensures ss[k + 1].disk.backup == ss[k].disk.backup
  {
    StepAt(ss, es, k);
  }

  // The step after which there is a backup.
  ghost predicate MakesBackup(ss: seq<System>, es: seq<Event>, i: nat)
    requires |ss| == |es| + 1
  {
    i < |es| && ss[i].disk.backup == NoBackup && ss[i + 1].disk.backup != NoBackup
  }

  /** In every run the backup, once made, is complete if and only if the start that made it could finish writing it,
      and partial for good if and only if that start was interrupted while writing it. */
  lemma BackupIsCompleteIff(ss: seq<System>, es: seq<Event>, i: nat, k: nat)
    requires Linked(ss, es) && MakesBackup(ss, es, i) && i < k < |ss|
    ensures es[i].Start?
    ensures ss[k].disk.backup.FullBackup? <==> es[i].input.written == Works
    ensures ss[k].disk.backup.PartialBackup? <==> es[i].input.written == Crashes
  {
    StepAt(ss, es, i);
    BackupIsFinal(ss, es, i + 1, k);
  }

  // A start among the first `k` events found a way to rewrite the file.
  predicate Refreshed(es: seq<Event>, k: nat)
    requires k <= |es|
  {
    exists j :: 0 <= j < k && es[j].Start? && es[j].input.refreshed
  }

  lemma RefreshedNext(es: seq<Event>, k: nat)
    requires k < |es|
    ensures Refreshed(es, k + 1) <==> Refreshed(es, k) || (es[k].Start? && es[k].input.refreshed)
  {
  }

  lemma StepKeepsYaml(ss: seq<System>, es: seq<Event>, k: nat, yaml: Yaml, refreshed: bool)
    requires Linked(ss, es) && k < |es| && !es[k].RestoreYaml? && ss[k + 1].disk.backup == NoBackup
    requires ss[k].disk.yaml == Some(AfterRead(yaml, refreshed))
    ensures ss[k + 1].disk.yaml == Some(AfterRead(yaml, refreshed || (es[k].Start? && es[k].input.refreshed)))
  {
    StepAt(ss, es, k);
  }

  lemma {:induction false} YamlUntilBackup(ss: seq<System>, es: seq<Event>, k: nat)
    requires Linked(ss, es) && k < |ss| && ss[0].disk.yaml.Some? && UntouchedYaml(es, k)
    requires ss[k].disk.backup == NoBackup
    ensures ss[k].disk.yaml == Some(AfterRead(ss[0].disk.yaml.value, Refreshed(es, k)))
  {
    if k > 0 {
      if ss[k - 1].disk.backup != NoBackup { BackupIsFinal(ss, es, k - 1, k); }
      YamlUntilBackup(ss, es, k - 1);
      StepKeepsYaml(ss, es, k - 1, ss[0].disk.yaml.value, Refreshed(es, k - 1));
      RefreshedNext(es, k - 1);
    }
  }

  /** A complete backup holds the file the run began with, as it was, if and only if that file was not dated or no
      start up to the one that made the backup could rewrite it; the rewriting itself makes none. */
  lemma OriginalIsBackedUpIff(ss: seq<System>, es: seq<Event>, i: nat, k: nat)
    requires Linked(ss, es) && MakesBackup(ss, es, i) && i < k < |ss| && es[i].Start? && es[i].input.written == Works
    requires ss[0].disk.yaml.Some? && UntouchedYaml(es, i)
    ensures ss[k].disk.backup == FullBackup(ss[0].disk.yaml.value)
      <==> !(ss[0].disk.yaml.value.dated && Refreshed(es, i + 1))
  {
    var original := ss[0].disk.yaml.value;
    YamlUntilBackup(ss, es, i);
    RefreshedNext(es, i);
    BackupIsCompleteIff(ss, es, i, k);
    BackupIsFinal(ss, es, i + 1, k);
    BackupHolds(ss, es, i, original);
  }

  lemma BackupHolds(ss: seq<System>, es: seq<Event>, i: nat, original: Yaml)
    requires Linked(ss, es) && MakesBackup(ss, es, i) && es[i].Start? && es[i].input.written == Works
    requires UntouchedYaml(es, i) && ss[i].disk.yaml == Some(AfterRead(original, Refreshed(es, i)))
    ensures ss[i + 1].disk.backup == FullBackup(AfterRead(original, Refreshed(es, i + 1)))
  {
    StepAt(ss, es, i);
    RefreshedNext(es, i);
  }

  // ------------------------------------------------------ two runs of one start

  // A dated file that is not marked, and nothing else.
  function Legacies(settings: Settings): System {
    System(Disk(Some(Yaml(0, settings, true)), NoBackup, None), None, None)
  }

  // After a start from there in which nothing fails.
  function Migrating(settings: Settings, normal: Settings): System {
    System(Disk(Some(Yaml(CURRENT_VERSION, DEFAULT_SETTINGS, false)),
                FullBackup(Yaml(0, FromYaml(settings), false)), Some(Tables(true, CURRENT_VERSION, Some(normal)))),
           Some(Memory(normal, false)), Some(normal))
  }

  lemma LegaciesAreSafe(settings: Settings)
    ensures Safe(Legacies(settings))
  {
  }

  lemma MigratingIsSafe(settings: Settings, normal: Settings)
    requires Loaded(normal) == Some(normal)
    ensures Safe(Migrating(settings, normal))
  {
  }

  lemma MigratingStarts(settings: Settings, normal: Settings, input: Input)
    requires FreshSecrets(input) && input.refreshed && input.written == Works
    requires Migrated(Yaml(0, settings, true), input.salt, input.token) == Some(normal)
    ensures Next(Legacies(settings), Migrating(settings, normal), Start(Works, input))
  {
    var s, s', yaml := Legacies(settings), Migrating(settings, normal), Yaml(0, settings, true);
    var read := s.disk.(yaml := Some(AfterRead(yaml, true)));
    assert Opens(s, read, s', input);
    MigratedLoads(yaml, input);
    Starts(s, read, s', input);
  }

  // Whatever else it does, a start from there that rewrites the file and works backs up the rewritten one.
  lemma RewrittenIsBackedUp(settings: Settings, s': System, input: Input)
    requires input.refreshed && input.written == Works && Next(Legacies(settings), s', Start(Works, input))
    ensures s'.disk.backup == FullBackup(Yaml(0, FromYaml(settings), false))
  {
  }

  /** A start in which nothing fails, from a dated file: it rewrites the file before it makes the backup, and then
      neither of them is the original any more. */
  lemma DatedFileIsNotKept(settings: Settings, normal: Settings, input: Input)
    requires FreshSecrets(input) && input.refreshed && input.written == Works
    requires Migrated(Yaml(0, settings, true), input.salt, input.token) == Some(normal)
    ensures var ss, es := [Legacies(settings), Migrating(settings, normal)], [Start(Works, input)];
      && Run(ss, es) && MakesBackup(ss, es, 0)
      && ss[1].disk.backup.FullBackup? && ss[1].disk.backup != FullBackup(ss[0].disk.yaml.value)
      && ss[1].disk.yaml != ss[0].disk.yaml
    ensures forall s' :: Next(Legacies(settings), s', Start(Works, input)) ==>
      s'.disk.backup.FullBackup? && s'.disk.backup != FullBackup(Yaml(0, settings, true))
  {
    var ss, es := [Legacies(settings), Migrating(settings, normal)], [Start(Works, input)];
    LegaciesAreSafe(settings);
    MigratingStarts(settings, normal, input);
    assert NextAt(ss, es, 0);
    forall s' | Next(Legacies(settings), s', Start(Works, input))
      ensures s'.disk.backup.FullBackup? && s'.disk.backup != FullBackup(Yaml(0, settings, true))
    {
      RewrittenIsBackedUp(settings, s', input);
    }
  }

  function Interrupted(settings: Settings): System {
    Legacies(settings).(disk :=
      Disk(Some(Yaml(0, settings, true)), PartialBackup, Some(Tables(false, 0, None))))
  }

  lemma InterruptedStarts(settings: Settings, input: Input)
    requires !input.refreshed && input.written == Crashes && FreshSecrets(input)
    ensures Next(Legacies(settings), Interrupted(settings), Start(Crashes, input))
  {
  }

  /** A start that is interrupted while it writes the backup leaves a partial one. */
  lemma InterruptedBackupIsPartial(settings: Settings, input: Input)
    requires !input.refreshed && input.written == Crashes && FreshSecrets(input)
    ensures var ss, es := [Legacies(settings), Interrupted(settings)], [Start(Crashes, input)];
      Run(ss, es) && MakesBackup(ss, es, 0) && ss[1].disk.backup == PartialBackup
  {
    var ss, es := [Legacies(settings), Interrupted(settings)], [Start(Crashes, input)];
    LegaciesAreSafe(settings);
    InterruptedStarts(settings, input);
    assert NextAt(ss, es, 0);
  }
}
