/** Starting from a YAML file and a database that may each be left behind by an interrupted start. */
module ConfigStore {
  import opened Wrappers
  import opened Text
  import opened ConfigSettings

  /** `dated` tells whether the file has its call timeouts in a form that is rewritten when it is read. */
  datatype Yaml = Yaml(marker: int, settings: Settings, dated: bool)

  datatype Backup = NoBackup | PartialBackup | FullBackup(yaml: Yaml)

  /** The tables exist before anything is in them; the rows and the two metadata values are committed together. */
  datatype Database = Empty | Tables(initialized: bool, version: nat, runtime: Option<Settings>)

  /** What survives a crash. */
  datatype Disk = Disk(yaml: Option<Yaml>, backup: Backup, db: Option<Database>)

  datatype Memory = Memory(settings: Settings, readOnly: bool)

  /** The whole system, with the settings last committed. */
  datatype System = System(disk: Disk, memory: Option<Memory>, committed: Option<Settings>)

  /** What a step that touches the disk may do; a crash happens before the step takes effect. */
  datatype Outcome = Works | Fails | Crashes

  datatype Faults = Faults(readYaml: Outcome, create: Outcome, open: Outcome, tables: Outcome, backup: Outcome,
                           backupWrite: Outcome,
                           commit: Outcome, check: Outcome, probe: Outcome, reopen: Outcome,
                           laterBackup: Outcome, laterBackupWrite: Outcome, rewrite: Outcome)

  predicate NoFaults(f: Faults) {
    f == Faults(Works, Works, Works, Works, Works, Works, Works, Works, Works, Works, Works, Works, Works)
  }

  predicate OpensReadOnly(f: Faults) {
    f.readYaml != Crashes && f.open == Fails && f.reopen == f.laterBackup == f.laterBackupWrite == f.rewrite == Works
  }

  const CURRENT_VERSION: nat := 1

  predicate Marked(disk: Disk) {
    disk.yaml.Some? && disk.yaml.value.marker >= CURRENT_VERSION
  }

  predicate Initialized(disk: Disk) {
    disk.db.Some? && disk.db.value.Tables? && disk.db.value.initialized
  }

  function Stored(disk: Disk): Option<Settings> {
    if Initialized(disk) then disk.db.value.runtime else None
  }

  // Schema 1 and loadable rows whenever the database says it is initialised; none of it before.
  predicate SoundDatabase(disk: Disk) {
    disk.db.Some? && disk.db.value.Tables? ==>
      var db := disk.db.value;
      if db.initialized
      then db.version == CURRENT_VERSION && db.runtime.Some? && Loaded(db.runtime.value) == db.runtime
      else db.version == 0 && db.runtime == None
  }

  /** A marked YAML file implies an initialised database at schema 1 with the settings last committed. */
  predicate Safe(s: System) {
    && SoundDatabase(s.disk)
    && (Marked(s.disk) ==> Initialized(s.disk))
    && Stored(s.disk) == s.committed
    && (s.memory.Some? ==> Marked(s.disk) && Some(s.memory.value.settings) == s.committed)
  }

  const DEFAULT_SETTINGS := Settings("", "", DEFAULT_TITLE, "", "{projectName}-{branch}", [], "")

  // The YAML file a start goes by: a missing one counts as unmarked defaults.
  function Legacy(disk: Disk): Yaml {
    if disk.yaml.Some? then disk.yaml.value else Yaml(0, DEFAULT_SETTINGS, false)
  }

  /** A dated file after it has been rewritten: an unmarked one with the settings as they were read, a marked one
      without any. */
  function Rewritten(yaml: Yaml): Yaml {
    if !yaml.dated then yaml else
    Yaml(yaml.marker, if yaml.marker >= CURRENT_VERSION then DEFAULT_SETTINGS else FromYaml(yaml.settings), false)
  }

  /** Version 1 marks a file. One in the old form keeps its settings, as they were read, until it is marked. */
  lemma RewrittenIs(yaml: Yaml, disk: Disk)
    ensures !yaml.dated ==> Rewritten(yaml) == yaml
    ensures yaml.dated ==> !Rewritten(yaml).dated && Rewritten(yaml).marker == yaml.marker
    ensures yaml.dated && yaml.marker < 1 ==> Rewritten(yaml).settings == FromYaml(yaml.settings)
    ensures yaml.dated && yaml.marker >= 1 ==> Rewritten(yaml).settings == DEFAULT_SETTINGS
    ensures Marked(disk) <==> disk.yaml.Some? && disk.yaml.value.marker >= 1
    ensures Reading(disk) == Legacy(disk).(settings := FromYaml(Legacy(disk).settings), dated := false)
  {
  }

  function AfterRead(yaml: Yaml, refreshed: bool): Yaml {
    if refreshed then Rewritten(yaml) else yaml
  }

  /** What a start reads. */
  function Reading(disk: Disk): Yaml {
    Legacy(disk).(settings := FromYaml(Legacy(disk).settings), dated := false)
  }

  /** What the first commit writes. */
  function Migrated(yaml: Yaml, salt: string, token: string): Option<Settings> {
    Normal(WithSecrets(FromYaml(yaml.settings), salt, token))
  }

  /** Fresh secrets; whether the rewriting of the file, if it is dated, works; what becomes of the backup, if the
      start gets as far as writing one. */
  datatype Input = Input(salt: string, token: string, refreshed: bool, written: Outcome)

  predicate FreshSecrets(input: Input) {
    Trim(input.salt) != "" && Trim(input.token) != ""
  }

  // ---------------------------------------------------------------- one call

  /** What a start does whatever happens to it, and on whatever disk it finds. */
  predicate StartStep(s: System, s': System, r: Outcome, input: Input) {
    && (Safe(s) ==> Safe(s'))
    && (r == Works <==> s'.memory.Some?)
    && (r == Works ==> Marked(s'.disk) && Initialized(s'.disk) && Some(s'.memory.value.settings) == Loading(s'.disk))
    && Keeps(s.disk, s'.disk, input)
    && (if Initialized(s.disk) || !Initialized(s'.disk)
        then s'.committed == s.committed && Stored(s'.disk) == Stored(s.disk)
        else s'.committed == Stored(s'.disk) == Migrated(Legacy(s.disk), input.salt, input.token) && !Marked(s.disk))
    && (Marked(s.disk) && !Initialized(s.disk) ==>
          r != Works && s'.disk == s.disk.(yaml := Some(AfterRead(s.disk.yaml.value, input.refreshed))))
  }

  function Loading(disk: Disk): Option<Settings> {
    match Stored(disk) case None => None case Some(settings) => Loaded(settings)
  }

  /** Nothing on the disk is lost: an initialised database stays, and until there is one a start reads the same. A YAML
      file stays as it is but for the rewriting of a dated one, or it is given up for an initialised database, with a
      backup beside it. A backup is never replaced, and a new one that is complete holds the file as it was after the
      rewriting. */
  predicate Keeps(d: Disk, d': Disk, input: Input) {
    && (Initialized(d) ==> Initialized(d') && d'.db == d.db)
    && (!Initialized(d') && !Marked(d) ==> Reading(d') == Reading(d))
    && (Marked(d) ==> Marked(d'))
    && (d.yaml.Some? ==>
          || d'.yaml == Some(AfterRead(d.yaml.value, input.refreshed))
          || (Marked(d') && !Marked(d) && Initialized(d') && d'.backup != NoBackup))
    && BacksUp(d.(yaml := if d.yaml.None? then None else Some(AfterRead(d.yaml.value, input.refreshed))), d',
               d.yaml.Some?, input.written)
  }

  // The backup is made once, from a file that existed, and is complete or partial as its writing went.
  predicate BacksUp(d: Disk, d': Disk, existed: bool, written: Outcome) {
    && (!existed || d.backup != NoBackup ==> d'.backup == d.backup)
    && (d'.backup.FullBackup? && d.backup == NoBackup ==> Some(d'.backup.yaml) == d.yaml)
    && (d.backup == NoBackup && d'.backup != NoBackup ==>
          (written == Works <==> d'.backup.FullBackup?) && (written == Crashes <==> d'.backup.PartialBackup?))
  }

  // Either nothing is committed, though the tables may have been created, or these settings are.
  predicate Fills(d: Disk, d': Disk, committed: Option<Settings>, committed': Option<Settings>,
                  normal: Option<Settings>) {
    || (committed' == committed && (d'.db == d.db || BlankSteps(d.db, d'.db)))
    || (!Initialized(d) && normal.Some? && committed' == normal && d'.db == Some(Tables(true, CURRENT_VERSION, normal)))
  }

  predicate BlankSteps(db: Option<Database>, db': Option<Database>) {
    (db == None && db' == Some(Empty)) || (db in {None, Some(Empty)} && db' == Some(Tables(false, 0, None)))
  }

  // A database that opens for writing: filled already, or still to be filled from a file that is not marked.
  predicate IsCurrent(disk: Disk) {
    Initialized(disk) && disk.db.value.version == CURRENT_VERSION && Loading(disk).Some?
  }

  predicate CanOpen(disk: Disk, config: Yaml, normal: Option<Settings>) {
    if Initialized(disk) then IsCurrent(disk)
    else
      && config.marker < CURRENT_VERSION && normal.Some? && Loaded(normal.value).Some?
      && Version(disk) <= CURRENT_VERSION
  }

  function Version(disk: Disk): nat {
    if disk.db.Some? && disk.db.value.Tables? then disk.db.value.version else 0
  }

  /** An update that commits changes the stored settings, then those in memory; any other changes nothing. */
  predicate UpdateStep(s: System, s': System, r: Outcome, next: Option<Settings>) {
    match r
    case Works =>
      && s.memory.Some? && next.Some? && s'.disk.db == Some(Tables(true, CURRENT_VERSION, next))
      && s' == System(s.disk.(db := s'.disk.db), Some(s.memory.value.(settings := next.value)), next)
    case Fails => s' == s
    case Crashes => s' == s.(memory := None)
  }

  // ------------------------------------------------------ the ways of a start

  predicate ReadsYaml(d: Disk, d': Disk, refreshed: bool) {
    if d.yaml.None? then d' == d || d' == d.(yaml := Some(Yaml(0, DEFAULT_SETTINGS, false)))
    else d' == d.(yaml := Some(AfterRead(d.yaml.value, refreshed)))
  }

  // The database and the backup after a start has opened the store.
  predicate Opens(s: System, read: Disk, s': System, input: Input) {
    && ReadsYaml(s.disk, read, input.refreshed)
    && (Initialized(s.disk) ==> s'.disk.db == s.disk.db && s'.committed == s.committed)
    && BacksUp(read, s'.disk, s.disk.yaml.Some?, input.written)
    && Fills(read, s'.disk, s.committed, s'.committed, Migrated(Legacy(s.disk), input.salt, input.token))
    && (Marked(s.disk) && !Initialized(s.disk) ==> s'.disk == read)
  }

  lemma MigratedLoads(yaml: Yaml, input: Input)
    requires FreshSecrets(input)
    ensures Migrated(yaml, input.salt, input.token).Some?
    ensures Loaded(Migrated(yaml, input.salt, input.token).value) == Migrated(yaml, input.salt, input.token)
  {
    YamlIsNormal(yaml.settings, input.salt, input.token);
    CommittedLoadsAsItIs(WithSecrets(FromYaml(yaml.settings), input.salt, input.token));
  }

  lemma SafeCanOpen(s: System, read: Disk, config: Yaml, input: Input)
    requires Safe(s) && FreshSecrets(input) && ReadsYaml(s.disk, read, input.refreshed)
    requires config == Reading(s.disk)
    ensures CanOpen(read, config, Migrated(Legacy(s.disk), input.salt, input.token))
  {
    MigratedLoads(Legacy(s.disk), input);
  }

  // Rewriting the file does not change what is read.
  lemma ReadingStays(d: Disk, d': Disk, refreshed: bool)
    requires ReadsYaml(d, d', refreshed) && !Marked(d)
    ensures Reading(d') == Reading(d) && !Marked(d')
  {
    FromYamlTwice(Legacy(d).settings);
  }

  lemma OpensSafely(s: System, read: Disk, s': System, input: Input)
    requires Opens(s, read, s', input)
    ensures if Initialized(s.disk) || !Initialized(s'.disk)
            then s'.committed == s.committed && Stored(s'.disk) == Stored(s.disk)
            else s'.committed == Stored(s'.disk) == Migrated(Legacy(s.disk), input.salt, input.token) && !Marked(s.disk)
    ensures Initialized(s.disk) ==> Initialized(s'.disk) && s'.disk.db == s.disk.db
  {
    FilledStores(read, s'.disk, s.committed, s'.committed, Migrated(Legacy(s.disk), input.salt, input.token));
  }

  lemma FilledStores(d: Disk, d': Disk, committed: Option<Settings>, committed': Option<Settings>,
                     normal: Option<Settings>)
    requires Fills(d, d', committed, committed', normal)
    ensures Initialized(d) ==> Initialized(d') && d'.db == d.db && committed' == committed
    ensures !Initialized(d) && Initialized(d') ==> committed' == normal == Stored(d')
    ensures !Initialized(d') ==> committed' == committed && Stored(d') == Stored(d)
  {
  }

  lemma OpensSoundly(s: System, read: Disk, s': System, input: Input)
    requires Opens(s, read, s', input) && FreshSecrets(input) && SoundDatabase(s.disk)
    ensures SoundDatabase(s'.disk)
  {
    var normal := Migrated(Legacy(s.disk), input.salt, input.token);
    MigratedLoads(Legacy(s.disk), input);
    FilledIsSound(read, s'.disk, s.committed, s'.committed, normal);
  }

  lemma FilledIsSound(d: Disk, d': Disk, committed: Option<Settings>, committed': Option<Settings>,
                      normal: Option<Settings>)
    requires SoundDatabase(d) && Fills(d, d', committed, committed', normal)
    requires normal.Some? && Loaded(normal.value) == normal
    ensures SoundDatabase(d')
  {
  }

  lemma OpensKeeping(s: System, read: Disk, s': System, input: Input)
    requires Opens(s, read, s', input)
    requires s'.disk.yaml == read.yaml || (Marked(s'.disk) && !Marked(s.disk) && Initialized(s'.disk)
                                           && (s.disk.yaml.Some? ==> s'.disk.backup != NoBackup))
    ensures Keeps(s.disk, s'.disk, input)
  {
    OpensSafely(s, read, s', input);
    if !Marked(s.disk) { ReadingStays(s.disk, read, input.refreshed); }
  }

  lemma StopsUnmarked(s: System, read: Disk, s': System, input: Input)
    requires Opens(s, read, s', input) && FreshSecrets(input)
    requires s.memory == None && s'.memory == None && s'.disk.yaml == read.yaml
    ensures forall r :: r != Works ==> StartStep(s, s', r, input)
  {
    OpensSafely(s, read, s', input);
    OpensKeeping(s, read, s', input);
    if SoundDatabase(s.disk) { OpensSoundly(s, read, s', input); }
  }

  lemma Starts(s: System, read: Disk, s': System, input: Input)
    requires Opens(s, read, s', input) && FreshSecrets(input)
    requires Initialized(s'.disk) && s'.memory.Some? && Some(s'.memory.value.settings) == Loading(s'.disk)
    requires if Marked(s.disk) then s'.disk.yaml == read.yaml
             else s'.disk.yaml == Some(Yaml(CURRENT_VERSION, DEFAULT_SETTINGS, false))
                  && (s.disk.yaml.Some? ==> s'.disk.backup != NoBackup)
    ensures StartStep(s, s', Works, input)
  {
    OpensSafely(s, read, s', input);
    OpensKeeping(s, read, s', input);
    if SoundDatabase(s.disk) { OpensSoundly(s, read, s', input); }
  }

  // -------------------------------------------------------------- the program

  function InputOf(f: Faults, disk: Disk, salt: string, token: string): Input {
    Input(salt, token, f.readYaml == Works, if Initialized(disk) then f.laterBackupWrite else f.backupWrite)
  }

  class Program {
    var disk: Disk
    var memory: Option<Memory>
    ghost var committed: Option<Settings>

    ghost function Now(): System
      reads this
    {
      System(disk, memory, committed)
    }

    constructor (disk: Disk)
      ensures Now() == System(disk, None, Stored(disk))
    {
      this.disk, this.memory, this.committed := disk, None, Stored(disk);
    }

    // The legacy file is copied once; the copy is taken back if writing it fails, but not if it is interrupted.
    method BackupLegacyOnce(existed: bool, create: Outcome, write: Outcome) returns (r: Outcome)
      requires existed ==> disk.yaml.Some?
      modifies this`disk
      ensures disk == old(disk).(backup := disk.backup)
      ensures !existed || old(disk).backup != NoBackup ==> r == Works && disk == old(disk)
      ensures existed && old(disk).backup == NoBackup ==>
        r == (if create == Works then write else create)
        && disk.backup == (if create != Works then NoBackup else match write
             case Works => FullBackup(disk.yaml.value) case Fails => NoBackup case Crashes => PartialBackup)
    {
      if !existed || disk.backup != NoBackup {
        return Works;
      }
      if create != Works {
        return create;
      }
      disk := disk.(backup := PartialBackup);
      if write == Works {
        disk := disk.(backup := FullBackup(disk.yaml.value));
      } else if write == Fails {
        disk := disk.(backup := NoBackup);
      }
      r := write;
    }

    /** The settings a start begins with. A missing file is written with defaults, and a dated one is rewritten,
        without a backup; the start goes on if that fails. */
    method ReadConfig(fault: Outcome) returns (r: Outcome, config: Yaml, existed: bool)
      modifies this`disk
      ensures existed == old(disk).yaml.Some? && config == Reading(old(disk))
      ensures r == (if fault == Crashes && (!existed || old(disk).yaml.value.dated) then Crashes else Works)
      ensures ReadsYaml(old(disk), disk, fault == Works)
      ensures !existed && fault == Works ==> disk.yaml.Some?
    {
      existed := disk.yaml.Some?;
      r := Works;
      config := Yaml(0, DEFAULT_SETTINGS, false);
      if !existed {
        if fault == Works {
          disk := disk.(yaml := Some(config));
        }
        r := if fault == Crashes then Crashes else Works;
      } else {
        config := disk.yaml.value;
      }
      var needsRewrite := config.dated;
      config := config.(settings := FromYaml(config.settings), dated := false);
      if needsRewrite {
        if fault == Works {
          var written := if config.marker >= CURRENT_VERSION then config.(settings := DEFAULT_SETTINGS) else config;
          disk := disk.(yaml := Some(written));
        }
        r := if fault == Crashes then Crashes else Works;
      }
    }

    method LoadRuntimeConfig() returns (loaded: Option<Settings>)
      requires Initialized(disk)
      ensures loaded == Loading(disk)
    {
      match disk.db.value.runtime
      case None => loaded := None;
      case Some(settings) => loaded := Loaded(settings);
    }

    /** The writable database, filled from the YAML settings unless it has been before. */
    method InitializeWritable(config: Yaml, existed: bool, f: Faults, salt: string, token: string)
      returns (r: Outcome, loaded: Option<Settings>)
      requires disk.db.Some? && (existed ==> disk.yaml.Some?)
      modifies this`disk, this`committed
      ensures disk == old(disk).(backup := disk.backup, db := disk.db) && disk.db.Some?
      ensures Initialized(old(disk)) || config.marker >= CURRENT_VERSION ==>
                disk == old(disk) && committed == old(committed)
      ensures config.marker >= CURRENT_VERSION && !Initialized(old(disk)) ==> r == Fails
      ensures BacksUp(old(disk), disk, existed, f.backupWrite)
      ensures !Initialized(old(disk)) && Initialized(disk) && existed ==> disk.backup != NoBackup
      ensures Fills(old(disk), disk, old(committed), committed, Normal(WithSecrets(config.settings, salt, token)))
      ensures r == Works <==> loaded.Some?
      ensures r == Works ==> Initialized(disk) && loaded == Loading(disk)
      ensures NoFaults(f) && CanOpen(old(disk), config, Normal(WithSecrets(config.settings, salt, token))) ==>
                r == Works
    {
      loaded := None;
      var hasMetadata := disk.db.value.Tables?;
      if config.marker >= CURRENT_VERSION && !hasMetadata {
        return Fails, None;
      }
      var initialized := hasMetadata && disk.db.value.initialized;
      var version := if hasMetadata then disk.db.value.version else 0;
      if version > CURRENT_VERSION || (config.marker >= CURRENT_VERSION && !initialized) {
        return Fails, None;
      }
      if initialized {
        if version != CURRENT_VERSION || f.check != Works {
          return if version != CURRENT_VERSION then Fails else f.check, None;
        }
      } else {
        r := Migrate(config.settings, existed, f, salt, token);
        if r != Works {
          return;
        }
      }
      loaded := LoadRuntimeConfig();
      r := if loaded.Some? then Works else Fails;
    }

    method Migrate(settings: Settings, existed: bool, f: Faults, salt: string, token: string) returns (r: Outcome)
      requires disk.db.Some? && !Initialized(disk) && (existed ==> disk.yaml.Some?)
      modifies this`disk, this`committed
      ensures disk == old(disk).(backup := disk.backup, db := disk.db) && disk.db.Some?
      ensures BacksUp(old(disk), disk, existed, f.backupWrite)
      ensures Initialized(disk) && existed ==> disk.backup != NoBackup
      ensures Fills(old(disk), disk, old(committed), committed, Normal(WithSecrets(settings, salt, token)))
      ensures r == Works ==> Initialized(disk)
      ensures NoFaults(f) && Normal(WithSecrets(settings, salt, token)).Some? ==>
        r == Works && Stored(disk) == Normal(WithSecrets(settings, salt, token))
    {
      if f.tables != Works {
        return f.tables;
      }
      if disk.db.value.Empty? {
        disk := disk.(db := Some(Tables(false, 0, None)));
      }
      r := BackupLegacyOnce(existed, f.backup, f.backupWrite);
      if r != Works {
        return;
      }
      var normal := Normal(WithSecrets(settings, salt, token));
      if normal.None? {
        return Fails;
      }
      if f.commit != Works {
        return f.commit;
      }
      disk := disk.(db := Some(Tables(true, CURRENT_VERSION, normal)));
      committed := normal;
      r := f.check;
    }
  
    method InitializeReadOnly(fault: Outcome) returns (r: Outcome, loaded: Option<Settings>)
      ensures r == Works <==> loaded.Some?
      ensures r == Works ==> Initialized(disk) && loaded == Loading(disk)
      ensures r == if disk.db.None? then Fails else if fault != Works then fault
        else if IsCurrent(disk) then Works else Fails
    {
      if disk.db.None? {
        return Fails, None;
      }
      if fault != Works {
        return fault, None;
      }
      if !disk.db.value.Tables? || !disk.db.value.initialized || disk.db.value.version != CURRENT_VERSION {
        return Fails, None;
      }
      loaded := LoadRuntimeConfig();
      r := if loaded.Some? then Works else Fails;
    }

    /** The YAML file is rewritten without runtime settings, and marked, unless it has been before. */
    method Activate(config: Yaml, existed: bool, f: Faults) returns (r: Outcome)
      requires existed ==> disk.yaml.Some?
      modifies this`disk
      ensures disk == old(disk).(backup := disk.backup, yaml := disk.yaml)
      ensures BacksUp(old(disk), disk, existed, f.laterBackupWrite)
      ensures config.marker >= CURRENT_VERSION ==> r == Works && disk == old(disk)
      ensures config.marker < CURRENT_VERSION && r == Works ==>
        disk.yaml == Some(Yaml(CURRENT_VERSION, DEFAULT_SETTINGS, false)) && (existed ==> disk.backup != NoBackup)
      ensures r != Works ==> disk.yaml == old(disk).yaml
      ensures f.laterBackup == f.laterBackupWrite == f.rewrite == Works ==> r == Works
    {
      r := Works;
      if config.marker < CURRENT_VERSION {
        r := BackupLegacyOnce(existed, f.laterBackup, f.laterBackupWrite);
        if r != Works {
          return;
        }
        r := f.rewrite;
        if r == Works {
          disk := disk.(yaml := Some(Yaml(CURRENT_VERSION, DEFAULT_SETTINGS, false)));
        }
      }
    }

    // Opening for writing creates an empty file where there is none.
    method OpenWritable(f: Faults) returns (r: Outcome)
      modifies this`disk
      ensures disk == old(disk).(db := if old(disk).db.None? && f.create == Works then Some(Empty) else old(disk).db)
      ensures r == if old(disk).db.None? && f.create != Works then f.create else f.open
      ensures r == Works ==> disk.db.Some?
    {
      if disk.db.None? {
        if f.create != Works {
          return f.create;
        }
        disk := disk.(db := Some(Empty));
      }
      r := f.open;
    }

    /** Writable if possible, else read-only. */
    method OpenStore(config: Yaml, existed: bool, f: Faults, salt: string, token: string)
      returns (r: Outcome, loaded: Option<Settings>, readOnly: bool)
      requires existed ==> disk.yaml.Some?
      requires config.marker >= CURRENT_VERSION ==> disk.db.Some?
      modifies this`disk, this`committed
      ensures disk == old(disk).(backup := disk.backup, db := disk.db)
      ensures Initialized(old(disk)) || config.marker >= CURRENT_VERSION ==>
                disk == old(disk) && committed == old(committed)
      ensures config.marker >= CURRENT_VERSION && !Initialized(old(disk)) ==> r != Works
      ensures BacksUp(old(disk), disk, existed, f.backupWrite)
      ensures !Initialized(old(disk)) && Initialized(disk) && existed ==> disk.backup != NoBackup
      ensures Fills(old(disk), disk, old(committed), committed, Normal(WithSecrets(config.settings, salt, token)))
      ensures r == Works <==> loaded.Some?
      ensures r == Works ==> Initialized(disk) && loaded == Loading(disk)
      ensures NoFaults(f) && CanOpen(old(disk), config, Normal(WithSecrets(config.settings, salt, token))) ==>
        r == Works && !readOnly
      ensures OpensReadOnly(f) && IsCurrent(old(disk)) ==> r == Works && readOnly
    {
      readOnly := true;
      r := OpenWritable(f);
      if r == Works {
        r, loaded := InitializeWritable(config, existed, f, salt, token);
        if r == Works {
          r := f.probe;
          if r == Works {
            readOnly := false;
            return;
          }
        }
      }
      loaded := None;
      if r == Fails {
        r, loaded := InitializeReadOnly(f.reopen);
      }
    }

    method Start(f: Faults, salt: string, token: string) returns (r: Outcome)
      requires memory == None && Trim(salt) != "" && Trim(token) != ""
      modifies this
      ensures StartStep(old(Now()), Now(), r, InputOf(f, old(disk), salt, token))
      ensures Safe(old(Now())) && NoFaults(f) ==> r == Works && !memory.value.readOnly
      ensures Safe(old(Now())) && Initialized(old(disk)) && old(disk).yaml.Some? && OpensReadOnly(f) ==>
        r == Works && memory.value.readOnly
    {
      var config, existed, loaded, readOnly;
      ghost var before, read, input := Now(), disk, InputOf(f, disk, salt, token);
      r, config, existed, loaded, readOnly, read := ReadAndOpen(f, salt, token);
      if r != Works {
        StopsUnmarked(before, read, Now(), input);
        return;
      }
      r := Activate(config, existed, f);
      if r != Works {
        StopsUnmarked(before, read, Now(), input);
        return;
      }
      memory := Some(Memory(loaded.value, readOnly));
      Starts(before, read, Now(), input);
    }

    method ReadAndOpen(f: Faults, salt: string, token: string)
      returns (r: Outcome, config: Yaml, existed: bool, loaded: Option<Settings>, readOnly: bool, ghost read: Disk)
      requires Trim(salt) != "" && Trim(token) != ""
      modifies this`disk, this`committed
      ensures Opens(old(Now()), read, Now(), InputOf(f, old(disk), salt, token)) && disk.yaml == read.yaml
      ensures existed == old(disk).yaml.Some? && config.marker == Legacy(old(disk)).marker
      ensures r == Works ==> Initialized(disk) && loaded == Loading(disk) && loaded.Some?
      ensures r == Works && existed && !Initialized(old(disk)) ==> disk.backup != NoBackup
      ensures r == Works && Initialized(old(disk)) ==> disk.backup == old(disk).backup
      ensures Safe(old(Now())) && NoFaults(f) ==> r == Works && !readOnly
      ensures Safe(old(Now())) && Initialized(old(disk)) && old(disk).yaml.Some? && OpensReadOnly(f) ==>
        r == Works && readOnly
    {
      ghost var before, input := Now(), InputOf(f, disk, salt, token);
      r, config, existed := ReadConfig(f.readYaml);
      read, loaded, readOnly := disk, None, true;
      if Safe(before) { SafeCanOpen(before, disk, config, input); }
      if r == Works && config.marker >= CURRENT_VERSION && disk.db.None? {
        r := Fails;
      }
      if r == Works {
        r, loaded, readOnly := OpenStore(config, existed, f, salt, token);
      }
    }

    /** The settings in memory are cloned, changed and normalised; they replace the old ones after the commit. */
    method UpdateConfig(modifier: Settings -> Settings, commit: Outcome, salt: string,
                        token: string) returns (r: Outcome)
      requires memory.Some? && Safe(Now()) && Trim(salt) != "" && Trim(token) != ""
      modifies this
      ensures Safe(Now())
      ensures UpdateStep(old(Now()), Now(), r, Normal(WithSecrets(modifier(old(memory.value.settings)), salt, token)))
      ensures r == Works <==>
        !old(memory.value.readOnly) && commit == Works && GoodTitle(modifier(old(memory.value.settings)).title)
      ensures r == Works ==>
        var wanted, kept := modifier(old(memory.value.settings)), memory.value.settings;
        && Carries(wanted, kept)
        && kept.title == if Trim(wanted.title) != "" then Trim(wanted.title) else "Code Kanban"
    {
      CommittedIs(modifier(memory.value.settings), salt, token);
      var next := WithSecrets(modifier(memory.value.settings), salt, token);
      if memory.value.readOnly {
        return Fails;
      }
      var normal := Normal(next);
      if normal.None? {
        return Fails;
      }
      if commit == Crashes {
        memory := None;
      }
      if commit != Works {
        return commit;
      }
      CommittedLoadsAsItIs(next);
      var row := disk.db.value.(runtime := normal);
      assert row == Tables(true, CURRENT_VERSION, normal);
      disk := disk.(db := Some(row));
      committed := normal;
      memory := Some(memory.value.(settings := normal.value));
      r := Works;
    }
  }
}
