/** A configuration of quick inputs and its normal form. */
module QuickConfig {
  import opened Text
  import opened RecentLists
  import opened QuickInput

  datatype Config = Config(pinned: seq<string>, recent: seq<string>, recentByProject: map<string, seq<string>>)

  /** A project's list in a normalised config comes from one of the keys that trim to its name. */
  ghost predicate ComesFrom(lists: map<string, seq<string>>, project: string, key: string, list: seq<string>) {
    key in lists && Trim(key) == project && project != "" && list != [] && list == Normalised(lists[key], RECENT_LIMIT)
  }

  ghost predicate FromSome(lists: map<string, seq<string>>, project: string, list: seq<string>) {
    exists key :: ComesFrom(lists, project, key, list)
  }

  ghost predicate Kept(lists: map<string, seq<string>>, key: string, normal: map<string, seq<string>>)
    requires key in lists
  {
    Trim(key) != "" && Normalised(lists[key], RECENT_LIMIT) != [] ==> Trim(key) in normal
  }

  lemma FromSomeIsNormal(lists: map<string, seq<string>>, project: string, list: seq<string>)
    requires FromSome(lists, project, list)
    ensures IsList(Project, project) && list != [] && Normal(list, RECENT_LIMIT)
  {
    var key :| ComesFrom(lists, project, key, list);
    TrimIdempotent(key);
    NormalisedIsNormal(lists[key], RECENT_LIMIT);
  }

  ghost predicate NormalForm(config: Config, normal: Config) {
    && normal.pinned == Normalised(config.pinned, 0)
    && normal.recent == Normalised(config.recent, RECENT_LIMIT)
    && (forall p <- normal.recentByProject :: FromSome(config.recentByProject, p, normal.recentByProject[p]))
    && forall key <- config.recentByProject :: Kept(config.recentByProject, key, normal.recentByProject)
  }

  ghost predicate NormalConfig(config: Config) {
    && Normal(config.pinned, 0) && Normal(config.recent, RECENT_LIMIT)
    && forall p <- config.recentByProject ::
         IsList(Project, p) && config.recentByProject[p] != [] && Normal(config.recentByProject[p], RECENT_LIMIT)
  }

  /** Go visits the keys of a map in any order; where two trim to one name, the later one wins. */
  method NormalizeConfig(config: Config) returns (normal: Config)
    ensures NormalForm(config, normal) && NormalConfig(normal)
  {
    var recentByProject: map<string, seq<string>> := map[];
    var keys := config.recentByProject.Keys;
    while keys != {}
      invariant keys <= config.recentByProject.Keys
      invariant forall p <- recentByProject :: FromSome(config.recentByProject, p, recentByProject[p])
      invariant forall key <- config.recentByProject.Keys - keys :: Kept(config.recentByProject, key, recentByProject)
    {
      var key :| key in keys;
      ghost var done, before := config.recentByProject.Keys - keys, recentByProject;
      keys := keys - {key};
      var project := Trim(key);
      if project != "" {
        var recent := NormalizeItems(config.recentByProject[key], RECENT_LIMIT);
        if recent != [] {
          assert ComesFrom(config.recentByProject, project, key, recent);
          recentByProject := recentByProject[project := recent];
        }
      }
      forall k | k in done ensures Kept(config.recentByProject, k, recentByProject) {
        assert Kept(config.recentByProject, k, before);
      }
    }
    forall p | p in recentByProject
      ensures IsList(Project, p) && recentByProject[p] != [] && Normal(recentByProject[p], RECENT_LIMIT)
    {
      FromSomeIsNormal(config.recentByProject, p, recentByProject[p]);
    }
    var pinned := NormalizeItems(config.pinned, 0);
    var recent := NormalizeItems(config.recent, RECENT_LIMIT);
    normal := Config(pinned, recent, recentByProject);
  }

  lemma NormalConfigList(config: Config, p: string)
    requires NormalConfig(config) && p in config.recentByProject
    ensures ComesFrom(config.recentByProject, p, p, config.recentByProject[p])
  {
    NormalIffFixed(config.recentByProject[p], RECENT_LIMIT);
  }

  // A list of a normalised config that is normal already comes from no other key.
  lemma NormalConfigSource(config: Config, p: string, key: string, list: seq<string>)
    requires NormalConfig(config) && ComesFrom(config.recentByProject, p, key, list)
    ensures key == p && list == config.recentByProject[p]
  {
    NormalConfigList(config, key);
  }

  lemma NormalConfigKeepsLists(config: Config, normal: Config)
    requires NormalForm(config, normal) && NormalConfig(config)
    ensures normal.recentByProject == config.recentByProject
  {
    forall p | p in normal.recentByProject
      ensures p in config.recentByProject && normal.recentByProject[p] == config.recentByProject[p]
    {
      var key :| ComesFrom(config.recentByProject, p, key, normal.recentByProject[p]);
      NormalConfigSource(config, p, key, normal.recentByProject[p]);
    }
    forall p | p in config.recentByProject ensures p in normal.recentByProject { NormalConfigList(config, p); }
  }

  /** Normalising leaves exactly the normal configs alone. */
  lemma NormalConfigIffFixed(config: Config, normal: Config)
    requires NormalForm(config, normal)
    ensures normal == config <==> NormalConfig(config)
  {
    NormalIffFixed(config.pinned, 0);
    NormalIffFixed(config.recent, RECENT_LIMIT);
    if NormalConfig(config) {
      NormalConfigKeepsLists(config, normal);
    }
    if normal == config {
      FixedConfigIsNormal(config);
    }
  }

  lemma FixedConfigIsNormal(config: Config)
    requires NormalForm(config, config)
    ensures NormalConfig(config)
  {
    NormalisedIsNormal(config.pinned, 0);
    NormalisedIsNormal(config.recent, RECENT_LIMIT);
    forall p | p in config.recentByProject
      ensures IsList(Project, p) && config.recentByProject[p] != [] && Normal(config.recentByProject[p], RECENT_LIMIT)
    {
      FromSomeIsNormal(config.recentByProject, p, config.recentByProject[p]);
    }
  }
}
