/** Runtime settings: how they are normalised before a commit and read back by the next start. */
module ConfigSettings {
  import opened Wrappers
  import opened Text
  import opened RecentLists

  const DEFAULT_TITLE := "Code Kanban"
  const MAX_TITLE: nat := 64

  /** `other` stands for the values that pass through the store unread: shells, access rules, client settings. */
  datatype Settings = Settings(salt: string, token: string, title: string, baseDir: string, pattern: string,
                               pinned: seq<string>, other: string)

  predicate IsControl(c: char) {
    c < ' ' || '\U{7f}' <= c <= '\U{9f}'
  }

  predicate HasControl(s: string) {
    exists c <- s :: IsControl(c)
  }

  function NormalTitle(value: string): Option<string> {
    var title := Trim(value);
    if HasControl(value) then None
    else if title == "" then Some(DEFAULT_TITLE)
    else if |title| > MAX_TITLE then None
    else Some(title)
  }

  /** What is written to the database; None if the title is refused. */
  function Normal(s: Settings): Option<Settings> {
    match NormalTitle(s.title)
    case None => None
    case Some(title) =>
      Some(s.(title := title, baseDir := Trim(s.baseDir), pattern := Trim(s.pattern),
              pinned := Normalised(s.pinned, 0)))
  }

  // Blank secrets are replaced by fresh ones.
  function WithSecrets(s: Settings, salt: string, token: string): Settings {
    s.(salt := if Trim(s.salt) == "" then salt else s.salt, token := if Trim(s.token) == "" then token else s.token)
  }

  predicate HasSecrets(s: Settings) {
    Trim(s.salt) != "" && Trim(s.token) != ""
  }

  /** What a start makes of the stored settings. */
  function Loaded(s: Settings): Option<Settings> {
    if HasSecrets(s) then Normal(s) else None
  }

  // What is read from a YAML file: a title that would be refused becomes the default one.
  function FromYaml(s: Settings): Settings {
    s.(title := match NormalTitle(s.title) case Some(title) => title case None => DEFAULT_TITLE,
       pinned := Normalised(s.pinned, 0))
  }

  lemma TrimOfControlFree(s: string)
    requires !HasControl(s)
    ensures !HasControl(Trim(s))
  {
    TrimMembers(s);
  }

  lemma {:induction false} TrimLeftMembers(s: string)
    ensures forall c <- TrimLeft(s) :: c in s
  {
    if s != "" && IsSpace(s[0]) { TrimLeftMembers(s[1..]); }
  }

  lemma TrimMembers(s: string)
    ensures forall c <- Trim(s) :: c in s
  {
    TrimLeftMembers(s);
    assert Trim(s) <= TrimLeft(s);
  }

  lemma DefaultTitleIsNormal()
    ensures NormalTitle(DEFAULT_TITLE) == Some(DEFAULT_TITLE)
  {
    assert !IsSpace(DEFAULT_TITLE[0]) && !IsSpace(DEFAULT_TITLE[|DEFAULT_TITLE| - 1]);
    assert !HasControl(DEFAULT_TITLE);
  }

  lemma NormalTitleIsFixed(value: string)
    requires NormalTitle(value).Some?
    ensures NormalTitle(NormalTitle(value).value) == NormalTitle(value)
  {
    DefaultTitleIsNormal();
    TrimIdempotent(value);
    TrimOfControlFree(value);
  }

  /** Normalised settings load exactly as they were committed. */
  lemma CommittedLoadsAsItIs(s: Settings)
    requires HasSecrets(s) && Normal(s).Some?
    ensures Loaded(Normal(s).value) == Normal(s)
  {
    NormalTitleIsFixed(s.title);
    TrimIdempotent(s.baseDir);
    TrimIdempotent(s.pattern);
    NormalisedIsNormal(s.pinned, 0);
    NormalIffFixed(Normalised(s.pinned, 0), 0);
  }

  // A YAML file never holds anything that cannot be committed.
  lemma YamlIsNormal(s: Settings, salt: string, token: string)
    ensures Normal(WithSecrets(FromYaml(s), salt, token)).Some?
  {
    DefaultTitleIsNormal();
    if NormalTitle(s.title).Some? { NormalTitleIsFixed(s.title); }
  }

  /** Reading what has been read changes nothing more. */
  lemma FromYamlTwice(s: Settings)
    ensures FromYaml(FromYaml(s)) == FromYaml(s)
  {
    DefaultTitleIsNormal();
    if NormalTitle(s.title).Some? { NormalTitleIsFixed(s.title); }
    NormalisedIsNormal(s.pinned, 0);
    NormalIffFixed(Normalised(s.pinned, 0), 0);
  }

  // ---------------------------------------------------- what becomes of settings

  predicate GoodTitle(value: string) {
    (forall c <- value :: c >= ' ' && !('\U{7f}' <= c <= '\U{9f}')) && |Trim(value)| <= 64
  }

  /** A title is accepted exactly if it has no control character and at most 64 characters once it is trimmed; it is
      stored trimmed, or as the default one where that leaves nothing. */
  lemma TitleAccepted(value: string)
    ensures NormalTitle(value).Some? <==> GoodTitle(value)
    ensures GoodTitle(value) ==> NormalTitle(value).value == if Trim(value) != "" then Trim(value) else "Code Kanban"
  {
  }

  /** Secrets that are not blank, and everything that passes through the store unread, are as they were; paths are
      trimmed and pinned items normalised. */
  predicate Carries(from: Settings, to: Settings) {
    && (Trim(from.salt) != "" ==> to.salt == from.salt) && (Trim(from.token) != "" ==> to.token == from.token)
    && to.baseDir == Trim(from.baseDir) && to.pattern == Trim(from.pattern)
    && to.pinned == Normalised(from.pinned, 0) && to.other == from.other
  }

  /** What is committed of requested settings, and when they are refused. */
  lemma CommittedIs(s: Settings, salt: string, token: string)
    ensures Normal(WithSecrets(s, salt, token)).Some? <==> GoodTitle(s.title)
    ensures GoodTitle(s.title) ==>
      var n := Normal(WithSecrets(s, salt, token)).value;
      && Carries(s, n)
      && (Trim(s.salt) == "" ==> n.salt == salt) && (Trim(s.token) == "" ==> n.token == token)
      && n.title == if Trim(s.title) != "" then Trim(s.title) else "Code Kanban"
  {
    TitleAccepted(s.title);
  }

  /** What is committed of the settings of a YAML file: the same, but that a title that would be refused becomes the
      default one. */
  lemma MigratedIs(s: Settings, salt: string, token: string)
    ensures Normal(WithSecrets(FromYaml(s), salt, token)).Some?
    ensures TakenOver(s, Normal(WithSecrets(FromYaml(s), salt, token)).value)
  {
    YamlIsNormal(s, salt, token);
    TitleAccepted(s.title);
    DefaultTitleIsNormal();
    if GoodTitle(s.title) { NormalTitleIsFixed(s.title); }
    NormalisedIsNormal(s.pinned, 0);
    NormalIffFixed(Normalised(s.pinned, 0), 0);
  }

  /** Stored settings are refused by a start exactly if a secret is blank or the title is no good. */
  lemma LoadedIff(s: Settings)
    ensures Loaded(s).Some? <==> Trim(s.salt) != "" && Trim(s.token) != "" && GoodTitle(s.title)
    ensures Loaded(s).Some? ==> Carries(s, Loaded(s).value)
  {
    TitleAccepted(s.title);
  }

  predicate TakenOver(from: Settings, to: Settings) {
    && Carries(from, to)
    && to.title == if GoodTitle(from.title) && Trim(from.title) != "" then Trim(from.title) else "Code Kanban"
  }

  /** Settings with both secrets, a good title, trimmed paths and normal pinned items are committed and loaded as they
      are. */
  lemma GoodSettingsStay(s: Settings, salt: string, token: string)
    requires Trim(s.salt) != "" && Trim(s.token) != ""
    requires s.title != "" && Trim(s.title) == s.title && GoodTitle(s.title)
    requires Trim(s.baseDir) == s.baseDir && Trim(s.pattern) == s.pattern && RecentLists.Normal(s.pinned, 0)
    ensures WithSecrets(s, salt, token) == s && Normal(s) == Some(s) && Loaded(s) == Some(s) && FromYaml(s) == s
  {
    TitleAccepted(s.title);
    NormalIffFixed(s.pinned, 0);
  }
}
