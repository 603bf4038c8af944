/** Telling the snapshot loop of a connection that its settings have changed, through a channel with room for one. */
module RenderNotify {
  import opened Wrappers

  datatype Mode = LiveMode | SnapshotMode

  // The interval is in milliseconds.
  datatype Config = Config(mode: Mode, interval: nat, compression: bool)

  function NormalMode(value: string): Mode {
    if value == "snapshot" then SnapshotMode else LiveMode
  }

  function NormalInterval(ms: int): nat {
    if ms <= 0 then 50 else if ms < 33 then 33 else if ms > 10_000 then 10_000 else ms
  }

  const DEFAULT := Config(LiveMode, 50, true)

  /** The loop is about to read the settings, or waits with a ticker set from those it read last. */
  datatype Loop = Reading | Sleeping(read: Config)

  /** `sending` updates have stored their settings and not yet posted to the channel; `changes` and `readings` count
      the updates that changed something and the times the loop has read the settings. */
  datatype State = State(config: Config, token: bool, sending: nat, loop: Loop, changes: nat, readings: nat)

  const INITIAL := State(DEFAULT, false, 0, Reading, 0, 0)

  /** The atomic steps: the locked part of an update, its post, and the loop taking the token and reading. */
  datatype Event = Store(mode: string, ms: int, compression: bool) | Post | Take | Read

  predicate Enabled(s: State, e: Event) {
    match e
    case Store(_, _, _) => true
    case Post => s.sending > 0
    case Take => s.token && s.loop.Sleeping?
    case Read => s.loop.Reading?
  }

  function Requested(e: Event): Config
    requires e.Store?
  {
    Config(NormalMode(e.mode), NormalInterval(e.ms), e.compression)
  }

  function Next(s: State, e: Event): State
    requires Enabled(s, e)
  {
    match e
    case Store(_, _, _) =>
      if Requested(e) == s.config then s
      else s.(config := Requested(e), sending := s.sending + 1, changes := s.changes + 1)
    case Post => s.(token := true, sending := s.sending - 1)
    case Take => s.(token := false, loop := Reading)
    case Read => s.(loop := Sleeping(s.config), readings := s.readings + 1)
  }

  predicate Possible(s: State, es: seq<Event>)
    decreases |es|
  {
    es == [] || (Enabled(s, es[0]) && Possible(Next(s, es[0]), es[1..]))
  }

  function After(s: State, es: seq<Event>): State
    requires Possible(s, es)
    decreases |es|
  {
    if es == [] then s else After(Next(s, es[0]), es[1..])
  }

  // Readings that are certain to come.
  function Owed(s: State): nat {
    s.sending + (if s.token then 1 else 0) + (if s.loop.Reading? then 1 else 0)
  }

  /** A loop that sleeps on old settings will be woken, and no reading is for nothing. */
  predicate Safe(s: State) {
    && (s.loop.Sleeping? && s.loop.read != s.config ==> s.token || s.sending > 0)
    && s.readings + Owed(s) <= s.changes + 1
  }

  lemma {:induction false} EveryRunIsSafe(s: State, es: seq<Event>)
    requires Safe(s) && Possible(s, es)
    ensures Safe(After(s, es))
    decreases |es|
  {
    if es != [] { EveryRunIsSafe(Next(s, es[0]), es[1..]); }
  }

  /** In no interleaving does the loop sleep on old settings with nothing left to wake it. */
  lemma NoLostWakeUp(es: seq<Event>)
    requires Possible(INITIAL, es)
    ensures var s := After(INITIAL, es);
      s.loop.Sleeping? && !s.token && s.sending == 0 ==> s.loop.read == s.config
  {
    EveryRunIsSafe(INITIAL, es);
  }

  /** Posts coalesce: the loop never reads the settings more than once for each change, and once at the start. */
  lemma ReadsAreFew(es: seq<Event>)
    requires Possible(INITIAL, es)
    ensures After(INITIAL, es).readings <= After(INITIAL, es).changes + 1
  {
    EveryRunIsSafe(INITIAL, es);
  }

  // The steps that can still be taken if no more updates come.
  function Weight(s: State): nat {
    3 * s.sending + (if s.token then 2 else 0) + (if s.loop.Reading? then 1 else 0)
  }

  ghost predicate StoreFree(es: seq<Event>) {
    forall e <- es :: !e.Store?
  }

  /** Nothing but another update can happen. */
  ghost predicate Stopped(s: State) {
    forall e :: Enabled(s, e) ==> e.Store?
  }

  lemma {:induction false} RunsDown(s: State, es: seq<Event>)
    requires Safe(s) && Possible(s, es) && StoreFree(es)
    ensures Safe(After(s, es)) && After(s, es).config == s.config
    ensures |es| + Weight(After(s, es)) <= Weight(s)
    decreases |es|
  {
    if es != [] {
      assert es[0] in es;
      RunsDown(Next(s, es[0]), es[1..]);
    }
  }

  /** A state where everything has stopped is one where the loop sleeps on the current settings and nothing is left to
      wake it. */
  lemma StoppedIff(s: State)
    requires Safe(s)
    ensures Stopped(s) <==> s.loop == Sleeping(s.config) && !s.token && s.sending == 0
  {
    if Stopped(s) {
      assert !Enabled(s, Post) && !Enabled(s, Take) && !Enabled(s, Read);
    }
  }

  /** Once the updates stop, whatever came before and in whatever order the steps that are left are taken: there are
      only so many of them, and when none is left the loop sleeps on the settings stored last. */
  lemma LastSettingsWin(es: seq<Event>, rest: seq<Event>)
    requires Possible(INITIAL, es) && Possible(After(INITIAL, es), rest) && StoreFree(rest)
    ensures var (s, t) := (After(INITIAL, es), After(After(INITIAL, es), rest));
      && |rest| + Weight(t) <= Weight(s)
      && (Stopped(t) <==> t.loop == Sleeping(s.config) && !t.token && t.sending == 0)
  {
    EveryRunIsSafe(INITIAL, es);
    RunsDown(After(INITIAL, es), rest);
    StoppedIff(After(After(INITIAL, es), rest));
  }

  /** Intervals are kept between 33 and 10000 milliseconds, and 50 is taken for one that is not positive. */
  lemma IntervalIs(ms: int)
    ensures 33 <= NormalInterval(ms) <= 10_000
    ensures 33 <= ms <= 10_000 ==> NormalInterval(ms) == ms
    ensures ms <= 0 ==> NormalInterval(ms) == 50
    ensures 0 < ms < 33 ==> NormalInterval(ms) == 33
    ensures ms > 10_000 ==> NormalInterval(ms) == 10_000
  {
  }

  /** An update leaves the settings that were asked for, and is to be posted exactly if they are not those that were
      there; a connection begins with live output, 50 milliseconds and compression. */
  lemma StoredIsAskedFor(s: State, mode: string, ms: int, compression: bool)
    requires 33 <= ms <= 10_000
    ensures var t := Next(s, Store(mode, ms, compression));
      && t.config.interval == ms && t.config.compression == compression
      && (t.config.mode == SnapshotMode <==> mode == "snapshot")
      && t.token == s.token && t.loop == s.loop && t.readings == s.readings
      && (t.config == s.config ==> t == s)
      && (t.config != s.config ==> t.sending == s.sending + 1 && t.changes == s.changes + 1)
    ensures INITIAL.config.mode == LiveMode && INITIAL.config.interval == 50 && INITIAL.config.compression
    ensures INITIAL.sending == 0 && INITIAL.changes == 0 && INITIAL.readings == 0
  {
  }

  class RenderState {
    var mode: Mode
    var interval: nat
    var compression: bool
    var token: bool
    ghost var sending: nat
    ghost var changes: nat

    ghost predicate Shows(s: State)
      reads this
    {
      && s.config == Config(mode, interval, compression) && s.token == token
      && s.sending == sending && s.changes == changes
    }

    constructor ()
      ensures Shows(INITIAL)
    {
      mode, interval, compression, token, sending, changes := LiveMode, 50, true, false, 0, 0;
    }

    // The part of an update under the lock; the caller posts afterwards if something changed.
    method Update(value: string, ms: int, compression: bool, ghost s: State) returns (previous: Mode, changed: bool)
      requires Shows(s)
      modifies this
      ensures Shows(Next(s, Store(value, ms, compression)))
      ensures previous == old(mode) && (changed <==> Config(mode, interval, this.compression) != s.config)
    {
      var nextMode := NormalMode(value);
      var nextInterval := NormalInterval(ms);
      previous := mode;
      var previousInterval, previousCompression := interval, this.compression;
      mode, interval, this.compression := nextMode, nextInterval, compression;
      changed := previous != mode || previousInterval != interval || previousCompression != compression;
      if changed {
        sending, changes := sending + 1, changes + 1;
      }
    }

    // A full channel is left as it is.
    method PostToken(ghost s: State)
      requires Shows(s) && s.sending > 0
      modifies this
      ensures Shows(Next(s, Post))
    {
      if !token {
        token := true;
      }
      sending := sending - 1;
    }

    method TakeToken(ghost s: State)
      requires Shows(s) && Enabled(s, Take)
      modifies this
      ensures Shows(Next(s, Take))
    {
      token := false;
    }

    /** The ticker the loop sets from the settings: none unless snapshots are wanted. */
    method ResetTicker(ghost s: State) returns (ticker: Option<nat>)
      requires Shows(s) && Enabled(s, Read)
      ensures Shows(Next(s, Read))
      ensures var read := Next(s, Read).loop.read;
        ticker == if read.mode.SnapshotMode? then Some(read.interval) else None
    {
      ticker := if mode == SnapshotMode then Some(interval) else None;
    }
  }
}
