/** The replay prefix: printed mode sequences that the tracker, or any terminal, parses back into the same modes. */
module TerminalReplay {
  import opened Sequences
  import opened Wrappers
  import opened TerminalModes

  predicate ValidCommand(c: Command) {
    c.params != "" && forall p <- c.params :: IsParam(p)
  }

  function Render(c: Command): string {
    [ESC, '[', '?'] + c.params + [if c.enable then 'h' else 'l']
  }

  function RenderAll(commands: seq<Command>): string {
    if commands == [] then "" else Render(commands[0]) + RenderAll(commands[1..])
  }

  // ------------------------------------------------- parsing undoes printing

  lemma MatchRendered(c: Command, rest: string)
    requires ValidCommand(c)
    ensures MatchLength(Render(c) + rest) == |Render(c)|
    ensures CommandOf((Render(c) + rest)[..|Render(c)|]) == c
    ensures (Render(c) + rest)[|Render(c)|..] == rest
  {
    var text, end := Render(c), 3 + |c.params|;
    var data := text + rest;
    forall k | 3 <= k < end ensures IsParam(data[k]) { assert data[k] == c.params[k - 3]; }
    ParamEndAt(data, 3, end);
    assert data[..|text|] == text;
    assert text[3..|text| - 1] == c.params;
  }

  lemma PendingAfterRendered(c: Command, rest: string)
    requires ValidCommand(c)
    ensures Pending(Render(c) + rest) == Pending(rest)
  {
    MatchRendered(c, rest);
    PendingAfterMatch(Render(c) + rest);
  }

  /** The scanner reads back any list of printed commands and leaves nothing pending. */
  lemma {:induction false} ScanUndoesRender(commands: seq<Command>)
    requires forall c <- commands :: ValidCommand(c)
    ensures Matches(RenderAll(commands)) == commands && Pending(RenderAll(commands)) == ""
  {
    if commands != [] {
      var rest := RenderAll(commands[1..]);
      ScanUndoesRender(commands[1..]);
      MatchRendered(commands[0], rest);
      PendingAfterRendered(commands[0], rest);
      HeadAndTail(commands);
    }
  }

  // An unfinished sequence is abandoned when a new one starts.
  lemma AbandonPending(partial: string, y: string)
    requires (partial == "" || IsPartial(partial)) && y != "" && y[0] == ESC
    ensures Matches(partial + y) == Matches(y) && Pending(partial + y) == Pending(y)
  {
    if partial == "" {
      assert partial + y == y;
    } else {
      ParamEndAt(partial + y, 3, |partial|);
      LaterEscNotPartial(partial + y, |partial|);
      SequenceTailHasNoEsc(partial, |partial|);
      CutFirst(partial, y, 1);
      assert partial[1..] == partial[1..|partial|];
      SkipNoEsc(partial[1..], y);
    }
  }

  // --------------------------------------------------------------- the prefix

  /** The modes the tracker knows, by their DEC code. */
  datatype Mode = MouseX10 | MouseButtonEvent | MouseAnyEvent | MouseSGR | FocusReporting | BracketedPaste
                | Alternate47 | Alternate1047 | Alternate1049

  datatype Setting = Setting(mode: Mode, on: bool)

  function CodeOf(mode: Mode): string {
    match mode
    case MouseX10 => "1000"
    case MouseButtonEvent => "1002"
    case MouseAnyEvent => "1003"
    case MouseSGR => "1006"
    case FocusReporting => "1004"
    case BracketedPaste => "2004"
    case Alternate47 => "47"
    case Alternate1047 => "1047"
    case Alternate1049 => "1049"
  }

  function Commands(settings: seq<Setting>): seq<Command> {
    if settings == [] then [] else [Command(CodeOf(settings[0].mode), settings[0].on)] + Commands(settings[1..])
  }

  function Off(mode: Mode): Setting { Setting(mode, false) }
  function On(mode: Mode): Setting { Setting(mode, true) }

  const ALT_RESETS := [Off(Alternate1049), Off(Alternate1047), Off(Alternate47)]

  function AltResets(includeAlt: bool): seq<Setting> {
    if includeAlt then ALT_RESETS else []
  }

  const RESETS := [Off(MouseSGR), Off(MouseAnyEvent), Off(MouseButtonEvent), Off(MouseX10),
                   Off(FocusReporting), Off(BracketedPaste)]

  function When(condition: bool, mode: Mode): seq<Setting> {
    if condition then [On(mode)] else []
  }

  function AltSet(s: ModesSnapshot, includeAlt: bool): seq<Setting> {
    if !includeAlt then []
    else if s.alternateScreen == "47" then [On(Alternate47)]
    else if s.alternateScreen == "1047" then [On(Alternate1047)]
    else if s.alternateScreen == "1049" then [On(Alternate1049)]
    else []
  }

  function TrackingSet(s: ModesSnapshot): seq<Setting> {
    if s.mouseTracking == "x10" then [On(MouseX10)]
    else if s.mouseTracking == "button-event" then [On(MouseButtonEvent)]
    else if s.mouseTracking == "any-event" then [On(MouseAnyEvent)]
    else []
  }

  function ReplaySettings(snapshot: Option<ModesSnapshot>, includeAlt: bool): seq<Setting> {
    var resets := AltResets(includeAlt) + RESETS;
    if snapshot.None? then resets else
    var s := snapshot.value;
    resets + AltSet(s, includeAlt)
    + When(s.focusReporting, FocusReporting) + When(s.bracketedPaste, BracketedPaste) + When(s.mouseSGR, MouseSGR)
    + TrackingSet(s)
  }

  function ReplayPrefix(snapshot: Option<ModesSnapshot>, includeAlt: bool): string {
    RenderAll(Commands(ReplaySettings(snapshot, includeAlt)))
  }

  lemma {:induction false} RenderConcat(a: seq<Setting>, b: seq<Setting>)
    ensures RenderAll(Commands(a + b)) == RenderAll(Commands(a)) + RenderAll(Commands(b))
  {
    if a == [] {
      ConcatNil(b);
      ConcatNil(RenderAll(Commands(b)));
    } else {
      RenderConcat(a[1..], b);
      CutFirst(a, b, 1);
      ConcatAssoc(Render(Commands(a)[0]), RenderAll(Commands(a[1..])), RenderAll(Commands(b)));
    }
  }

  lemma RenderOne(setting: Setting)
    ensures RenderAll(Commands([setting])) == Render(Command(CodeOf(setting.mode), setting.on))
  {
    ConcatNil(Render(Command(CodeOf(setting.mode), setting.on)));
  }

  // One more group of printed settings at the end of the buffer.
  method WriteAll(buffer: string, ghost written: seq<Setting>, settings: seq<Setting>) returns (out: string)
    requires buffer == RenderAll(Commands(written))
    ensures out == RenderAll(Commands(written + settings))
  {
    out := buffer;
    ConcatNil(written);
    for i := 0 to |settings|
      invariant out == RenderAll(Commands(written + settings[..i]))
    {
      out := out + Render(Command(CodeOf(settings[i].mode), settings[i].on));
      RenderConcat(written + settings[..i], [settings[i]]);
      RenderOne(settings[i]);
      ConcatAssoc(written, settings[..i], [settings[i]]);
      assert settings[..i] + [settings[i]] == settings[..i + 1];
    }
    assert settings[..|settings|] == settings;
  }

  method WriteWhen(buffer: string, ghost written: seq<Setting>, condition: bool, mode: Mode) returns (out: string)
    requires buffer == RenderAll(Commands(written))
    ensures out == RenderAll(Commands(written + When(condition, mode)))
  {
    out := buffer;
    ConcatNil(written);
    if condition {
      out := WriteAll(out, written, [On(mode)]);
    }
  }

  method WriteAlternate(buffer: string, ghost written: seq<Setting>, s: ModesSnapshot, includeAlt: bool)
    returns (out: string)
    requires buffer == RenderAll(Commands(written))
    ensures out == RenderAll(Commands(written + AltSet(s, includeAlt)))
  {
    out := buffer;
    ConcatNil(written);
    if includeAlt {
      match s.alternateScreen {
        case "47" => out := WriteAll(out, written, [On(Alternate47)]);
        case "1047" => out := WriteAll(out, written, [On(Alternate1047)]);
        case "1049" => out := WriteAll(out, written, [On(Alternate1049)]);
        case _ =>
      }
    }
  }

  method WriteTracking(buffer: string, ghost written: seq<Setting>, s: ModesSnapshot) returns (out: string)
    requires buffer == RenderAll(Commands(written))
    ensures out == RenderAll(Commands(written + TrackingSet(s)))
  {
    out := buffer;
    ConcatNil(written);
    match s.mouseTracking {
      case "x10" => out := WriteAll(out, written, [On(MouseX10)]);
      case "button-event" => out := WriteAll(out, written, [On(MouseButtonEvent)]);
      case "any-event" => out := WriteAll(out, written, [On(MouseAnyEvent)]);
      case _ =>
    }
  }

  method BuildTerminalModesReplayPrefix(snapshot: Option<ModesSnapshot>, includeAlternateScreen: bool)
    returns (buffer: string)
    ensures buffer == ReplayPrefix(snapshot, includeAlternateScreen)
  {
    buffer := "";
    ghost var written: seq<Setting> := [];
    ConcatNil(AltResets(includeAlternateScreen));
    if includeAlternateScreen {
      buffer := WriteAll(buffer, written, ALT_RESETS);
    }
    written := AltResets(includeAlternateScreen);
    buffer := WriteAll(buffer, written, RESETS);
    written := written + RESETS;
    if snapshot.None? {
      return;
    }
    var s := snapshot.value;
    buffer := WriteAlternate(buffer, written, s, includeAlternateScreen);
    written := written + AltSet(s, includeAlternateScreen);
    buffer := WriteWhen(buffer, written, s.focusReporting, FocusReporting);
    written := written + When(s.focusReporting, FocusReporting);
    buffer := WriteWhen(buffer, written, s.bracketedPaste, BracketedPaste);
    written := written + When(s.bracketedPaste, BracketedPaste);
    buffer := WriteWhen(buffer, written, s.mouseSGR, MouseSGR);
    written := written + When(s.mouseSGR, MouseSGR);
    buffer := WriteTracking(buffer, written, s);
  }

  // ------------------------------------------------------------ its effect

  function Set(f: Flags, setting: Setting): Flags {
    var on := setting.on;
    match setting.mode
    case MouseX10 => f.(mouseX10 := on)
    case MouseButtonEvent => f.(mouseButtonEvent := on)
    case MouseAnyEvent => f.(mouseAnyEvent := on)
    case MouseSGR => f.(mouseSGR := on)
    case FocusReporting => f.(focusReporting := on)
    case BracketedPaste => f.(bracketedPaste := on)
    case Alternate47 => f.(alternateScreen47 := on)
    case Alternate1047 => f.(alternateScreen1047 := on)
    case Alternate1049 => f.(alternateScreen1049 := on)
  }

  function SetAll(f: Flags, settings: seq<Setting>): Flags
    decreases |settings|
  {
    if settings == [] then f else SetAll(Set(f, settings[0]), settings[1..])
  }

  lemma CodeIsPlain(mode: Mode, on: bool)
    ensures ValidCommand(Command(CodeOf(mode), on)) && ';' !in CodeOf(mode)
  {
  }

  lemma ApplyOne(f: Flags, c: Command)
    requires ';' !in c.params
    ensures ApplyAll(f, [c]) == ApplyParam(f, c.params, c.enable)
  {
    SplitWhole(c.params);
    assert [c][..0] == [] && [c.params][..0] == [];
    assert ApplyParams(f, [c.params], c.enable) == ApplyParam(ApplyParams(f, [], c.enable), c.params, c.enable);
  }

  lemma ApplyCode(f: Flags, code: string, on: bool, f': Flags)
    requires ';' !in code && f' == ApplyParam(f, code, on)
    ensures ApplyAll(f, [Command(code, on)]) == f'
  {
    ApplyOne(f, Command(code, on));
  }

  lemma ApplyMouseSetting(f: Flags, mode: Mode, on: bool)
    requires mode.MouseX10? || mode.MouseButtonEvent? || mode.MouseAnyEvent? || mode.MouseSGR?
    ensures ApplyAll(f, [Command(CodeOf(mode), on)]) == Set(f, Setting(mode, on))
  {
    if mode.MouseX10? { ApplyCode(f, "1000", on, f.(mouseX10 := on)); }
    else if mode.MouseButtonEvent? { ApplyCode(f, "1002", on, f.(mouseButtonEvent := on)); }
    else if mode.MouseAnyEvent? { ApplyCode(f, "1003", on, f.(mouseAnyEvent := on)); }
    else { ApplyCode(f, "1006", on, f.(mouseSGR := on)); }
  }

  lemma ApplyOtherSetting(f: Flags, mode: Mode, on: bool)
    requires mode.FocusReporting? || mode.BracketedPaste?
    ensures ApplyAll(f, [Command(CodeOf(mode), on)]) == Set(f, Setting(mode, on))
  {
    if mode.FocusReporting? { ApplyCode(f, "1004", on, f.(focusReporting := on)); }
    else { ApplyCode(f, "2004", on, f.(bracketedPaste := on)); }
  }

  lemma ApplyAltSetting(f: Flags, mode: Mode, on: bool)
    requires mode.Alternate47? || mode.Alternate1047? || mode.Alternate1049?
    ensures ApplyAll(f, [Command(CodeOf(mode), on)]) == Set(f, Setting(mode, on))
  {
    if mode.Alternate47? { ApplyCode(f, "47", on, f.(alternateScreen47 := on)); }
    else if mode.Alternate1047? { ApplyCode(f, "1047", on, f.(alternateScreen1047 := on)); }
    else { ApplyCode(f, "1049", on, f.(alternateScreen1049 := on)); }
  }

  lemma ApplySetting(f: Flags, setting: Setting)
    ensures ApplyAll(f, [Command(CodeOf(setting.mode), setting.on)]) == Set(f, setting)
  {
    match setting.mode {
      case MouseX10 | MouseButtonEvent | MouseAnyEvent | MouseSGR => ApplyMouseSetting(f, setting.mode, setting.on);
      case FocusReporting | BracketedPaste => ApplyOtherSetting(f, setting.mode, setting.on);
      case Alternate47 | Alternate1047 | Alternate1049 => ApplyAltSetting(f, setting.mode, setting.on);
    }
  }

  lemma {:induction false} ApplyCommands(f: Flags, settings: seq<Setting>)
    ensures ApplyAll(f, Commands(settings)) == SetAll(f, settings)
    decreases |settings|
  {
    if settings != [] {
      var c := Command(CodeOf(settings[0].mode), settings[0].on);
      ApplySetting(f, settings[0]);
      ApplyAllConcat(f, [c], Commands(settings[1..]));
      ApplyCommands(Set(f, settings[0]), settings[1..]);
    }
  }

  lemma {:induction false} SetAllConcat(f: Flags, a: seq<Setting>, b: seq<Setting>)
    ensures SetAll(f, a + b) == SetAll(SetAll(f, a), b)
    decreases |a|
  {
    if a == [] {
      ConcatNil(b);
    } else {
      CutFirst(a, b, 1);
      SetAllConcat(Set(f, a[0]), a[1..], b);
    }
  }

  function ResetFlags(f: Flags, includeAlt: bool): Flags {
    if includeAlt then ALL_OFF else
    ALL_OFF.(alternateScreen47 := f.alternateScreen47, alternateScreen1047 := f.alternateScreen1047,
             alternateScreen1049 := f.alternateScreen1049)
  }

  lemma SetFrom(f: Flags, f': Flags, settings: seq<Setting>, i: nat)
    requires i < |settings| && f' == Set(f, settings[i])
    ensures SetAll(f, settings[i..]) == SetAll(f', settings[i + 1..])
  {
  }

  lemma SetMouseResets(f: Flags)
    ensures SetAll(f, RESETS) == ResetFlags(f, false)
  {
    var f1 := f.(mouseSGR := false);
    var f2 := f1.(mouseAnyEvent := false);
    var f3 := f2.(mouseButtonEvent := false);
    var f4 := f3.(mouseX10 := false);
    var f5 := f4.(focusReporting := false);
    SetFrom(f, f1, RESETS, 0);
    SetFrom(f1, f2, RESETS, 1);
    SetFrom(f2, f3, RESETS, 2);
    SetFrom(f3, f4, RESETS, 3);
    SetFrom(f4, f5, RESETS, 4);
    SetFrom(f5, f5.(bracketedPaste := false), RESETS, 5);
    assert RESETS[0..] == RESETS && RESETS[6..] == [];
  }

  lemma SetAltResets(f: Flags)
    ensures SetAll(f, ALT_RESETS)
         == f.(alternateScreen1049 := false, alternateScreen1047 := false, alternateScreen47 := false)
  {
    var f1 := f.(alternateScreen1049 := false);
    var f2 := f1.(alternateScreen1047 := false);
    var f3 := f2.(alternateScreen47 := false);
    var r3, r2 := [Off(Alternate47)], [Off(Alternate1047), Off(Alternate47)];
    assert ALT_RESETS == [Off(Alternate1049)] + r2 && r2 == [Off(Alternate1047)] + r3 && r3 == [Off(Alternate47)] + [];
    SetCons(f, f1, Off(Alternate1049), r2);
    SetCons(f1, f2, Off(Alternate1047), r3);
    SetCons(f2, f3, Off(Alternate47), []);
  }

  lemma SetCons(f: Flags, f': Flags, setting: Setting, rest: seq<Setting>)
    requires Set(f, setting) == f'
    ensures SetAll(f, [setting] + rest) == SetAll(f', rest)
  {
    assert ([setting] + rest)[1..] == rest;
  }

  lemma SetResets(f: Flags, includeAlt: bool)
    ensures SetAll(f, AltResets(includeAlt) + RESETS) == ResetFlags(f, includeAlt)
  {
    SetAllConcat(f, AltResets(includeAlt), RESETS);
    if includeAlt { SetAltResets(f); }
    SetMouseResets(SetAll(f, AltResets(includeAlt)));
  }

  lemma SetAlt(f: Flags, s: ModesSnapshot)
    requires !f.alternateScreen47 && !f.alternateScreen1047 && !f.alternateScreen1049
    ensures SetAll(f, AltSet(s, true))
         == f.(alternateScreen47 := s.alternateScreen == "47", alternateScreen1047 := s.alternateScreen == "1047",
               alternateScreen1049 := s.alternateScreen == "1049")
  {
  }

  lemma SetWhen(f: Flags, condition: bool, mode: Mode)
    ensures SetAll(f, When(condition, mode)) == if condition then Set(f, On(mode)) else f
  {
  }

  lemma SetSwitches(f: Flags, before: seq<Setting>, s: ModesSnapshot)
    ensures var g := SetAll(f, before);
            !g.focusReporting && !g.bracketedPaste && !g.mouseSGR ==>
              SetAll(f, before + When(s.focusReporting, FocusReporting) + When(s.bracketedPaste, BracketedPaste)
                        + When(s.mouseSGR, MouseSGR))
              == g.(focusReporting := s.focusReporting, bracketedPaste := s.bracketedPaste, mouseSGR := s.mouseSGR)
  {
    var focus, paste := When(s.focusReporting, FocusReporting), When(s.bracketedPaste, BracketedPaste);
    SetAllConcat(f, before + focus + paste, When(s.mouseSGR, MouseSGR));
    SetAllConcat(f, before + focus, paste);
    SetAllConcat(f, before, focus);
    SetWhen(SetAll(f, before), s.focusReporting, FocusReporting);
    SetWhen(SetAll(f, before + focus), s.bracketedPaste, BracketedPaste);
    SetWhen(SetAll(f, before + focus + paste), s.mouseSGR, MouseSGR);
  }

  lemma SetTracking(f: Flags, s: ModesSnapshot)
    requires !f.mouseX10 && !f.mouseButtonEvent && !f.mouseAnyEvent
    ensures SetAll(f, TrackingSet(s))
         == f.(mouseX10 := s.mouseTracking == "x10", mouseButtonEvent := s.mouseTracking == "button-event",
               mouseAnyEvent := s.mouseTracking == "any-event")
  {
  }

  /** The flags after the prefix, whatever they were before; `snapshot` need not come from a tracker. */
  function Replayed(f: Flags, snapshot: Option<ModesSnapshot>, includeAlt: bool): Flags {
    if snapshot.None? then ResetFlags(f, includeAlt) else
    var s := snapshot.value;
    Flags(s.mouseTracking == "x10", s.mouseTracking == "button-event", s.mouseTracking == "any-event",
          s.mouseSGR, s.focusReporting, s.bracketedPaste,
          if includeAlt then s.alternateScreen == "47" else f.alternateScreen47,
          if includeAlt then s.alternateScreen == "1047" else f.alternateScreen1047,
          if includeAlt then s.alternateScreen == "1049" else f.alternateScreen1049)
  }

  lemma SetReplay(f: Flags, snapshot: Option<ModesSnapshot>, includeAlt: bool)
    ensures SetAll(f, ReplaySettings(snapshot, includeAlt)) == Replayed(f, snapshot, includeAlt)
  {
    SetResets(f, includeAlt);
    if snapshot.Some? {
      var s, resets := snapshot.value, AltResets(includeAlt) + RESETS;
      var alt := AltSet(s, includeAlt);
      SetAllConcat(f, resets, alt);
      if includeAlt { SetAlt(ResetFlags(f, includeAlt), s); }
      SetSwitches(f, resets + alt, s);
      var switches := resets + alt + When(s.focusReporting, FocusReporting)
                      + When(s.bracketedPaste, BracketedPaste) + When(s.mouseSGR, MouseSGR);
      SetAllConcat(f, switches, TrackingSet(s));
      SetTracking(SetAll(f, switches), s);
    }
  }

  // Feeding printed settings, whatever was pending.
  lemma FeedSettings(t: State, settings: seq<Setting>)
    requires ValidState(t) && settings != []
    ensures Feed(t, RenderAll(Commands(settings))) == State(SetAll(t.flags, settings), "")
  {
    CommandsValid(settings);
    ScanUndoesRender(Commands(settings));
    assert RenderAll(Commands(settings))[0] == ESC;
    AbandonPending(t.partial, RenderAll(Commands(settings)));
    ApplyCommands(t.flags, settings);
  }

  lemma {:induction false} CommandsValid(settings: seq<Setting>)
    ensures forall c <- Commands(settings) :: ValidCommand(c)
  {
    if settings != [] {
      CodeIsPlain(settings[0].mode, settings[0].on);
      CommandsValid(settings[1..]);
    }
  }

  /** The prefix read by a tracker in any state. */
  lemma FeedReplay(t: State, snapshot: Option<ModesSnapshot>, includeAlt: bool)
    requires ValidState(t)
    ensures Feed(t, ReplayPrefix(snapshot, includeAlt)) == State(Replayed(t.flags, snapshot, includeAlt), "")
  {
    FeedSettings(t, ReplaySettings(snapshot, includeAlt));
    SetReplay(t.flags, snapshot, includeAlt);
  }

  /** Without a snapshot the prefix switches every mode off, those of the alternate screen only if they are included. */
  lemma ReplayClears(t: State, includeAlt: bool)
    requires ValidState(t)
    ensures var after := Feed(t, ReplayPrefix(None, includeAlt));
      && after.partial == ""
      && after.flags == Flags(false, false, false, false, false, false,
           !includeAlt && t.flags.alternateScreen47, !includeAlt && t.flags.alternateScreen1047,
           !includeAlt && t.flags.alternateScreen1049)
  {
    FeedReplay(t, None, includeAlt);
  }

  lemma SnapshotOfReplayed(t: Flags, f: Flags, includeAlt: bool)
    ensures var after := Replayed(t, Some(Snapshot(f)), includeAlt);
            && (includeAlt ==> Snapshot(after) == Snapshot(f))
            && (!includeAlt ==>
                  && Snapshot(after) == Snapshot(f).(alternateScreen := Snapshot(t).alternateScreen)
                  && after.alternateScreen47 == t.alternateScreen47
                  && after.alternateScreen1047 == t.alternateScreen1047
                  && after.alternateScreen1049 == t.alternateScreen1049)
  {
  }

  /** Whatever a terminal's modes and pending input were, parsing the prefix printed for a tracker with flags `f`
      leaves nothing pending and the snapshot of `f`; without alternate-screen codes those flags are untouched. */
  lemma ReplayRestoresSnapshot(t: State, f: Flags, includeAlt: bool)
    requires ValidState(t)
    ensures var after := Feed(t, ReplayPrefix(Some(Snapshot(f)), includeAlt));
            && after.partial == ""
            && (includeAlt ==> Snapshot(after.flags) == Snapshot(f))
            && (!includeAlt ==>
                  && Snapshot(after.flags) == Snapshot(f).(alternateScreen := Snapshot(t.flags).alternateScreen)
                  && after.flags.alternateScreen47 == t.flags.alternateScreen47
                  && after.flags.alternateScreen1047 == t.flags.alternateScreen1047
                  && after.flags.alternateScreen1049 == t.flags.alternateScreen1049)
  {
    FeedReplay(t, Some(Snapshot(f)), includeAlt);
    SnapshotOfReplayed(t.flags, f, includeAlt);
  }
}
