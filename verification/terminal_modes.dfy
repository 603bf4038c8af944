/** The DEC private-mode tracker: scanning a byte stream that arrives in chunks, and replaying the modes. */
module TerminalModes {
  import opened Sequences
  import opened Wrappers

  const ESC: char := '\U{1b}'

  // ------------------------------------------------------------ the scanner

  /** One `ESC [ ? params h|l` sequence. */
  datatype Command = Command(params: string, enable: bool)

  predicate IsParam(c: char) {
    '0' <= c <= '9' || c == ';'
  }

  predicate HasIntro(s: string) {
    |s| >= 3 && s[0] == ESC && s[1] == '[' && s[2] == '?'
  }

  // The end of the run of parameter characters that starts at `from`.
  function ParamEnd(s: string, from: nat): (end: nat)
    requires from <= |s|
    ensures from <= end <= |s| && (end < |s| ==> !IsParam(s[end]))
    ensures forall k :: from <= k < end ==> IsParam(s[k])
    decreases |s| - from
  {
    if from < |s| && IsParam(s[from]) then ParamEnd(s, from + 1) else from
  }

  // The length of the sequence at the start of `data`, or zero.
  function MatchLength(data: string): (n: nat)
    ensures n <= |data| && (n > 0 ==> n > 4)
  {
    if !HasIntro(data) then 0 else
    var end := ParamEnd(data, 3);
    if end > 3 && end < |data| && (data[end] == 'h' || data[end] == 'l') then end + 1 else 0
  }

  function CommandOf(sequence: string): Command
    requires |sequence| > 4
  {
    Command(sequence[3..|sequence| - 1], sequence[|sequence| - 1] == 'h')
  }

  /** All leftmost, non-overlapping matches of the pattern `\x1b\[\?([0-9;]+)([hl])`. */
  function Matches(data: string): seq<Command>
    decreases |data|
  {
    if data == "" then [] else
    var n := MatchLength(data);
    if n > 0 then [CommandOf(data[..n])] + Matches(data[n..]) else Matches(data[1..])
  }

  /** An introducer and parameters with no final byte yet. */
  predicate IsPartial(s: string) {
    HasIntro(s) && forall k :: 3 <= k < |s| ==> IsParam(s[k])
  }

  /** The suffix that may still become a sequence, or the empty string. */
  function Pending(data: string): (p: string)
    ensures p == "" || IsPartial(p)
    decreases |data|
  {
    if data == "" || IsPartial(data) then data else Pending(data[1..])
  }

  // ------------------------------------------------------------- the flags

  datatype Flags = Flags(
    mouseX10: bool, mouseButtonEvent: bool, mouseAnyEvent: bool, mouseSGR: bool,
    focusReporting: bool, bracketedPaste: bool,
    alternateScreen47: bool, alternateScreen1047: bool, alternateScreen1049: bool)

  const ALL_OFF := Flags(false, false, false, false, false, false, false, false, false)

  function ApplyParam(f: Flags, param: string, enable: bool): Flags {
    if param == "1000" then f.(mouseX10 := enable)
    else if param == "1002" then f.(mouseButtonEvent := enable)
    else if param == "1003" then f.(mouseAnyEvent := enable)
    else if param == "1004" then f.(focusReporting := enable)
    else if param == "1006" then f.(mouseSGR := enable)
    else if param == "2004" then f.(bracketedPaste := enable)
    else if param == "47" then f.(alternateScreen47 := enable)
    else if param == "1047" then f.(alternateScreen1047 := enable)
    else if param == "1049" then f.(alternateScreen1049 := enable)
    else f
  }

  function Split(params: string): (parts: seq<string>)
    ensures parts != []
  {
    if params == "" then [""] else
    var rest := Split(params[1..]);
    if params[0] == ';' then [""] + rest else [[params[0]] + rest[0]] + rest[1..]
  }

  function ApplyParams(f: Flags, params: seq<string>, enable: bool): Flags {
    if params == [] then f else
    ApplyParam(ApplyParams(f, params[..|params| - 1], enable), params[|params| - 1], enable)
  }

  function ApplyCommand(f: Flags, c: Command): Flags {
    ApplyParams(f, Split(c.params), c.enable)
  }

  function ApplyAll(f: Flags, commands: seq<Command>): Flags {
    if commands == [] then f else
    ApplyCommand(ApplyAll(f, commands[..|commands| - 1]), commands[|commands| - 1])
  }

  // Whether some parameter flips a flag on the way, even if a later one flips it back.
  predicate ParamsChange(f: Flags, params: seq<string>, enable: bool) {
    params != [] &&
    var before := ApplyParams(f, params[..|params| - 1], enable);
    ParamsChange(f, params[..|params| - 1], enable) || ApplyParam(before, params[|params| - 1], enable) != before
  }

  predicate Changes(f: Flags, commands: seq<Command>) {
    commands != [] &&
    var init, last := commands[..|commands| - 1], commands[|commands| - 1];
    Changes(f, init) || ParamsChange(ApplyAll(f, init), Split(last.params), last.enable)
  }

  /** What the client is told; strings as the wire carries them. */
  datatype ModesSnapshot = ModesSnapshot(
    mouseTracking: string, mouseSGR: bool, focusReporting: bool, bracketedPaste: bool, alternateScreen: string)

  function Snapshot(f: Flags): ModesSnapshot {
    ModesSnapshot(
      if f.mouseAnyEvent then "any-event" else if f.mouseButtonEvent then "button-event"
      else if f.mouseX10 then "x10" else "",
      f.mouseSGR, f.focusReporting, f.bracketedPaste,
      if f.alternateScreen1049 then "1049" else if f.alternateScreen1047 then "1047"
      else if f.alternateScreen47 then "47" else "")
  }

  // ------------------------------------------------------------ the session

  datatype State = State(flags: Flags, partial: string)

  predicate ValidState(s: State) {
    s.partial == "" || IsPartial(s.partial)
  }

  /** The effect of one chunk of output. */
  function Feed(s: State, chunk: string): (s': State)
    ensures ValidState(s) ==> ValidState(s')
  {
    if chunk == "" then s else
    State(ApplyAll(s.flags, Matches(s.partial + chunk)), Pending(s.partial + chunk))
  }

  function FeedAll(s: State, chunks: seq<string>): State
    decreases |chunks|
  {
    if chunks == [] then s else FeedAll(Feed(s, chunks[0]), chunks[1..])
  }

  function Flat(chunks: seq<string>): string {
    if chunks == [] then "" else chunks[0] + Flat(chunks[1..])
  }

  // The index of the last introducer, or -1.
  function LastIntro(data: string): (index: int)
    ensures -1 <= index && (index >= 0 ==> index + 3 <= |data| && HasIntro(data[index..]))
  {
    if data == "" then -1 else
    var index := LastIntro(data[1..]);
    if index >= 0 then index + 1 else if HasIntro(data) then 0 else -1
  }

  lemma LaterEscNotPartial(data: string, k: nat)
    requires 0 < k < |data| && data[k] == ESC
    ensures !IsPartial(data)
  {
  }

  // Only the last introducer can start a pending suffix.
  lemma {:induction false} LastIntroDecides(data: string)
    ensures var index := LastIntro(data);
            Pending(data) == if index >= 0 && IsPartial(data[index..]) then data[index..] else ""
  {
    if data != "" {
      var index := LastIntro(data[1..]);
      LastIntroDecides(data[1..]);
      if index >= 0 {
        LaterEscNotPartial(data, index + 1);
        DropTwice(data, index);
      } else {
        assert data[0..] == data;
      }
    }
  }

  lemma DropTwice(data: string, n: nat)
    requires n + 1 <= |data|
    ensures data[1..][n..] == data[n + 1..]
  {
  }

  method PartialSuffix(data: string) returns (suffix: string)
    ensures suffix == Pending(data)
  {
    LastIntroDecides(data);
    var index := LastIntro(data);
    if index == -1 {
      return "";
    }
    var tail := data[index..];
    for i := 3 to |tail|
      invariant forall k :: 3 <= k < i ==> IsParam(tail[k])
    {
      if !IsParam(tail[i]) {
        return "";
      }
    }
    suffix := tail;
  }

  /** The part of a terminal session that tracks private modes. */
  class Session {
    var modes: Flags
    var partial: string

    constructor ()
      ensures modes == ALL_OFF && partial == ""
    {
      modes := ALL_OFF;
      partial := "";
    }

    ghost function Abs(): State
      reads this
    {
      State(modes, partial)
    }

    method Apply(param: string, enable: bool) returns (changed: bool)
      modifies this`modes
      ensures modes == ApplyParam(old(modes), param, enable)
      ensures changed <==> modes != old(modes)
    {
      var before := modes;
      match param {
        case "1000" => modes := modes.(mouseX10 := enable);
        case "1002" => modes := modes.(mouseButtonEvent := enable);
        case "1003" => modes := modes.(mouseAnyEvent := enable);
        case "1004" => modes := modes.(focusReporting := enable);
        case "1006" => modes := modes.(mouseSGR := enable);
        case "2004" => modes := modes.(bracketedPaste := enable);
        case "47" => modes := modes.(alternateScreen47 := enable);
        case "1047" => modes := modes.(alternateScreen1047 := enable);
        case "1049" => modes := modes.(alternateScreen1049 := enable);
        case _ =>
      }
      changed := modes != before;
    }

    method ApplyParameters(params: seq<string>, enable: bool) returns (changed: bool)
      modifies this`modes
      ensures modes == ApplyParams(old(modes), params, enable)
      ensures changed == ParamsChange(old(modes), params, enable)
    {
      changed := false;
      for i := 0 to |params|
        invariant modes == ApplyParams(old(modes), params[..i], enable)
        invariant changed == ParamsChange(old(modes), params[..i], enable)
      {
        var applied := Apply(params[i], enable);
        changed := changed || applied;
        assert params[..i + 1][..i] == params[..i];
      }
      assert params[..|params|] == params;
    }

    /** One chunk of output: exactly `Feed`, and a snapshot exactly when some parameter changed a flag. */
    method UpdateTerminalModes(chunk: string) returns (snapshot: Option<ModesSnapshot>)
      requires ValidState(Abs())
      modifies this
      ensures Abs() == Feed(old(Abs()), chunk) && ValidState(Abs())
      ensures snapshot == if chunk != "" && Changes(old(modes), Matches(old(partial) + chunk))
                          then Some(Snapshot(modes)) else None
    {
      if chunk == "" {
        return None;
      }
      var data := partial + chunk;
      var matches := Matches(data);
      partial := PartialSuffix(data);
      var changed := ApplyMatches(matches);
      snapshot := if changed then Some(Snapshot(modes)) else None;
    }

    method ApplyMatches(matches: seq<Command>) returns (changed: bool)
      modifies this`modes
      ensures modes == ApplyAll(old(modes), matches) && changed == Changes(old(modes), matches)
    {
      changed := false;
      for i := 0 to |matches|
        invariant modes == ApplyAll(old(modes), matches[..i])
        invariant changed == Changes(old(modes), matches[..i])
      {
        var applied := ApplyParameters(Split(matches[i].params), matches[i].enable);
        changed := changed || applied;
        assert matches[..i + 1][..i] == matches[..i];
      }
      assert matches[..|matches|] == matches;
    }
  }

  // ------------------------------------------------------ what is recognised

  /** A sequence is ESC [ ?, one or more digits and semicolons, and h to set or l to reset. */
  lemma MatchLengthIff(data: string, n: nat)
    requires 4 < n <= |data|
    ensures MatchLength(data) == n <==>
      && data[..3] == "\U{1b}[?" && (forall k :: 3 <= k < n - 1 ==> '0' <= data[k] <= '9' || data[k] == ';')
      && (data[n - 1] == 'h' || data[n - 1] == 'l')
    ensures MatchLength(data) == n ==> CommandOf(data[..n]) == Command(data[3..n - 1], data[n - 1] == 'h')
  {
    if data[..3] == "\U{1b}[?" && (forall k :: 3 <= k < n - 1 ==> '0' <= data[k] <= '9' || data[k] == ';')
       && (data[n - 1] == 'h' || data[n - 1] == 'l')
    {
      assert data[0] == data[..3][0] && data[1] == data[..3][1] && data[2] == data[..3][2];
      ParamEndAt(data, 3, n - 1);
    }
    if MatchLength(data) == n {
      assert data[..3] == "\U{1b}[?";
      assert data[..n][3..n - 1] == data[3..n - 1];
    }
  }

  /** What stays pending is a suffix of ESC [ ? with digits and semicolons only, and every such suffix stays. */
  lemma PendingIff(data: string, k: nat)
    requires k < |data|
    ensures Pending(data) == data[k..] <==>
      && k + 3 <= |data| && data[k..k + 3] == "\U{1b}[?"
      && forall i :: k + 3 <= i < |data| ==> '0' <= data[i] <= '9' || data[i] == ';'
  {
    PartialIff(data, k);
    if IsPartial(data[k..]) { PartialIsPending(data, k); }
  }

  lemma PartialIff(data: string, k: nat)
    requires k < |data|
    ensures IsPartial(data[k..]) <==>
      && k + 3 <= |data| && data[k..k + 3] == "\U{1b}[?"
      && forall i :: k + 3 <= i < |data| ==> '0' <= data[i] <= '9' || data[i] == ';'
  {
    var t := data[k..];
    if IsPartial(t) {
      assert data[k..k + 3] == "\U{1b}[?";
      forall i | k + 3 <= i < |data| ensures '0' <= data[i] <= '9' || data[i] == ';' { assert IsParam(t[i - k]); }
    }
    if k + 3 <= |data| && data[k..k + 3] == "\U{1b}[?" {
      assert t[0] == data[k..k + 3][0] && t[1] == data[k..k + 3][1] && t[2] == data[k..k + 3][2];
    }
  }

  lemma {:induction false} PartialIsPending(data: string, k: nat)
    requires k < |data| && IsPartial(data[k..])
    ensures Pending(data) == data[k..]
  {
    if k > 0 {
      LaterEscNotPartial(data, k);
      DropTwice(data, k - 1);
      PartialIsPending(data[1..], k - 1);
    }
  }

  /** Each parameter sets its own flag and no other; any other parameter changes nothing. */
  lemma ParameterSets(f: Flags, param: string, on: bool)
    ensures ApplyParam(f, "1000", on) == f.(mouseX10 := on)
    ensures ApplyParam(f, "1002", on) == f.(mouseButtonEvent := on)
    ensures ApplyParam(f, "1003", on) == f.(mouseAnyEvent := on)
    ensures ApplyParam(f, "1004", on) == f.(focusReporting := on)
    ensures ApplyParam(f, "1006", on) == f.(mouseSGR := on)
    ensures ApplyParam(f, "2004", on) == f.(bracketedPaste := on)
    ensures ApplyParam(f, "47", on) == f.(alternateScreen47 := on)
    ensures ApplyParam(f, "1047", on) == f.(alternateScreen1047 := on)
    ensures ApplyParam(f, "1049", on) == f.(alternateScreen1049 := on)
    ensures param !in {"1000", "1002", "1003", "1004", "1006", "2004", "47", "1047", "1049"} ==>
      ApplyParam(f, param, on) == f
  {
  }

  lemma {:induction false} SplitWhole(params: string)
    requires ';' !in params
    ensures Split(params) == [params]
  {
    if params != "" {
      SplitWhole(params[1..]);
      HeadAndTail(params);
    }
  }

  lemma {:induction false} SplitFirst(a: string, b: string)
    requires ';' !in a
    ensures Split(a + ";" + b) == [a] + Split(b)
  {
    var all := a + ";" + b;
    if a == "" {
      assert all[1..] == b;
    } else {
      SplitFirst(a[1..], b);
      HeadAndTail(a);
      assert all[1..] == a[1..] + ";" + b;
    }
  }

  lemma {:induction false} ApplyParamsCons(f: Flags, param: string, rest: seq<string>, on: bool)
    ensures ApplyParams(f, [param] + rest, on) == ApplyParams(ApplyParam(f, param, on), rest, on)
    decreases |rest|
  {
    var all := [param] + rest;
    if rest == [] {
      assert all[..0] == [];
    } else {
      assert all[..|rest|] == [param] + rest[..|rest| - 1];
      ApplyParamsCons(f, param, rest[..|rest| - 1], on);
    }
  }

  /** The parameters of a command are what stands between semicolons, and are applied from left to right. */
  lemma CommandApplies(f: Flags, a: string, b: string, on: bool)
    requires ';' !in a
    ensures ApplyCommand(f, Command(a, on)) == ApplyParam(f, a, on)
    ensures ApplyCommand(f, Command(a + ";" + b, on)) == ApplyCommand(ApplyParam(f, a, on), Command(b, on))
  {
    SplitWhole(a);
    SplitFirst(a, b);
    ApplyParamsCons(f, a, [], on);
    assert [a] + [] == [a];
    ApplyParamsCons(f, a, Split(b), on);
  }

  /** What the client is told: any-event tracking outranks button events, and those outrank X10; of the alternate
      screens 1049 outranks 1047, and that 47. */
  lemma SnapshotTells(f: Flags)
    ensures var s := Snapshot(f);
      && (s.mouseTracking == "any-event" <==> f.mouseAnyEvent)
      && (s.mouseTracking == "button-event" <==> f.mouseButtonEvent && !f.mouseAnyEvent)
      && (s.mouseTracking == "x10" <==> f.mouseX10 && !f.mouseButtonEvent && !f.mouseAnyEvent)
      && (s.mouseTracking == "" <==> !f.mouseX10 && !f.mouseButtonEvent && !f.mouseAnyEvent)
      && (s.alternateScreen == "1049" <==> f.alternateScreen1049)
      && (s.alternateScreen == "1047" <==> f.alternateScreen1047 && !f.alternateScreen1049)
      && (s.alternateScreen == "47" <==> f.alternateScreen47 && !f.alternateScreen1047 && !f.alternateScreen1049)
      && (s.alternateScreen == "" <==> !f.alternateScreen47 && !f.alternateScreen1047 && !f.alternateScreen1049)
      && s.mouseSGR == f.mouseSGR && s.focusReporting == f.focusReporting && s.bracketedPaste == f.bracketedPaste
  {
  }

  lemma {:induction false} ParamsChangeIff(f: Flags, params: seq<string>, on: bool)
    ensures !ParamsChange(f, params, on) <==> forall j :: 0 <= j <= |params| ==> ApplyParams(f, params[..j], on) == f
  {
    if params != [] {
      var init := params[..|params| - 1];
      ParamsChangeIff(f, init, on);
      assert params[..|params|] == params;
      forall j | 0 <= j < |params| ensures params[..j] == init[..j] { }
      if !ParamsChange(f, params, on) {
        assert init[..|init|] == init && ApplyParams(f, init[..|init|], on) == f;
      } else if ApplyParams(f, init, on) == f && !ParamsChange(f, init, on) {
        assert ApplyParams(f, params[..|params|], on) != f;
      }
    } else {
      assert params[..0] == [];
    }
  }

  // No parameter of command number `i` leads away from these flags.
  ghost predicate KeepsFlags(f: Flags, commands: seq<Command>, i: nat)
    requires i < |commands|
  {
    var params := Split(commands[i].params);
    forall j :: 0 <= j <= |params| ==> ApplyParams(ApplyAll(f, commands[..i]), params[..j], commands[i].enable) == f
  }

  lemma KeepsFlagsInit(f: Flags, commands: seq<Command>, i: nat)
    requires i + 1 < |commands|
    ensures KeepsFlags(f, commands, i) <==> KeepsFlags(f, commands[..|commands| - 1], i)
  {
    assert commands[..|commands| - 1][..i] == commands[..i];
  }

  lemma KeepsFlagsLast(f: Flags, init: seq<Command>, last: Command)
    requires ApplyAll(f, init) == f
    ensures KeepsFlags(f, init + [last], |init|) <==> !ParamsChange(f, Split(last.params), last.enable)
    ensures KeepsFlags(f, init + [last], |init|) ==> ApplyCommand(f, last) == f
  {
    var params := Split(last.params);
    assert (init + [last])[..|init|] == init;
    ParamsChangeIff(f, params, last.enable);
    assert params[..|params|] == params;
  }

  /** Commands count as changing something exactly if some parameter on the way leads to other flags, even if a later
      one leads back. */
  lemma {:induction false} ChangesIff(f: Flags, commands: seq<Command>)
    ensures !Changes(f, commands) <==> forall i :: 0 <= i < |commands| ==> KeepsFlags(f, commands, i)
    ensures !Changes(f, commands) ==> ApplyAll(f, commands) == f
  {
    if commands != [] {
      var n := |commands| - 1;
      var init, last := commands[..n], commands[n];
      ChangesIff(f, init);
      assert init + [last] == commands;
      forall i | 0 <= i < n ensures KeepsFlags(f, commands, i) <==> KeepsFlags(f, init, i) {
        KeepsFlagsInit(f, commands, i);
      }
      if !Changes(f, init) { KeepsFlagsLast(f, init, last); }
    }
  }

  // ------------------------------------------------------- chunk invariance

  predicate NoEsc(s: string) {
    ESC !in s
  }

  /** The suffix `t` of the stream begins a sequence, complete or still pending. */
  predicate StartsSequence(t: string) {
    MatchLength(t) > 0 || IsPartial(t)
  }

  predicate StraddlesAt(x: string, y: string, k: nat) {
    k <= |x| && StartsSequence(x[|x| - k..] + y)
  }

  /** The cut between `x` and `y` falls inside the three-byte introducer of a sequence of `x + y`. */
  predicate Straddles(x: string, y: string) {
    StraddlesAt(x, y, 1) || StraddlesAt(x, y, 2)
  }

  lemma {:induction false} ParamEndAt(s: string, from: nat, end: nat)
    requires from <= end < |s| && !IsParam(s[end])
    requires forall k :: from <= k < end ==> IsParam(s[k])
    ensures ParamEnd(s, from) == end
    decreases end - from
  {
    if from < end { ParamEndAt(s, from + 1, end); }
  }

  lemma {:induction false} ParamEndOfExtension(x: string, y: string, from: nat)
    requires from <= |x| && ParamEnd(x, from) < |x|
    ensures ParamEnd(x + y, from) == ParamEnd(x, from)
    decreases |x| - from
  {
    if IsParam(x[from]) { ParamEndOfExtension(x, y, from + 1); }
  }

  // A complete sequence stays the same however the stream goes on.
  lemma MatchOfExtension(x: string, y: string)
    requires MatchLength(x) > 0
    ensures MatchLength(x + y) == MatchLength(x)
  {
    ParamEndOfExtension(x, y, 3);
  }

  // A sequence completed by `y` was pending in `x`, unless `x` ends inside its introducer.
  lemma MatchAcross(x: string, y: string)
    requires MatchLength(x + y) > 0 && MatchLength(x) == 0
    ensures |x| < 3 || IsPartial(x)
  {
    if |x| >= 3 && ParamEnd(x, 3) < |x| { ParamEndOfExtension(x, y, 3); }
  }

  lemma PartialAcross(x: string, y: string)
    requires IsPartial(x + y)
    ensures |x| < 3 || IsPartial(x)
  {
    forall k | 3 <= k < |x| ensures IsParam(x[k]) { assert (x + y)[k] == x[k]; }
  }

  // Nothing starts at a character other than ESC.
  lemma SkipOne(s: string, y: string)
    requires s != "" && s[0] != ESC
    ensures Matches(s + y) == Matches(s[1..] + y) && Pending(s + y) == Pending(s[1..] + y)
  {
    assert (s + y)[1..] == s[1..] + y;
  }

  lemma {:induction false} SkipNoEsc(s: string, y: string)
    requires NoEsc(s)
    ensures Matches(s + y) == Matches(y) && Pending(s + y) == Pending(y)
  {
    if s == "" {
      assert s + y == y;
    } else {
      SkipOne(s, y);
      SkipNoEsc(s[1..], y);
    }
  }

  lemma SequenceTailHasNoEsc(data: string, n: nat)
    requires 0 < n <= |data|
    requires n == MatchLength(data) || (n == |data| && IsPartial(data))
    ensures NoEsc(data[1..n])
  {
    forall k | 1 <= k < n ensures data[k] != ESC {}
  }

  lemma PartialHasNoMatch(data: string)
    requires IsPartial(data)
    ensures MatchLength(data) == 0 && Matches(data) == []
  {
    SequenceTailHasNoEsc(data, |data|);
    SkipNoEsc(data[1..|data|], "");
    assert data[1..] == data[1..|data|] + "";
  }

  lemma StraddlesAtTail(x: string, n: nat, y: string, k: nat)
    requires n + k <= |x|
    ensures StraddlesAt(x, y, k) <==> StraddlesAt(x[n..], y, k)
  {
    SuffixOfSuffix(x, n, k);
  }

  // Dropping a prefix in whose last two characters no sequence starts.
  lemma StraddlesTail(x: string, n: nat, y: string)
    requires n <= |x|
    requires |x| < n + 2 ==> !StraddlesAt(x, y, 2)
    requires |x| < n + 1 ==> !StraddlesAt(x, y, 1)
    ensures Straddles(x, y) <==> Straddles(x[n..], y)
  {
    if n + 1 <= |x| { StraddlesAtTail(x, n, y, 1); }
    if n + 2 <= |x| { StraddlesAtTail(x, n, y, 2); }
  }

  /** Scanning `x`, then what is pending of it followed by `y`, finds what scanning `x + y` finds. */
  predicate SameEvents(x: string, y: string) {
    && Matches(x) + Matches(Pending(x) + y) == Matches(x + y)
    && Pending(Pending(x) + y) == Pending(x + y)
  }

  lemma NotEscNoStraddle(x: string, y: string, k: nat)
    requires 0 < k <= |x| && x[|x| - k] != ESC
    ensures !StraddlesAt(x, y, k)
  {
  }

  // What is pending in a stream that starts with a complete sequence is pending in the rest.
  lemma PendingAfterMatch(data: string)
    requires MatchLength(data) > 0
    ensures Pending(data) == Pending(data[MatchLength(data)..])
  {
    var n := MatchLength(data);
    SequenceTailHasNoEsc(data, n);
    SplitAt(data[1..], n - 1);
    assert data[1..][..n - 1] == data[1..n] && data[1..][n - 1..] == data[n..];
    SkipNoEsc(data[1..n], data[n..]);
  }

  // `x` starts with a complete sequence.
  lemma MatchStep(x: string, y: string)
    requires MatchLength(x) > 0
    ensures var rest := x[MatchLength(x)..];
            && (SameEvents(x, y) <==> SameEvents(rest, y))
            && (Straddles(x, y) <==> Straddles(rest, y))
  {
    var n := MatchLength(x);
    var head, rest := [CommandOf(x[..n])], x[n..];
    MatchOfExtension(x, y);
    CutFirst(x, y, n);
    PendingAfterMatch(x);
    PendingAfterMatch(x + y);
    CancelHead(head, Matches(rest), Matches(Pending(rest) + y), Matches(rest + y));
    SequenceTailHasNoEsc(x, n);
    if |x| < n + 2 { assert x[|x| - 2] in x[1..n]; NotEscNoStraddle(x, y, 2); }
    if |x| < n + 1 { assert x[|x| - 1] in x[1..n]; NotEscNoStraddle(x, y, 1); }
    StraddlesTail(x, n, y);
  }

  lemma CancelHead<T>(head: seq<T>, a: seq<T>, b: seq<T>, c: seq<T>)
    ensures head + a + b == head + c <==> a + b == c
  {
    ConcatAssoc(head, a, b);
    if head + (a + b) == head + c {
      assert (head + (a + b))[|head|..] == a + b && (head + c)[|head|..] == c;
    }
  }

  lemma FirstBytesScanToNothing(x: string)
    requires 0 < |x| < 3 && (|x| == 2 ==> x[1] != ESC)
    ensures Matches(x) == [] && Pending(x) == ""
  {
    SkipNoEsc(x[1..], "");
    assert x[1..] + "" == x[1..];
  }

  // What follows the introducer's first bytes, up to the end of the sequence, contains no ESC.
  lemma SequenceRemainder(x: string, y: string, n: nat)
    requires 0 < |x| < 3 <= n <= |x + y|
    requires n == MatchLength(x + y) || (n == |x + y| && IsPartial(x + y))
    ensures Matches(y) == Matches((x + y)[n..]) && Pending(y) == Pending((x + y)[n..])
  {
    var data := x + y;
    SequenceTailHasNoEsc(data, n);
    SplitAt(y, n - |x|);
    assert y[..n - |x|] == data[1..n][|x| - 1..] && y[n - |x|..] == data[n..];
    SkipNoEsc(y[..n - |x|], y[n - |x|..]);
  }

  lemma LostMatch(x: string, y: string)
    requires 0 < |x| < 3 && Matches(x) == [] && Pending(x) == "" && MatchLength(x + y) > 0
    ensures !SameEvents(x, y)
  {
    var n := MatchLength(x + y);
    SequenceRemainder(x, y, n);
    assert "" + y == y;
    assert |Matches(x + y)| == 1 + |Matches(y)|;
  }

  lemma LostPartial(x: string, y: string)
    requires 0 < |x| < 3 && Matches(x) == [] && Pending(x) == "" && IsPartial(x + y)
    ensures !SameEvents(x, y)
  {
    SequenceRemainder(x, y, |x + y|);
    assert "" + y == y;
    assert Pending(y) == "";
  }

  // `x` ends inside the introducer of a sequence that starts with it.
  lemma LostSequence(x: string, y: string)
    requires 0 < |x| < 3 && StartsSequence(x + y)
    ensures Straddles(x, y) && !SameEvents(x, y)
  {
    assert x[|x| - |x|..] == x;
    assert StraddlesAt(x, y, |x|);
    assert |x| == 2 ==> x[1] == (x + y)[1];
    FirstBytesScanToNothing(x);
    if MatchLength(x + y) > 0 { LostMatch(x, y); } else { LostPartial(x, y); }
  }

  // No sequence starts at the front of `x + y`.
  lemma PlainStep(x: string, y: string)
    requires x != "" && MatchLength(x) == 0 && !IsPartial(x) && !StartsSequence(x + y)
    ensures SameEvents(x, y) <==> SameEvents(x[1..], y)
    ensures Straddles(x, y) <==> Straddles(x[1..], y)
  {
    assert (x + y)[1..] == x[1..] + y;
    assert x[0..] == x;
    StraddlesTail(x, 1, y);
  }

  /** Two chunks find the sequences of their concatenation, each once and in order, and leave the same suffix
      pending, exactly when the cut does not fall inside the introducer of one of those sequences. */
  lemma {:induction false} ChunkingIsExact(x: string, y: string)
    ensures SameEvents(x, y) <==> !Straddles(x, y)
    decreases |x|
  {
    if x == "" {
      assert x + y == y && Matches(x) + Matches(y) == Matches(y);
    } else if MatchLength(x) > 0 {
      MatchStep(x, y);
      ChunkingIsExact(x[MatchLength(x)..], y);
    } else if IsPartial(x) {
      PartialHasNoMatch(x);
      assert Matches(x) + Matches(x + y) == Matches(x + y);
      NotEscNoStraddle(x, y, 1);
      NotEscNoStraddle(x, y, 2);
    } else if StartsSequence(x + y) {
      if MatchLength(x + y) > 0 { MatchAcross(x, y); } else { PartialAcross(x, y); }
      LostSequence(x, y);
    } else {
      PlainStep(x, y);
      ChunkingIsExact(x[1..], y);
    }
  }

  /** The cut is between the bytes of some `ESC [ ?`. */
  predicate CutInsideIntro(x: string, y: string) {
    || (|x| >= 1 && x[|x| - 1] == ESC && "[?" <= y)
    || (|x| >= 2 && x[|x| - 2] == ESC && x[|x| - 1] == '[' && "?" <= y)
  }

  lemma StraddlingCutsIntro(x: string, y: string)
    requires Straddles(x, y)
    ensures CutInsideIntro(x, y)
  {
    if StraddlesAt(x, y, 1) {
      var t := x[|x| - 1..] + y;
      assert t[1] == y[0] && t[2] == y[1];
    } else {
      var t := x[|x| - 2..] + y;
      assert t[1] == x[|x| - 1] && t[2] == y[0];
    }
  }

  /** A stream cut after the ESC of a sequence: the chunks together lose it, whatever its parameters. */
  lemma CutAfterEscLoses(params: string, final: char)
    requires params != "" && (forall c <- params :: IsParam(c)) && final in {'h', 'l'}
    ensures Straddles([ESC], "[?" + params + [final]) && !SameEvents([ESC], "[?" + params + [final])
  {
    var y := "[?" + params + [final];
    var data := [ESC] + y;
    forall k | 3 <= k < |data| - 1 ensures IsParam(data[k]) { assert data[k] == params[k - 3]; }
    assert !IsParam(data[|data| - 1]) && data[|data| - 1] == final;
    ParamEndAt(data, 3, |data| - 1);
    LostSequence([ESC], y);
  }

  lemma {:induction false} ApplyAllConcat(f: Flags, a: seq<Command>, b: seq<Command>)
    ensures ApplyAll(f, a + b) == ApplyAll(ApplyAll(f, a), b)
  {
    if b == [] {
      assert a + b == a;
    } else {
      ApplyAllConcat(f, a, b[..|b| - 1]);
      assert (a + b)[..|a + b| - 1] == a + b[..|b| - 1];
    }
  }

  lemma FeedTwice(s: State, a: string, b: string)
    requires !Straddles(s.partial + a, b)
    ensures Feed(Feed(s, a), b) == Feed(s, a + b)
  {
    if a == "" {
      assert a + b == b;
    } else if b == "" {
      assert a + b == a;
    } else {
      var x := s.partial + a;
      ChunkingIsExact(x, b);
      ConcatAssoc(s.partial, a, b);
      ApplyAllConcat(s.flags, Matches(x), Matches(Pending(x) + b));
    }
  }

  // The pending suffix keeps everything that decides whether a later cut is safe.
  lemma {:induction false} PendingIsSuffix(data: string)
    ensures |Pending(data)| <= |data| && data[|data| - |Pending(data)|..] == Pending(data)
  {
    if data != "" && !IsPartial(data) {
      PendingIsSuffix(data[1..]);
    }
  }

  lemma StraddlesGrows(prefix: string, x: string, y: string)
    requires Straddles(x, y)
    ensures Straddles(prefix + x, y)
  {
    var all := prefix + x;
    if |x| >= 1 { assert all[|all| - 1..] == x[|x| - 1..]; }
    if |x| >= 2 { assert all[|all| - 2..] == x[|x| - 2..]; }
  }

  /** No cut between consecutive chunks of the stream falls inside the introducer of a sequence. */
  ghost predicate SafeCuts(before: string, chunks: seq<string>) {
    forall i :: 0 < i < |chunks| ==> !Straddles(before + Flat(chunks[..i]), Flat(chunks[i..]))
  }

  lemma {:induction false} FlatConcat(a: seq<string>, b: seq<string>)
    ensures Flat(a + b) == Flat(a) + Flat(b)
  {
    if a == [] {
      assert a + b == b;
    } else {
      assert (a + b)[1..] == a[1..] + b;
      FlatConcat(a[1..], b);
    }
  }

  lemma CutAfterFirst(before: string, chunks: seq<string>, i: nat)
    requires 0 < i < |chunks| - 1
    requires Straddles(Pending(before + chunks[0]) + Flat(chunks[1..][..i]), Flat(chunks[1..][i..]))
    ensures Straddles(before + Flat(chunks[..i + 1]), Flat(chunks[i + 1..]))
  {
    var data, middle := before + chunks[0], Flat(chunks[1..][..i]);
    var pending := Pending(data);
    PendingIsSuffix(data);
    var dropped := data[..|data| - |pending|];
    SplitAt(data, |data| - |pending|);
    StraddlesGrows(dropped, pending + middle, Flat(chunks[1..][i..]));
    ConcatAssoc(dropped, pending, middle);
    ConcatAssoc(before, chunks[0], middle);
    ChunkSlices(chunks, i);
  }

  lemma ChunkSlices(chunks: seq<string>, i: nat)
    requires i < |chunks|
    ensures chunks[..i + 1][1..] == chunks[1..][..i] && chunks[i + 1..] == chunks[1..][i..]
    ensures Flat(chunks[..i + 1]) == chunks[0] + Flat(chunks[1..][..i])
  {
  }

  lemma SafeCutsAfterFirst(before: string, chunks: seq<string>)
    requires chunks != [] && SafeCuts(before, chunks)
    ensures SafeCuts(Pending(before + chunks[0]), chunks[1..])
  {
    var pending, rest := Pending(before + chunks[0]), chunks[1..];
    forall i | 0 < i < |rest| ensures !Straddles(pending + Flat(rest[..i]), Flat(rest[i..])) {
      if Straddles(pending + Flat(rest[..i]), Flat(rest[i..])) { CutAfterFirst(before, chunks, i); }
    }
  }

  /** A stream fed in any chunking whose cuts are safe gives the flags and the pending suffix of the whole. */
  lemma {:induction false} ChunkInvariance(s: State, chunks: seq<string>)
    requires SafeCuts(s.partial, chunks) && ValidState(s)
    ensures FeedAll(s, chunks) == Feed(s, Flat(chunks))
    decreases |chunks|
  {
    if chunks != [] {
      var first, rest := chunks[0], chunks[1..];
      if first == "" {
        assert Feed(s, first) == s;
        SkipEmptyChunk(s.partial, chunks);
        ChunkInvariance(s, rest);
        assert first + Flat(rest) == Flat(rest);
      } else {
        SafeCutsAfterFirst(s.partial, chunks);
        ChunkInvariance(Feed(s, first), rest);
        if |chunks| > 1 {
          assert chunks[..1] == [first] && Flat([first]) == first + Flat([]) == first;
          FeedTwice(s, first, Flat(rest));
        } else {
          assert first + Flat(rest) == first;
        }
      }
    }
  }

  lemma SkipEmptyChunk(before: string, chunks: seq<string>)
    requires chunks != [] && chunks[0] == "" && SafeCuts(before, chunks)
    ensures SafeCuts(before, chunks[1..])
  {
    var rest := chunks[1..];
    forall i | 0 < i < |rest| ensures !Straddles(before + Flat(rest[..i]), Flat(rest[i..])) {
      ChunkSlices(chunks, i);
      assert "" + Flat(rest[..i]) == Flat(rest[..i]);
    }
  }
}
