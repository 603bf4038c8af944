/** A browser that reconnects: it forgets the last sequence number but not the snapshot it held. */
module MirrorReconnect {
  import opened Bytes
  import opened Wrappers
  import opened MirrorWire
  import opened MirrorSender
  import opened MirrorProtocol

  // Opening a new socket resets the sender and the browser's sequence guard, but not what the browser holds.
  function Reconnected(held: Option<Held>): System {
    INITIAL.(client := Client(held, -1))
  }

  lemma {:induction false} OffersLeaveClient(link: Link, start: System, steps: seq<Step>)
    requires forall step <- steps :: !step.Deliver?
    ensures Run(link, start, steps).client == start.client
  {
    if steps != [] {
      OffersLeaveClient(link, start, steps[..|steps| - 1]);
    }
  }

  lemma {:induction false} RunAppend(link: Link, start: System, a: seq<Step>, b: seq<Step>)
    ensures Run(link, start, a + b) == Run(link, Run(link, start, a), b)
  {
    if b == [] {
      assert a + b == a;
    } else {
      RunAppend(link, start, a, b[..|b| - 1]);
      assert (a + b)[..|a + b| - 1] == a + b[..|b| - 1];
    }
  }

  lemma FirstFrameIsFull(link: Link, s: System)
    requires WireInv(link, s) && 0 < |s.shots| < MAX32 && s.client.latest == -1
    ensures HoldsExactly(Next(link, s, Deliver(0)))
  {
    assert Decodes(link, s.wire[0], s.shots, 0);
  }

  /** A browser left with an old snapshot is exact on the new connection once the connection's first frame is
      the first one it looks at, whatever happens to the frames after it. */
  lemma ReconnectIsExact(link: Link, held: Option<Held>, offers: seq<Step>, rest: seq<Step>)
    requires Faithful(link) && (forall step <- offers :: StepFits(step) && !step.Deliver?)
    requires forall step <- rest :: StepFits(step)
    requires Run(link, Reconnected(held), offers).shots != []
    requires |Run(link, Reconnected(held), offers + [Deliver(0)] + rest).shots| < MAX32
    ensures HoldsExactly(Run(link, Reconnected(held), offers + [Deliver(0)] + rest))
  {
    var start := Reconnected(held);
    var first := Run(link, start, offers + [Deliver(0)]);
    RunKeepsWireInv(link, start, offers);
    OffersLeaveClient(link, start, offers);
    RunSnoc(link, start, offers, Deliver(0));
    RunAppend(link, start, offers + [Deliver(0)], rest);
    RunShots(link, first, rest);
    FirstFrameIsFull(link, Run(link, start, offers));
    ClientHoldsExactSnapshot(link, first, rest);
  }

  lemma {:induction false} RunShots(link: Link, start: System, steps: seq<Step>)
    ensures start.shots <= Run(link, start, steps).shots
  {
    if steps != [] {
      RunShots(link, start, steps[..|steps| - 1]);
    }
  }

  // The sizes of an uncompressed full frame and of a delta that changes no row.
  lemma CursorOnlyDeltaIsShorter(zip: Zip, full: Frame, delta: Frame)
    requires full.Full? && delta.Delta? && full.lines != [] && delta.changed == [] && full.cursor == delta.cursor
    ensures |EncFrame(zip, delta, false)| < |EncFrame(zip, full, false)|
  {
  }

  /** Without that first frame it need not be: with an old snapshot `stale` recorded under number 1, a connection
      that sends `a` and then `b`, which differ in the cursor only, makes a browser that misses the first frame
      patch the second onto the old rows. */
  lemma StaleBaselineMixesConnections(zip: Zip, stale: Snapshot, a: Snapshot, b: Snapshot)
    requires Invertible(zip) && ShotFits(stale) && ShotFits(a) && ShotFits(b)
    requires a.rows > 0 && stale.lines != a.lines
    requires b == a.(cursor := b.cursor) && b.cursor != a.cursor
    requires stale == a.(lines := stale.lines, cursor := stale.cursor)
    ensures var steps := [Offer(a, false, false), Offer(b, false, false), Deliver(1)];
            var s := Run(WireLink(zip), Reconnected(Some(Held(stale, 1))), steps);
            && s.client.held == Some(Held(b.(lines := stale.lines), 2))
            && !HoldsExactly(s)
  {
    WireLinkIsFaithful(zip);
    DiffOfSame(a.lines, 0);
    CursorOnlyDeltaIsShorter(zip, FullFrame(b, 2), DeltaFrame(Baseline(a, 1), b, 2));
    StaleBaselineOnLink(WireLink(zip), stale, a, b);
  }

  lemma StaleBaselineOnLink(link: Link, stale: Snapshot, a: Snapshot, b: Snapshot)
    requires Faithful(link) && ShotFits(b) && stale.lines != a.lines && Diff(a.lines, b.lines) == []
    requires b == a.(cursor := b.cursor) && b.cursor != a.cursor
    requires stale == a.(lines := stale.lines, cursor := stale.cursor)
    requires |link.encode(DeltaFrame(Baseline(a, 1), b, 2), false)| < |link.encode(FullFrame(b, 2), false)|
    ensures var steps := [Offer(a, false, false), Offer(b, false, false), Deliver(1)];
            var s := Run(link, Reconnected(Some(Held(stale, 1))), steps);
            s.client.held == Some(Held(b.(lines := stale.lines), 2)) && !HoldsExactly(s)
  {
    var start, first, second := Reconnected(Some(Held(stale, 1))), Offer(a, false, false), Offer(b, false, false);
    RunThree(link, start, first, second, Deliver(1));
    SecondOfferIsDelta(link, Next(link, start, first), a, b);
    StaleDeltaAccepted(link, Next(link, Next(link, start, first), second), stale, a, b);
  }

  lemma RunThree(link: Link, start: System, a: Step, b: Step, c: Step)
    ensures Run(link, start, [a, b, c]) == Next(link, Next(link, Next(link, start, a), b), c)
  {
    RunSnoc(link, start, [], a);
    RunTwoMore(link, start, [a], b, c);
    assert [] + [a] == [a] && [a] + [b] + [c] == [a, b, c];
  }

  lemma SecondOfferIsDelta(link: Link, s: System, a: Snapshot, b: Snapshot)
    requires s.last == Some(Baseline(a, 1)) && s.incremental
    requires b == a.(cursor := b.cursor) && b.cursor != a.cursor
    requires |link.encode(DeltaFrame(Baseline(a, 1), b, 2), false)| < |link.encode(FullFrame(b, 2), false)|
    ensures Next(link, s, Offer(b, false, false))
         == s.(last := Some(Baseline(b, 2)), shots := s.shots + [b],
               wire := s.wire + [link.encode(DeltaFrame(Baseline(a, 1), b, 2), false)])
  {
  }

  lemma StaleDeltaAccepted(link: Link, s: System, stale: Snapshot, a: Snapshot, b: Snapshot)
    requires Faithful(link) && |s.wire| == 2 && s.shots == [a, b]
    requires s.wire[1] == link.encode(DeltaFrame(Baseline(a, 1), b, 2), false)
    requires ShotFits(b) && stale.lines != a.lines && Diff(a.lines, b.lines) == []
    requires b == a.(cursor := b.cursor) && stale == a.(lines := stale.lines, cursor := stale.cursor)
    requires s.client == Client(Some(Held(stale, 1)), -1)
    ensures var s' := Next(link, s, Deliver(1));
            s'.client.held == Some(Held(b.(lines := stale.lines), 2)) && !HoldsExactly(s')
  {
    var delta := DeltaFrame(Baseline(a, 1), b, 2);
    assert FrameFits(delta);
    assert link.decode(s.wire[1]) == Some(delta);
  }

  lemma {:induction false} DiffOfSame(lines: seq<seq<Byte>>, from: nat)
    requires from <= |lines|
    ensures DiffFrom(lines, lines, from) == []
    decreases |lines| - from
  {
    if from < |lines| { DiffOfSame(lines, from + 1); }
  }

  // ------------------------------------------------- exactly when rows mix

  /** The delta carries a new content for this row. */
  predicate CarriesRow(changed: seq<ChangedRow>, index: nat) {
    exists row <- changed :: row.index == index
  }

  predicate SameScreen(h: Header, shot: Snapshot) {
    shot.rows == h.rows && shot.cols == h.cols && shot.altScreen == h.altScreen && shot.modeFlags == h.modeFlags
  }

  /** The frame is a delta on the number of the old snapshot, of the same size and modes, and leaves alone a row
      that the old snapshot shows otherwise than the frame's own one. */
  predicate Mixes(frame: Frame, held: Held, shot: Snapshot)
    requires |held.shot.lines| == held.shot.rows
  {
    && frame.Delta? && frame.header.baseSequence == held.sequence && SameScreen(frame.header, held.shot)
    && |shot.lines| == |held.shot.lines|
    && exists i :: 0 <= i < |shot.lines| && !CarriesRow(frame.changed, i) && held.shot.lines[i] != shot.lines[i]
  }

  /** Among the frames sent, the one numbered after the old snapshot's mixes with it. */
  ghost predicate WireMixes(link: Link, s: System, held: Held)
    requires |held.shot.lines| == held.shot.rows && |s.wire| == |s.shots|
  {
    held.sequence < |s.wire| && link.decode(s.wire[held.sequence]).Some?
    && Mixes(link.decode(s.wire[held.sequence]).value, held, s.shots[held.sequence])
  }

  // Patching lines with the difference of two others.
  lemma {:induction false} PatchOnto(lines: seq<seq<Byte>>, old_: seq<seq<Byte>>, new_: seq<seq<Byte>>, from: nat)
    requires |lines| == |old_| == |new_| && from <= |new_|
    ensures var patched := Patch(lines, DiffFrom(old_, new_, from));
      && patched.Some? && |patched.value| == |lines|
      && forall i :: 0 <= i < |lines| ==>
           patched.value[i] == if i >= from && old_[i] != new_[i] then new_[i] else lines[i]
    decreases |new_| - from
  {
    if from < |new_| {
      if old_[from] != new_[from] {
        var changed := DiffFrom(old_, new_, from);
        assert changed[1..] == DiffFrom(old_, new_, from + 1);
        PatchOnto(lines[from := new_[from]], old_, new_, from + 1);
      } else {
        PatchOnto(lines, old_, new_, from + 1);
      }
    }
  }

  lemma {:induction false} DiffCarries(old_: seq<seq<Byte>>, new_: seq<seq<Byte>>, from: nat, i: nat)
    requires |old_| == |new_| && from <= |new_|
    ensures CarriesRow(DiffFrom(old_, new_, from), i) <==> from <= i < |new_| && old_[i] != new_[i]
    decreases |new_| - from
  {
    if from < |new_| {
      DiffCarries(old_, new_, from + 1, i);
      var rest := DiffFrom(old_, new_, from + 1);
      if old_[from] != new_[from] {
        var row := ChangedRow(from, new_[from]);
        assert DiffFrom(old_, new_, from) == [row] + rest && row in [row] + rest;
      }
    }
  }

  // What the browser makes of a frame while it still holds the old snapshot.
  lemma AssembleOnStale(frame: Frame, shots: seq<Snapshot>, n: nat, held: Held)
    requires n < |shots| < MAX32 && AllFit(shots) && Carries(frame, shots, n) && |held.shot.lines| == held.shot.rows
    ensures Mixes(frame, held, shots[n]) ==> n == held.sequence
    ensures var assembled := Assemble(Some(held), frame);
      Mixes(frame, held, shots[n]) <==> assembled.Some? && assembled.value != Held(shots[n], n + 1)
  {
    assert shots[n] in shots && ShotFits(shots[n]);
    if frame.Delta? {
      assert shots[n - 1] in shots && ShotFits(shots[n - 1]);
      var was, now := shots[n - 1].lines, shots[n].lines;
      forall i | 0 <= i < |now| ensures CarriesRow(frame.changed, i) <==> was[i] != now[i] {
        DiffCarries(was, now, 0, i);
      }
      if SameScreen(frame.header, held.shot) {
        PatchOnto(held.shot.lines, was, now, 0);
        StalePatch(held.shot.lines, was, now, frame.changed);
      }
    }
  }

  lemma StalePatch(lines: seq<seq<Byte>>, was: seq<seq<Byte>>, now: seq<seq<Byte>>, changed: seq<ChangedRow>)
    requires |lines| == |was| == |now| && changed == DiffFrom(was, now, 0)
    ensures Patch(lines, changed).Some?
    ensures Patch(lines, changed).value == now <==>
      forall i :: 0 <= i < |now| && !CarriesRow(changed, i) ==> lines[i] == now[i]
  {
    PatchOnto(lines, was, now, 0);
    var patched := Patch(lines, changed).value;
    forall i | 0 <= i < |now|
      ensures patched[i] == now[i] <==> CarriesRow(changed, i) || lines[i] == now[i]
    {
      DiffCarries(was, now, 0, i);
    }
    assert patched == now <==> forall i :: 0 <= i < |now| ==> patched[i] == now[i];
  }

  ghost predicate KeepsOrExact(s: System, held: Held) {
    s.client.held == Some(held) || HoldsExactly(s)
  }

  lemma DeliverKeepsOrExact(link: Link, s: System, held: Held, n: nat)
    requires WireInv(link, s) && KeepsOrExact(s, held) && n < |s.wire| < MAX32
    requires |held.shot.lines| == held.shot.rows && !WireMixes(link, s, held)
    ensures KeepsOrExact(Next(link, s, Deliver(n)), held)
  {
    assert Decodes(link, s.wire[n], s.shots, n);
    if s.client.held == Some(held) {
      AssembleOnStale(link.decode(s.wire[n]).value, s.shots, n, held);
    } else {
      DeliverKeepsExact(link, s, n);
    }
  }

  lemma WireMixesGrows(link: Link, s: System, s': System, held: Held)
    requires |held.shot.lines| == held.shot.rows && |s.wire| == |s.shots| && |s'.wire| == |s'.shots|
    requires s.wire <= s'.wire && s.shots <= s'.shots && WireMixes(link, s, held)
    ensures WireMixes(link, s', held)
  {
  }

  lemma OneStepGrows(link: Link, s: System, step: Step)
    ensures s.wire <= Next(link, s, step).wire && s.shots <= Next(link, s, step).shots
  {
  }

  lemma {:induction false} NeverMixes(link: Link, start: System, steps: seq<Step>, held: Held)
    requires Faithful(link) && WireInv(link, start) && forall step <- steps :: StepFits(step)
    requires KeepsOrExact(start, held) && |Run(link, start, steps).shots| < MAX32
    requires |held.shot.lines| == held.shot.rows
    requires |Run(link, start, steps).wire| == |Run(link, start, steps).shots|
    requires !WireMixes(link, Run(link, start, steps), held)
    ensures KeepsOrExact(Run(link, start, steps), held)
  {
    if steps != [] {
      var before, step := steps[..|steps| - 1], steps[|steps| - 1];
      var s := Run(link, start, before);
      RunKeepsWireInv(link, start, before);
      OneStepGrows(link, s, step);
      if WireMixes(link, s, held) { WireMixesGrows(link, s, Run(link, start, steps), held); }
      NeverMixes(link, start, before, held);
      if step.Deliver? && step.index < |s.wire| { DeliverKeepsOrExact(link, s, held, step.index); }
    }
  }

  // The steps of the server among those of a run.
  function Sending(steps: seq<Step>): seq<Step> {
    if steps == [] then [] else
    var last := steps[|steps| - 1];
    Sending(steps[..|steps| - 1]) + if last.Deliver? then [] else [last]
  }

  // Deliveries change nothing but the browser.
  lemma {:induction false} SendingDecides(link: Link, start: System, steps: seq<Step>)
    ensures Run(link, start, Sending(steps)).(client := start.client)
         == Run(link, start, steps).(client := start.client)
  {
    if steps != [] {
      var before, last := steps[..|steps| - 1], steps[|steps| - 1];
      SendingDecides(link, start, before);
      if !last.Deliver? {
        RunSnoc(link, start, Sending(before), last);
        SenderIgnoresClient(link, Run(link, start, Sending(before)), Run(link, start, before), last);
      } else {
        assert Sending(before) + [] == Sending(before);
      }
    }
  }

  lemma SenderIgnoresClient(link: Link, s: System, t: System, step: Step)
    requires s.(client := FRESH_CLIENT) == t.(client := FRESH_CLIENT) && !step.Deliver?
    ensures Next(link, s, step).(client := FRESH_CLIENT) == Next(link, t, step).(client := FRESH_CLIENT)
  {
  }

  lemma {:induction false} SendingOf(offers: seq<Step>, index: nat)
    requires forall step <- offers :: !step.Deliver?
    ensures Sending(offers) == offers && Sending(offers + [Deliver(index)]) == offers
  {
    if offers != [] {
      SendingOf(offers[..|offers| - 1], index);
      assert offers == offers[..|offers| - 1] + [offers[|offers| - 1]];
    }
    assert (offers + [Deliver(index)])[..|offers|] == offers;
    assert offers + [] == offers;
  }

  lemma {:induction false} SendingFits(steps: seq<Step>)
    requires forall step <- Sending(steps) :: StepFits(step)
    ensures forall step <- steps :: StepFits(step)
  {
    if steps != [] {
      var before, last := steps[..|steps| - 1], steps[|steps| - 1];
      assert forall step <- Sending(before) :: step in Sending(steps);
      SendingFits(before);
      assert last.Deliver? || last in Sending(steps);
      assert steps == before + [last];
    }
  }

  lemma DeliverMixes(link: Link, s: System, held: Held)
    requires WireInv(link, s) && s.client == Client(Some(held), -1) && |s.wire| < MAX32
    requires |held.shot.lines| == held.shot.rows && WireMixes(link, s, held)
    ensures !KeepsOrExact(Next(link, s, Deliver(held.sequence)), held)
  {
    var n := held.sequence;
    assert Decodes(link, s.wire[n], s.shots, n);
    AssembleOnStale(link.decode(s.wire[n]).value, s.shots, n, held);
  }

  /** A browser that reconnects with an old snapshot, and gets the frames of the new connection in any way, always
      holds either that snapshot or exactly the one it has the number of, if and only if the frame numbered after
      the old snapshot does not mix with it: there is no such frame, it is full, its size or modes differ from the
      old snapshot's, or the old snapshot agrees with its own on every row it does not carry. */
  lemma NeverMixesIff(link: Link, held: Held, offers: seq<Step>)
    requires Faithful(link) && forall step <- offers :: StepFits(step) && !step.Deliver?
    requires |held.shot.lines| == held.shot.rows && |Run(link, Reconnected(Some(held)), offers).shots| < MAX32
    ensures |Run(link, Reconnected(Some(held)), offers).wire| == |Run(link, Reconnected(Some(held)), offers).shots|
    ensures (forall steps :: Sending(steps) == offers ==> KeepsOrExact(Run(link, Reconnected(Some(held)), steps), held))
      <==> !WireMixes(link, Run(link, Reconnected(Some(held)), offers), held)
  {
    var start := Reconnected(Some(held));
    var sent := Run(link, start, offers);
    RunKeepsWireInv(link, start, offers);
    if WireMixes(link, sent, held) {
      var steps := offers + [Deliver(held.sequence)];
      SendingOf(offers, held.sequence);
      OffersLeaveClient(link, start, offers);
      RunSnoc(link, start, offers, Deliver(held.sequence));
      DeliverMixes(link, sent, held);
      assert Sending(steps) == offers && !KeepsOrExact(Run(link, start, steps), held);
    } else {
      forall steps | Sending(steps) == offers ensures KeepsOrExact(Run(link, start, steps), held) {
        SendingDecides(link, start, steps);
        SendingFits(steps);
        NeverMixes(link, start, steps, held);
      }
    }
  }

  /** Whatever a browser holds has one line per row, on every connection. */
  lemma HeldLinesFit(zip: Zip, client: Client, bytes: seq<Byte>)
    requires client.held.Some? ==> |client.held.value.shot.lines| == client.held.value.shot.rows
    ensures var held := Receive(WireLink(zip), client, bytes).held;
      held.Some? ==> |held.value.shot.lines| == held.value.shot.rows
  {
    var frame := ParseFrame(zip, bytes);
    if frame.Some? {
      ParsedFrameFits(zip, bytes);
      if frame.value.Delta? && client.held.Some? { PatchLength(client.held.value.shot.lines, frame.value.changed); }
    }
  }

  lemma {:induction false} PatchLength(lines: seq<seq<Byte>>, changed: seq<ChangedRow>)
    ensures Patch(lines, changed).Some? ==> |Patch(lines, changed).value| == |lines|
    decreases |changed|
  {
    if changed != [] && changed[0].index < |lines| {
      PatchLength(lines[changed[0].index := changed[0].content], changed[1..]);
    }
  }
}
