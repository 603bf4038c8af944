/** Whole runs of the mirror protocol: a sender, a network that loses, repeats and reorders, and a browser. */
module MirrorProtocol {
  import opened Bytes
  import opened Wrappers
  import opened MirrorWire
  import opened MirrorSender

  // ------------------------------------------------------------- the browser

  datatype Held = Held(shot: Snapshot, sequence: nat)

  /** What a tab keeps: the assembled snapshot and the highest sequence it has looked at. */
  datatype Client = Client(held: Option<Held>, latest: int)

  const FRESH_CLIENT := Client(None, -1)

  function ShotOf(h: Header, lines: seq<seq<Byte>>, cursor: seq<Byte>): Snapshot {
    Snapshot(h.rows, h.cols, lines, cursor, h.altScreen, h.cursorVisible, h.modeFlags, h.capturedAt)
  }

  function Patch(lines: seq<seq<Byte>>, changed: seq<ChangedRow>): Option<seq<seq<Byte>>>
    decreases |changed|
  {
    if changed == [] then Some(lines) else
    if changed[0].index >= |lines| then None else
    Patch(lines[changed[0].index := changed[0].content], changed[1..])
  }

  /** The browser's assembly of a frame on what it holds; None asks the server for a full frame. */
  function Assemble(previous: Option<Held>, frame: Frame): Option<Held> {
    match frame
    case Full(h, lines, cursor) => Some(Held(ShotOf(h, lines, cursor), h.sequence))
    case Delta(h, changed, cursor) =>
      if previous.None? || previous.value.sequence != h.baseSequence then None else
      var shot := previous.value.shot;
      if shot.rows != h.rows || shot.cols != h.cols
         || shot.altScreen != h.altScreen || shot.modeFlags != h.modeFlags then None else
      var lines := Patch(shot.lines, changed);
      if lines.None? then None else Some(Held(ShotOf(h, lines.value, cursor), h.sequence))
  }

  function Receive(link: Link, client: Client, bytes: seq<Byte>): Client {
    Absorb(client, link.decode(bytes))
  }

  /** The browser ignores what it cannot parse and every sequence number it has already reached. */
  function Absorb(client: Client, frame: Option<Frame>): Client {
    if frame.None? || frame.value.header.sequence <= client.latest then client else
    var assembled := Assemble(client.held, frame.value);
    Client(if assembled.Some? then assembled else client.held, frame.value.header.sequence)
  }

  // -------------------------------------------------------------------- runs

  /** `shots[i]` is the snapshot encoded in `wire[i]`; any frame ever encoded may still arrive. */
  datatype System = System(
    last: Option<Baseline>, incremental: bool,
    shots: seq<Snapshot>, wire: seq<seq<Byte>>, client: Client)

  datatype Step =
    | Offer(shot: Snapshot, force: bool, compression: bool)
    | SetIncremental(enabled: bool)
    | Deliver(index: nat)

  const INITIAL := System(None, true, [], [], FRESH_CLIENT)

  function Next(link: Link, s: System, step: Step): System {
    match step
    case Offer(shot, force, compression) =>
      var frame := Emit(link, s.last, s.incremental, shot, force, compression);
      if frame.None? then s else
      s.(last := Some(Baseline(shot, NextSequence(s.last))),
         shots := s.shots + [shot],
         wire := s.wire + [link.encode(frame.value, compression)])
    case SetIncremental(enabled) => s.(incremental := enabled)
    case Deliver(index) =>
      if index < |s.wire| then s.(client := Receive(link, s.client, s.wire[index])) else s
  }

  function Run(link: Link, start: System, steps: seq<Step>): System {
    if steps == [] then start else Next(link, Run(link, start, steps[..|steps| - 1]), steps[|steps| - 1])
  }

  /** A snapshot the frame format can carry; a session's snapshot has one line per row. */
  predicate ShotFits(s: Snapshot) {
    && |s.lines| == s.rows < MAX16 && s.cols < MAX16 && s.modeFlags < MAX32
    && |s.cursor| < MAX32 && (forall line <- s.lines :: |line| < MAX32)
    && (s.capturedAt.Some? ==> 0 < s.capturedAt.value < MAX64)
  }

  predicate StepFits(step: Step) {
    step.Offer? ==> ShotFits(step.shot)
  }

  // ------------------------------------------------------------ row patching

  // Rows `from`.. of `old_` replaced by those of `new_`.
  function Grafted(old_: seq<seq<Byte>>, new_: seq<seq<Byte>>, from: nat): seq<seq<Byte>>
    requires |old_| == |new_| && from <= |new_|
  {
    new_[..from] + old_[from..]
  }

  lemma GraftedStep(old_: seq<seq<Byte>>, new_: seq<seq<Byte>>, from: nat)
    requires |old_| == |new_| && from < |new_|
    ensures Grafted(old_, new_, from + 1) == Grafted(old_, new_, from)[from := new_[from]]
    ensures old_[from] == new_[from] ==> Grafted(old_, new_, from + 1) == Grafted(old_, new_, from)
  {
  }

  lemma {:induction false} PatchDiffFrom(old_: seq<seq<Byte>>, new_: seq<seq<Byte>>, from: nat)
    requires |old_| == |new_| && from <= |new_|
    ensures Patch(Grafted(old_, new_, from), DiffFrom(old_, new_, from)) == Some(new_)
    decreases |new_| - from
  {
    if from == |new_| {
      assert Grafted(old_, new_, from) == new_;
    } else {
      GraftedStep(old_, new_, from);
      PatchDiffFrom(old_, new_, from + 1);
      if old_[from] != new_[from] {
        assert DiffFrom(old_, new_, from)[1..] == DiffFrom(old_, new_, from + 1);
      }
    }
  }

  /** Patching the old rows with the difference gives the new rows. */
  lemma PatchUndoesDiff(old_: seq<seq<Byte>>, new_: seq<seq<Byte>>)
    requires |old_| == |new_|
    ensures Patch(old_, Diff(old_, new_)) == Some(new_)
  {
    assert Grafted(old_, new_, 0) == old_;
    PatchDiffFrom(old_, new_, 0);
  }

  lemma {:induction false} DiffFromFits(old_: seq<seq<Byte>>, new_: seq<seq<Byte>>, from: nat)
    requires from <= |new_| < MAX16 && forall line <- new_ :: |line| < MAX32
    ensures forall row <- DiffFrom(old_, new_, from) :: RowFits(row)
    decreases |new_| - from
  {
    if from < |new_| {
      DiffFromFits(old_, new_, from + 1);
    }
  }

  // --------------------------------------------------------------- invariant

  // Frame number n (counting from 0) is full, or rebuilds its snapshot from the one before it.
  ghost predicate Carries(frame: Frame, shots: seq<Snapshot>, n: nat)
    requires n < |shots|
  {
    || frame == FullFrame(shots[n], Wrap(n + 1))
    || (&& n > 0
        && CanDelta(Some(Baseline(shots[n - 1], Wrap(n))), shots[n])
        && frame == DeltaFrame(Baseline(shots[n - 1], Wrap(n)), shots[n], Wrap(n + 1)))
  }

  ghost predicate AllFit(shots: seq<Snapshot>) {
    forall shot <- shots :: ShotFits(shot)
  }

  function LastBaseline(shots: seq<Snapshot>): Option<Baseline> {
    if shots == [] then None else Some(Baseline(shots[|shots| - 1], Wrap(|shots|)))
  }

  ghost predicate WireInv(link: Link, s: System) {
    && |s.wire| == |s.shots|
    && AllFit(s.shots)
    && s.last == LastBaseline(s.shots)
    && forall n | 0 <= n < |s.wire| :: Decodes(link, s.wire[n], s.shots, n)
  }

  ghost predicate Decodes(link: Link, bytes: seq<Byte>, shots: seq<Snapshot>, n: nat)
    requires n < |shots|
  {
    var frame := link.decode(bytes);
    frame.Some? && Carries(frame.value, shots, n)
  }

  ghost predicate HoldsExactly(s: System) {
    s.client.held.Some? ==>
      var held := s.client.held.value;
      1 <= held.sequence <= |s.shots| && held.shot == s.shots[held.sequence - 1]
  }

  lemma EmittedFits(link: Link, last: Option<Baseline>, incremental: bool, s: Snapshot, force: bool, compression: bool)
    requires ShotFits(s) && Emit(link, last, incremental, s, force, compression).Some?
    requires last.Some? ==> last.value.sequence < MAX32
    ensures FrameFits(Emit(link, last, incremental, s, force, compression).value)
  {
    EmittedFrame(link, last, incremental, s, force, compression);
    if last.Some? {
      DiffFromFits(last.value.shot.lines, s.lines, 0);
    }
  }

  lemma EmittedDecodes(link: Link, s: System, offer: Step)
    requires Faithful(link) && WireInv(link, s) && offer.Offer? && StepFits(offer)
    requires Emit(link, s.last, s.incremental, offer.shot, offer.force, offer.compression).Some?
    ensures var frame := Emit(link, s.last, s.incremental, offer.shot, offer.force, offer.compression).value;
            Decodes(link, link.encode(frame, offer.compression), s.shots + [offer.shot], |s.shots|)
  {
    var frame := Emit(link, s.last, s.incremental, offer.shot, offer.force, offer.compression).value;
    EmittedFits(link, s.last, s.incremental, offer.shot, offer.force, offer.compression);
    EmittedCarries(link, s, offer);
  }

  lemma EmittedCarries(link: Link, s: System, offer: Step)
    requires WireInv(link, s) && offer.Offer?
    requires Emit(link, s.last, s.incremental, offer.shot, offer.force, offer.compression).Some?
    ensures var frame := Emit(link, s.last, s.incremental, offer.shot, offer.force, offer.compression).value;
            Carries(frame, s.shots + [offer.shot], |s.shots|)
  {
    EmittedFrame(link, s.last, s.incremental, offer.shot, offer.force, offer.compression);
    assert NextSequence(s.last) == Wrap(|s.shots| + 1);
  }

  lemma DecodesGrows(link: Link, bytes: seq<Byte>, shots: seq<Snapshot>, shot: Snapshot, n: nat)
    requires n < |shots| && Decodes(link, bytes, shots, n)
    ensures Decodes(link, bytes, shots + [shot], n)
  {
  }

  lemma AllFitGrows(shots: seq<Snapshot>, shot: Snapshot)
    requires AllFit(shots) && ShotFits(shot)
    ensures AllFit(shots + [shot])
  {
  }

  lemma SequenceGrows(shots: seq<Snapshot>, shot: Snapshot)
    ensures Some(Baseline(shot, NextSequence(LastBaseline(shots)))) == LastBaseline(shots + [shot])
  {
  }

  // Recording one more frame, whatever its bytes are.
  lemma AppendKeepsWireInv(link: Link, s: System, shot: Snapshot, bytes: seq<Byte>)
    requires WireInv(link, s) && ShotFits(shot) && Decodes(link, bytes, s.shots + [shot], |s.shots|)
    ensures WireInv(link, s.(last := Some(Baseline(shot, NextSequence(s.last))),
                            shots := s.shots + [shot], wire := s.wire + [bytes]))
  {
    var shots', wire' := s.shots + [shot], s.wire + [bytes];
    AllFitGrows(s.shots, shot);
    SequenceGrows(s.shots, shot);
    forall k | 0 <= k < |wire'| ensures Decodes(link, wire'[k], shots', k) {
      if k < |s.wire| { DecodesGrows(link, s.wire[k], s.shots, shot, k); }
    }
  }

  lemma NextKeepsWireInv(link: Link, s: System, step: Step)
    requires Faithful(link) && WireInv(link, s) && StepFits(step)
    ensures WireInv(link, Next(link, s, step))
  {
    if step.Offer? {
      var frame := Emit(link, s.last, s.incremental, step.shot, step.force, step.compression);
      if frame.Some? {
        EmittedDecodes(link, s, step);
        AppendKeepsWireInv(link, s, step.shot, link.encode(frame.value, step.compression));
      }
    }
  }

  lemma {:induction false} RunKeepsWireInv(link: Link, start: System, steps: seq<Step>)
    requires Faithful(link) && WireInv(link, start) && forall step <- steps :: StepFits(step)
    ensures WireInv(link, Run(link, start, steps))
  {
    if steps != [] {
      RunKeepsWireInv(link, start, steps[..|steps| - 1]);
      NextKeepsWireInv(link, Run(link, start, steps[..|steps| - 1]), steps[|steps| - 1]);
    }
  }

  // ------------------------------------------------------------------ safety

  // Assembling frame n on its own base, or on anything when it is full, gives snapshot n.
  lemma AssembleCarried(frame: Frame, shots: seq<Snapshot>, n: nat, previous: Option<Held>)
    requires n < |shots| && AllFit(shots) && Carries(frame, shots, n)
    requires frame.Delta? ==> previous == Some(Held(shots[n - 1], Wrap(n)))
    ensures Assemble(previous, frame) == Some(Held(shots[n], Wrap(n + 1)))
  {
    if frame.Delta? {
      assert ShotFits(shots[n - 1]) && ShotFits(shots[n]);
      PatchUndoesDiff(shots[n - 1].lines, shots[n].lines);
    }
  }

  lemma DeliverKeepsExact(link: Link, s: System, n: nat)
    requires WireInv(link, s) && HoldsExactly(s) && n < |s.wire| < MAX32
    ensures HoldsExactly(Next(link, s, Deliver(n)))
  {
    assert Decodes(link, s.wire[n], s.shots, n);
    var frame := link.decode(s.wire[n]).value;
    var assembled := Assemble(s.client.held, frame);
    if assembled.Some? {
      AssembleCarried(frame, s.shots, n, s.client.held);
    }
  }

  lemma {:induction false} ShotsGrow(link: Link, start: System, steps: seq<Step>)
    requires steps != []
    ensures Run(link, start, steps[..|steps| - 1]).shots <= Run(link, start, steps).shots
  {
  }

  /** However frames are lost, repeated and reordered, over a run of fewer than 2^32 frames a browser that starts
      with nothing holds exactly the snapshot that was encoded under the sequence number it records. */
  lemma ClientIsExact(zip: Zip, steps: seq<Step>)
    requires Invertible(zip) && forall step <- steps :: StepFits(step)
    requires |Run(WireLink(zip), INITIAL, steps).shots| < MAX32
    ensures HoldsExactly(Run(WireLink(zip), INITIAL, steps))
  {
    WireLinkIsFaithful(zip);
    ClientHoldsExactSnapshot(WireLink(zip), INITIAL, steps);
  }

  // From any state in which it holds.
  lemma {:induction false} ClientHoldsExactSnapshot(link: Link, start: System, steps: seq<Step>)
    requires Faithful(link) && WireInv(link, start) && forall step <- steps :: StepFits(step)
    requires HoldsExactly(start) && |Run(link, start, steps).shots| < MAX32
    ensures HoldsExactly(Run(link, start, steps))
  {
    if steps != [] {
      var before, step := steps[..|steps| - 1], steps[|steps| - 1];
      ShotsGrow(link, start, steps);
      RunKeepsWireInv(link, start, before);
      ClientHoldsExactSnapshot(link, start, before);
      if step.Deliver? && step.index < |Run(link, start, before).wire| {
        DeliverKeepsExact(link, Run(link, start, before), step.index);
      }
    }
  }

  /** What the browser shows never goes back to an earlier frame. */
  lemma ClientNeverGoesBack(link: Link, client: Client, bytes: seq<Byte>)
    requires client.held.Some? ==> client.held.value.sequence <= client.latest
    ensures var client' := Receive(link, client, bytes);
            && client.latest <= client'.latest
            && (client'.held.Some? ==> client'.held.value.sequence <= client'.latest)
            && (client.held.Some? ==>
                  && client'.held.Some?
                  && (client'.held == client.held || client.held.value.sequence < client'.held.value.sequence))
  {
  }

  lemma DeliverKeepsLatest(link: Link, s: System, n: nat)
    requires WireInv(link, s) && s.client.latest <= |s.shots| && n < |s.wire| < MAX32
    ensures Next(link, s, Deliver(n)).client.latest <= |s.shots|
  {
    assert Decodes(link, s.wire[n], s.shots, n);
  }

  lemma {:induction false} LatestIsSent(link: Link, start: System, steps: seq<Step>)
    requires Faithful(link) && WireInv(link, start) && forall step <- steps :: StepFits(step)
    requires start.client.latest <= |start.shots| && |Run(link, start, steps).shots| < MAX32
    ensures Run(link, start, steps).client.latest <= |Run(link, start, steps).shots|
  {
    if steps != [] {
      var before, step := steps[..|steps| - 1], steps[|steps| - 1];
      ShotsGrow(link, start, steps);
      RunKeepsWireInv(link, start, before);
      LatestIsSent(link, start, before);
      if step.Deliver? && step.index < |Run(link, start, before).wire| {
        DeliverKeepsLatest(link, Run(link, start, before), step.index);
      }
    }
  }

  lemma FullFrameRecovers(client: Client, shot: Snapshot, sequence: nat)
    requires client.latest < sequence
    ensures Absorb(client, Some(FullFrame(shot, sequence))) == Client(Some(Held(shot, sequence)), sequence)
  {
  }

  lemma ForcedOfferDelivered(link: Link, s: System, shot: Snapshot, compression: bool)
    requires Faithful(link) && WireInv(link, s) && ShotFits(shot)
    requires s.client.latest <= |s.shots| && |s.shots| + 1 < MAX32
    ensures var n := |s.shots|;
            Next(link, Next(link, s, Offer(shot, true, compression)), Deliver(n)).client
              == Client(Some(Held(shot, n + 1)), n + 1)
  {
    var frame := FullFrame(shot, |s.shots| + 1);
    FullFrameRecovers(s.client, shot, |s.shots| + 1);
  }

  lemma RunSnoc(link: Link, start: System, steps: seq<Step>, step: Step)
    ensures Run(link, start, steps + [step]) == Next(link, Run(link, start, steps), step)
  {
    assert (steps + [step])[..|steps|] == steps;
  }

  lemma RunTwoMore(link: Link, start: System, steps: seq<Step>, a: Step, b: Step)
    ensures Run(link, start, steps + [a] + [b]) == Next(link, Next(link, Run(link, start, steps), a), b)
  {
    RunSnoc(link, start, steps, a);
    RunSnoc(link, start, steps + [a], b);
  }

  /** Whatever was lost before, the answer to a request for a full frame brings the browser up to date. */
  lemma ForcedFrameRecovers(link: Link, start: System, steps: seq<Step>, shot: Snapshot, compression: bool)
    requires Faithful(link) && WireInv(link, start) && (forall step <- steps :: StepFits(step)) && ShotFits(shot)
    requires start.client.latest <= |start.shots| && |Run(link, start, steps).shots| + 1 < MAX32
    ensures var n := |Run(link, start, steps).shots|;
            Run(link, start, steps + [Offer(shot, true, compression)] + [Deliver(n)]).client
              == Client(Some(Held(shot, n + 1)), n + 1)
  {
    RunKeepsWireInv(link, start, steps);
    LatestIsSent(link, start, steps);
    var s := Run(link, start, steps);
    RunTwoMore(link, start, steps, Offer(shot, true, compression), Deliver(|s.shots|));
    ForcedOfferDelivered(link, s, shot, compression);
  }

  // ------------------------------------------------- lossless in-order runs

  function Deliveries(steps: seq<Step>): nat {
    if steps == [] then 0 else
    Deliveries(steps[..|steps| - 1]) + if steps[|steps| - 1].Deliver? then 1 else 0
  }

  /** Frames arrive in the order they were sent, none lost and none twice, each at any time after it was sent. */
  ghost predicate InOrder(link: Link, start: System, steps: seq<Step>) {
    steps != [] ==>
      var before, last := steps[..|steps| - 1], steps[|steps| - 1];
      && InOrder(link, start, before)
      && (last.Deliver? ==> last.index == Deliveries(before) < |Run(link, start, before).wire|)
  }

  function Least(a: nat, b: nat): nat {
    if a < b then a else b
  }

  ghost predicate UpToDate(shots: seq<Snapshot>, client: Client) {
    var n := Least(|shots|, MAX32 - 1);
    client == if n == 0 then FRESH_CLIENT else Client(Some(Held(shots[n - 1], n)), n)
  }

  lemma NextDelivery(link: Link, s: System, n: nat)
    requires WireInv(link, s) && n < |s.wire| && UpToDate(s.shots[..n], s.client)
    ensures UpToDate(s.shots[..n + 1], Next(link, s, Deliver(n)).client)
  {
    assert Decodes(link, s.wire[n], s.shots, n);
    var frame := link.decode(s.wire[n]).value;
    if n + 1 < MAX32 {
      AssembleCarried(frame, s.shots, n, s.client.held);
    }
  }

  lemma SamePrefix(shots: seq<Snapshot>, shots': seq<Snapshot>, n: nat)
    requires n <= |shots| && shots <= shots'
    ensures n <= |shots'| && shots'[..n] == shots[..n]
  {
  }

  /** Delivered losslessly and in order, with any lag, the browser is at frame min(k, 2^32 - 1) after k frames:
      exactly up to date with what has arrived until the sequence number wraps, and from then on stuck, since no
      later number exceeds its own. */
  lemma {:induction false} InOrderDelivery(link: Link, steps: seq<Step>)
    requires Faithful(link) && (forall step <- steps :: StepFits(step)) && InOrder(link, INITIAL, steps)
    ensures var s, k := Run(link, INITIAL, steps), Deliveries(steps);
            WireInv(link, s) && k <= |s.shots| && UpToDate(s.shots[..k], s.client)
  {
    if steps != [] {
      var before, last := steps[..|steps| - 1], steps[|steps| - 1];
      InOrderDelivery(link, before);
      var s := Run(link, INITIAL, before);
      NextKeepsWireInv(link, s, last);
      if last.Deliver? {
        NextDelivery(link, s, last.index);
      } else {
        ShotsGrow(link, INITIAL, steps);
        SamePrefix(s.shots, Next(link, s, last).shots, Deliveries(before));
      }
    }
  }

  // Every frame is delivered before the next step.
  function PromptNext(link: Link, s: System, step: Step): System {
    var s' := Next(link, s, step);
    if |s'.wire| > |s.wire| then Next(link, s', Deliver(|s.wire|)) else s'
  }

  function PromptRun(link: Link, steps: seq<Step>): System {
    if steps == [] then INITIAL else PromptNext(link, PromptRun(link, steps[..|steps| - 1]), steps[|steps| - 1])
  }

  // The same run with its deliveries written out.
  function PromptSteps(link: Link, steps: seq<Step>): seq<Step> {
    if steps == [] then [] else
    var before, last := steps[..|steps| - 1], steps[|steps| - 1];
    var s := PromptRun(link, before);
    PromptSteps(link, before) + [last] + if |Next(link, s, last).wire| > |s.wire| then [Deliver(|s.wire|)] else []
  }

  lemma OneWireStep(link: Link, s: System, step: Step)
    ensures |Next(link, s, step).wire| <= |s.wire| + 1
    ensures step.Deliver? ==> Next(link, s, step).wire == s.wire
  {
  }

  // A run with its deliveries written out, one more step and, if it sent a frame, its delivery.
  lemma PromptStep(link: Link, all: seq<Step>, s: System, last: Step)
    requires InOrder(link, INITIAL, all) && Run(link, INITIAL, all) == s
    requires Deliveries(all) == |s.wire| && !last.Deliver?
    ensures var sent := |Next(link, s, last).wire| > |s.wire|;
            var more := all + [last] + if sent then [Deliver(|s.wire|)] else [];
            && InOrder(link, INITIAL, more) && Run(link, INITIAL, more) == PromptNext(link, s, last)
            && Deliveries(more) == |PromptNext(link, s, last).wire|
  {
    var s' := Next(link, s, last);
    InOrderSnoc(link, all, last);
    OneWireStep(link, s, last);
    if |s'.wire| > |s.wire| {
      InOrderSnoc(link, all + [last], Deliver(|s.wire|));
      OneWireStep(link, s', Deliver(|s.wire|));
    } else {
      assert all + [last] + [] == all + [last];
      WireGrows(link, s, last);
    }
  }

  lemma StepsFitSnoc(steps: seq<Step>, last: Step, n: nat)
    requires (forall step <- steps :: StepFits(step)) && StepFits(last)
    ensures forall step <- steps + [last] + [Deliver(n)] :: StepFits(step)
    ensures forall step <- steps + [last] + [] :: StepFits(step)
  {
  }

  lemma {:induction false} PromptIsInOrder(link: Link, steps: seq<Step>)
    requires forall step <- steps :: StepFits(step) && !step.Deliver?
    ensures var all := PromptSteps(link, steps);
            && (forall step <- all :: StepFits(step))
            && Run(link, INITIAL, all) == PromptRun(link, steps)
            && InOrder(link, INITIAL, all) && Deliveries(all) == |PromptRun(link, steps).wire|
  {
    if steps != [] {
      var before, last := steps[..|steps| - 1], steps[|steps| - 1];
      PromptIsInOrder(link, before);
      PromptStep(link, PromptSteps(link, before), PromptRun(link, before), last);
      StepsFitSnoc(PromptSteps(link, before), last, |PromptRun(link, before).wire|);
    }
  }

  lemma WireGrows(link: Link, s: System, step: Step)
    ensures |s.wire| <= |Next(link, s, step).wire|
  {
  }

  lemma InOrderSnoc(link: Link, steps: seq<Step>, step: Step)
    requires InOrder(link, INITIAL, steps)
    requires step.Deliver? ==> step.index == Deliveries(steps) < |Run(link, INITIAL, steps).wire|
    ensures InOrder(link, INITIAL, steps + [step])
    ensures Run(link, INITIAL, steps + [step]) == Next(link, Run(link, INITIAL, steps), step)
    ensures Deliveries(steps + [step]) == Deliveries(steps) + if step.Deliver? then 1 else 0
  {
    assert (steps + [step])[..|steps|] == steps;
  }

  lemma PromptIsUpToDate(link: Link, steps: seq<Step>)
    requires Faithful(link) && forall step <- steps :: StepFits(step) && !step.Deliver?
    ensures var s := PromptRun(link, steps); WireInv(link, s) && UpToDate(s.shots, s.client)
  {
    PromptIsInOrder(link, steps);
    InOrderDelivery(link, PromptSteps(link, steps));
    var s := PromptRun(link, steps);
    assert s.shots[..|s.shots|] == s.shots;
  }

  // Sent or not, an offer leaves the last frame showing it.
  lemma OfferIsLastFrame(link: Link, s: System, offer: Step)
    requires WireInv(link, s) && offer.Offer?
    ensures var shots := Next(link, s, offer).shots;
            shots != [] && shots[|shots| - 1].(capturedAt := offer.shot.capturedAt) == offer.shot
  {
    SuppressedIff(link, s.last, s.incremental, offer.shot, offer.force, offer.compression);
  }

  lemma PromptSnoc(link: Link, steps: seq<Step>, step: Step)
    ensures PromptRun(link, steps + [step]) == PromptNext(link, PromptRun(link, steps), step)
  {
    assert (steps + [step])[..|steps|] == steps;
  }

  /** After a snapshot is offered and fewer than 2^32 frames have been sent in order, the browser shows that
      snapshot (but for its capture time), whether or not the offer produced a frame. */
  lemma BrowserShowsLastOffer(link: Link, steps: seq<Step>, offer: Step)
    requires Faithful(link) && (forall step <- steps :: StepFits(step) && !step.Deliver?)
    requires offer.Offer? && StepFits(offer)
    requires |PromptRun(link, steps + [offer]).shots| < MAX32
    ensures var held := PromptRun(link, steps + [offer]).client.held;
            held.Some? && held.value.shot.(capturedAt := offer.shot.capturedAt) == offer.shot
  {
    PromptSnoc(link, steps, offer);
    PromptIsUpToDate(link, steps);
    PromptIsUpToDate(link, steps + [offer]);
    OfferIsLastFrame(link, PromptRun(link, steps), offer);
    DeliveryKeepsShots(link, PromptRun(link, steps), offer);
    LastIsShown(PromptRun(link, steps + [offer]).shots, PromptRun(link, steps + [offer]).client, offer.shot);
  }

  lemma DeliveryKeepsShots(link: Link, s: System, step: Step)
    ensures PromptNext(link, s, step).shots == Next(link, s, step).shots
  {
  }

  lemma LastIsShown(shots: seq<Snapshot>, client: Client, shot: Snapshot)
    requires 0 < |shots| < MAX32 && UpToDate(shots, client)
    requires shots[|shots| - 1].(capturedAt := shot.capturedAt) == shot
    ensures client.held.Some? && client.held.value.shot.(capturedAt := shot.capturedAt) == shot
  {
  }
}
