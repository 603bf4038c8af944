/** Callers that ask for the same key at the same time share one load. */
module SingleFlight {

  /** A load that runs; one whose result is known but whose flight is still listed; one that callers have been told
      of. `returnedAt` and `at` are the times of the load's return and of the closing of its flight. */
  datatype Load = Running | Returned(result: string, returnedAt: nat) | Closed(result: string, returnedAt: nat, at: nat)

  datatype Flight = Flight(key: string, load: Load)

  datatype Caller =
    | Waiting(key: string, flight: nat, began: nat)
    | Answered(key: string, flight: nat, began: nat, result: string, ended: nat)
    | Cancelled(key: string, flight: nat, began: nat)

  /** `flights` lists a flight by its key; `clock` counts the steps taken, for statements about order only. */
  datatype State = State(flights: map<string, nat>, loads: seq<Flight>, callers: map<nat, Caller>, clock: nat)

  /** One atomic step; a caller is named by a number that is used once, and Tick is anything else that happens. */
  datatype Event =
    | Begin(caller: nat, key: string)
    | LoadReturns(flight: nat, result: string)
    | Finish(flight: nat)
    | Cancel(caller: nat)
    | Wake(caller: nat)
    | Tick

  predicate Enabled(s: State, e: Event) {
    match e
    case Begin(caller, _) => caller !in s.callers
    case LoadReturns(flight, _) => flight < |s.loads| && s.loads[flight].load.Running?
    case Finish(flight) => flight < |s.loads| && s.loads[flight].load.Returned?
    case Cancel(caller) => caller in s.callers && s.callers[caller].Waiting?
    case Wake(caller) =>
      && caller in s.callers && s.callers[caller].Waiting?
      && s.callers[caller].flight < |s.loads| && s.loads[s.callers[caller].flight].load.Closed?
    case Tick => true
  }

  function Next(s: State, e: Event): State
    requires Enabled(s, e)
  {
    var t := s.(clock := s.clock + 1);
    match e
    case Begin(caller, key) =>
      if key in s.flights then t.(callers := s.callers[caller := Waiting(key, s.flights[key], s.clock)])
      else t.(flights := s.flights[key := |s.loads|], loads := s.loads + [Flight(key, Running)],
              callers := s.callers[caller := Waiting(key, |s.loads|, s.clock)])
    case LoadReturns(flight, result) =>
      t.(loads := s.loads[flight := s.loads[flight].(load := Returned(result, s.clock))])
    case Finish(flight) =>
      var f := s.loads[flight];
      t.(flights := if f.key in s.flights && s.flights[f.key] == flight then s.flights - {f.key} else s.flights,
         loads := s.loads[flight := f.(load := Closed(f.load.result, f.load.returnedAt, s.clock))])
    case Cancel(caller) =>
      var c := s.callers[caller];
      t.(callers := s.callers[caller := Cancelled(c.key, c.flight, c.began)])
    case Wake(caller) =>
      var c := s.callers[caller];
      t.(callers := s.callers[caller := Answered(c.key, c.flight, c.began, s.loads[c.flight].load.result, s.clock)])
    case Tick => t
  }

  ghost predicate Listed(s: State, f: nat)
    requires f < |s.loads|
  {
    s.loads[f].key in s.flights && s.flights[s.loads[f].key] == f
  }

  ghost predicate CallerOk(s: State, c: Caller) {
    && c.flight < |s.loads| && s.loads[c.flight].key == c.key && c.began < s.clock
    && (s.loads[c.flight].load.Closed? ==> c.began < s.loads[c.flight].load.at < s.clock)
    && (c.Answered? ==> s.loads[c.flight].load.Closed? && c.result == s.loads[c.flight].load.result
                        && s.loads[c.flight].load.at < c.ended < s.clock)
  }

  /** A key is listed exactly while a flight for it is open, and every caller belongs to a flight for its key that
      was open when it began. */
  ghost predicate Safe(s: State) {
    && (forall key <- s.flights :: s.flights[key] < |s.loads| && s.loads[s.flights[key]].key == key)
    && (forall f :: 0 <= f < |s.loads| ==> (Listed(s, f) <==> !s.loads[f].load.Closed?))
    && (forall f :: 0 <= f < |s.loads| && !s.loads[f].load.Running? ==> s.loads[f].load.returnedAt < s.clock)
    && (forall c <- s.callers :: CallerOk(s, s.callers[c]))
  }

  class Group {
    var flights: map<string, nat>
    var loads: seq<Flight>
    var callers: map<nat, Caller>
    var clock: nat

    ghost function Now(): State
      reads this
    {
      State(flights, loads, callers, clock)
    }

    constructor ()
      ensures Now() == State(map[], [], map[], 0) && Safe(Now())
    {
      flights, loads, callers, clock := map[], [], map[], 0;
    }

    // Join the flight that is listed, or list a new one and start its load; all under the lock.
    method Begin(caller: nat, key: string)
      requires caller !in callers
      modifies this
      ensures Now() == Next(old(Now()), Event.Begin(caller, key))
    {
      if key in flights {
        callers := callers[caller := Waiting(key, flights[key], clock)];
      } else {
        var flight := |loads|;
        loads := loads + [Flight(key, Running)];
        flights := flights[key := flight];
        callers := callers[caller := Waiting(key, flight, clock)];
      }
      clock := clock + 1;
    }

    method LoadReturns(flight: nat, result: string)
      requires flight < |loads| && loads[flight].load.Running?
      modifies this
      ensures Now() == Next(old(Now()), Event.LoadReturns(flight, result))
    {
      loads := loads[flight := loads[flight].(load := Returned(result, clock))];
      clock := clock + 1;
    }

    // The flight is removed if it is still the listed one, then its channel is closed; all under the lock.
    method Finish(flight: nat)
      requires flight < |loads| && loads[flight].load.Returned?
      modifies this
      ensures Now() == Next(old(Now()), Event.Finish(flight))
    {
      var key := loads[flight].key;
      if key in flights && flights[key] == flight {
        flights := flights - {key};
      }
      var load := loads[flight].load;
      loads := loads[flight := loads[flight].(load := Closed(load.result, load.returnedAt, clock))];
      clock := clock + 1;
    }

    method Cancel(caller: nat)
      requires caller in callers && callers[caller].Waiting?
      modifies this
      ensures Now() == Next(old(Now()), Event.Cancel(caller))
    {
      var c := callers[caller];
      callers := callers[caller := Cancelled(c.key, c.flight, c.began)];
      clock := clock + 1;
    }

    method Wake(caller: nat) returns (result: string)
      requires caller in callers && callers[caller].Waiting?
      requires callers[caller].flight < |loads| && loads[callers[caller].flight].load.Closed?
      modifies this
      ensures Now() == Next(old(Now()), Event.Wake(caller))
      ensures callers[caller].Answered? && result == callers[caller].result
    {
      var c := callers[caller];
      result := loads[c.flight].load.result;
      callers := callers[caller := Answered(c.key, c.flight, c.began, result, clock)];
      clock := clock + 1;
    }
  }

  // --------------------------------------------------------------- all runs

  const INITIAL := State(map[], [], map[], 0)

  lemma BeginIsSafe(s: State, caller: nat, key: string)
    requires Safe(s) && caller !in s.callers
    ensures Safe(Next(s, Begin(caller, key)))
  {
    var t := Next(s, Begin(caller, key));
    forall f | 0 <= f < |t.loads| ensures Listed(t, f) <==> !t.loads[f].load.Closed? {
      if f < |s.loads| { assert Listed(s, f) <==> !s.loads[f].load.Closed?; }
    }
    if key in s.flights { assert Listed(s, s.flights[key]); }
    forall c | c in s.callers ensures CallerOk(t, t.callers[c]) { assert CallerOk(s, s.callers[c]); }
  }

  // A step that changes one load.
  lemma LoadIsSafe(s: State, e: Event, flight: nat)
    requires Safe(s) && Enabled(s, e) && (e.LoadReturns? || e.Finish?) && flight == e.flight
    ensures Safe(Next(s, e))
  {
    var t := Next(s, e);
    forall f | 0 <= f < |t.loads| ensures Listed(t, f) <==> !t.loads[f].load.Closed? {
      assert Listed(s, f) <==> !s.loads[f].load.Closed?;
    }
    forall c | c in t.callers ensures CallerOk(t, t.callers[c]) { assert CallerOk(s, s.callers[c]); }
  }

  // A step that changes one caller.
  lemma CallerIsSafe(s: State, e: Event, caller: nat)
    requires Safe(s) && Enabled(s, e) && (e.Cancel? || e.Wake?) && caller == e.caller
    ensures Safe(Next(s, e))
  {
    var t := Next(s, e);
    forall f | 0 <= f < |t.loads| ensures Listed(t, f) <==> !t.loads[f].load.Closed? {
      assert Listed(s, f) <==> !s.loads[f].load.Closed?;
    }
    forall c | c in t.callers ensures CallerOk(t, t.callers[c]) { assert CallerOk(s, s.callers[c]); }
  }

  lemma StepIsSafe(s: State, e: Event)
    requires Safe(s) && Enabled(s, e)
    ensures Safe(Next(s, e))
  {
    match e
    case Begin(caller, key) => BeginIsSafe(s, caller, key);
    case LoadReturns(flight, result) => LoadIsSafe(s, e, flight);
    case Finish(flight) => LoadIsSafe(s, e, flight);
    case Cancel(caller) => CallerIsSafe(s, e, caller);
    case Wake(caller) => CallerIsSafe(s, e, caller);
    case Tick => forall c | c in s.callers ensures CallerOk(Next(s, e), s.callers[c]) {
        assert CallerOk(s, s.callers[c]);
      }
  }

  /** The events can happen one after the other from this state. */
  predicate Possible(s: State, es: seq<Event>)
    decreases |es|
  {
    es == [] || (Enabled(s, es[0]) && Possible(Next(s, es[0]), es[1..]))
  }

  function After(s: State, es: seq<Event>): State
    requires Possible(s, es)
    decreases |es|
  {
    if es == [] then s else After(Next(s, es[0]), es[1..])
  }

  lemma {:induction false} EveryRunIsSafe(s: State, es: seq<Event>)
    requires Safe(s) && Possible(s, es)
    ensures Safe(After(s, es))
    decreases |es|
  {
    if es != [] {
      StepIsSafe(s, es[0]);
      EveryRunIsSafe(Next(s, es[0]), es[1..]);
    }
  }

  /** However calls, loads, completions and cancellations interleave, two loads for one key never overlap. */
  lemma OneOpenLoadPerKey(es: seq<Event>, f: nat, g: nat)
    requires Possible(INITIAL, es)
    requires var loads := After(INITIAL, es).loads;
      f < |loads| && g < |loads| && loads[f].key == loads[g].key && !loads[f].load.Closed? && !loads[g].load.Closed?
    ensures f == g
  {
    EveryRunIsSafe(INITIAL, es);
    var s := After(INITIAL, es);
    assert Listed(s, f) && Listed(s, g);
  }

  /** An answered call has the result of a load for its own key, whose flight closed after the call began and before
      it was answered: nobody is given a flight that was over when they asked. */
  lemma AnswersAreOwnAndFresh(es: seq<Event>, caller: nat)
    requires Possible(INITIAL, es)
    requires caller in After(INITIAL, es).callers && After(INITIAL, es).callers[caller].Answered?
    ensures var (s, c) := (After(INITIAL, es), After(INITIAL, es).callers[caller]);
      && c.flight < |s.loads| && s.loads[c.flight].key == c.key && s.loads[c.flight].load.Closed?
      && c.result == s.loads[c.flight].load.result
      && c.began < s.loads[c.flight].load.at < c.ended
  {
    EveryRunIsSafe(INITIAL, es);
    assert CallerOk(After(INITIAL, es), After(INITIAL, es).callers[caller]);
  }

  lemma RunCons(s: State, e: Event, es: seq<Event>)
    requires Enabled(s, e) && Possible(Next(s, e), es)
    ensures Possible(s, [e] + es) && After(s, [e] + es) == After(Next(s, e), es)
  {
    assert ([e] + es)[1..] == es;
  }

  /** It may be older than the call: one that begins between the return of the load and the closing of its
      flight is given a result computed before it asked. */
  lemma AnswerMayPredateTheCall(key: string, result: string)
    ensures var es := [Begin(0, key), LoadReturns(0, result), Begin(1, key), Finish(0), Wake(1)];
      Possible(INITIAL, es) && 1 in After(INITIAL, es).callers
      && After(INITIAL, es).callers[1] == Answered(key, 0, 2, result, 4)
  {
    var s1 := Next(INITIAL, Begin(0, key));
    var s2 := Next(s1, LoadReturns(0, result));
    var s3 := Next(s2, Begin(1, key));
    var s4 := Next(s3, Finish(0));
    RunCons(s4, Wake(1), []);
    RunCons(s3, Finish(0), [Wake(1)]);
    RunCons(s2, Begin(1, key), [Finish(0), Wake(1)]);
    RunCons(s1, LoadReturns(0, result), [Begin(1, key), Finish(0), Wake(1)]);
    RunCons(INITIAL, Begin(0, key), [LoadReturns(0, result), Begin(1, key), Finish(0), Wake(1)]);
  }

  // How a load and the caller that is to have its result stand, given whether it had returned at the call.
  ghost predicate Tracks(s: State, caller: nat, flight: nat, began: nat, early: bool) {
    && flight < |s.loads| && began < s.clock
    && (if s.loads[flight].load.Running? then !early else s.loads[flight].load.returnedAt < began <==> early)
    && caller in s.callers && s.callers[caller].flight == flight && s.callers[caller].began == began
  }

  lemma StepTracks(s: State, e: Event, caller: nat, flight: nat, began: nat, early: bool)
    requires Tracks(s, caller, flight, began, early) && Enabled(s, e)
    ensures Tracks(Next(s, e), caller, flight, began, early)
  {
  }

  lemma {:induction false} RunTracks(s: State, es: seq<Event>, caller: nat, flight: nat, began: nat, early: bool)
    requires Tracks(s, caller, flight, began, early) && Possible(s, es)
    ensures Tracks(After(s, es), caller, flight, began, early)
    decreases |es|
  {
    if es != [] {
      StepTracks(s, es[0], caller, flight, began, early);
      RunTracks(Next(s, es[0]), es[1..], caller, flight, began, early);
    }
  }

  lemma {:induction false} RunSplit(s: State, es: seq<Event>, more: seq<Event>)
    requires Possible(s, es + more)
    ensures Possible(s, es) && Possible(After(s, es), more) && After(s, es + more) == After(After(s, es), more)
    decreases |es|
  {
    if es == [] {
      assert es + more == more;
    } else {
      assert (es + more)[1..] == es[1..] + more;
      RunSplit(Next(s, es[0]), es[1..], more);
    }
  }

  lemma BeginTracks(s: State, caller: nat, key: string)
    requires Safe(s) && Enabled(s, Begin(caller, key))
    ensures var t := Next(s, Begin(caller, key));
      var c := t.callers[caller];
      Tracks(t, caller, c.flight, c.began, key in s.flights && s.loads[s.flights[key]].load.Returned?)
  {
    if key in s.flights { assert Listed(s, s.flights[key]); }
  }

  /** In every run, the load whose result a caller is given had returned before the call began if and only if, when it
      began, its key was listed with a flight whose load had returned. */
  lemma AnswerPredatesTheCallIff(before: seq<Event>, caller: nat, key: string, after: seq<Event>)
    requires Possible(INITIAL, before + [Begin(caller, key)] + after)
    requires var s := After(INITIAL, before + [Begin(caller, key)] + after);
      caller in s.callers && s.callers[caller].Answered?
    ensures Possible(INITIAL, before)
    ensures var s, t := After(INITIAL, before + [Begin(caller, key)] + after), After(INITIAL, before);
      var c := s.callers[caller];
      && c.flight < |s.loads| && s.loads[c.flight].load.Closed? && c.result == s.loads[c.flight].load.result
      && (s.loads[c.flight].load.returnedAt < c.began
          <==> key in t.flights && t.flights[key] < |t.loads| && t.loads[t.flights[key]].load.Returned?)
  {
    RunSplit(INITIAL, before + [Begin(caller, key)], after);
    RunSplit(INITIAL, before, [Begin(caller, key)]);
    var t := After(INITIAL, before);
    var u := Next(t, Begin(caller, key));
    assert [Begin(caller, key)][1..] == [];
    EveryRunIsSafe(INITIAL, before);
    BeginTracks(t, caller, key);
    var early := key in t.flights && t.loads[t.flights[key]].load.Returned?;
    RunTracks(u, after, caller, u.callers[caller].flight, u.callers[caller].began, early);
    AnswersAreOwnAndFresh(before + [Begin(caller, key)] + after, caller);
  }

  // ------------------------------------------------------------ cancellation

  /** The same but for what one caller has. */
  function Others(callers: map<nat, Caller>, caller: nat): map<nat, Caller> {
    callers - {caller}
  }

  ghost predicate SameButFor(caller: nat, s: State, t: State) {
    && s.flights == t.flights && s.loads == t.loads && s.clock == t.clock
    && caller in s.callers && caller in t.callers && Others(s.callers, caller) == Others(t.callers, caller)
  }

  lemma SameForOthers(caller: nat, s: State, t: State, other: nat)
    requires SameButFor(caller, s, t) && other != caller
    ensures other in s.callers <==> other in t.callers
    ensures other in s.callers ==> s.callers[other] == t.callers[other]
  {
    assert other in s.callers <==> other in Others(s.callers, caller);
    assert other in t.callers <==> other in Others(t.callers, caller);
  }

  lemma StepForOthers(caller: nat, s: State, t: State, e: Event)
    requires SameButFor(caller, s, t) && s.callers[caller].Cancelled? && Enabled(s, e)
    ensures Enabled(t, e) && SameButFor(caller, Next(s, e), Next(t, e)) && Next(s, e).callers[caller].Cancelled?
  {
    if e.Begin? || e.Cancel? || e.Wake? {
      SameForOthers(caller, s, t, e.caller);
      var a, b := Next(s, e).callers, Next(t, e).callers;
      assert Others(a, caller) == Others(s.callers, caller)[e.caller := a[e.caller]];
      assert Others(b, caller) == Others(t.callers, caller)[e.caller := b[e.caller]];
    }
  }

  lemma {:induction false} RunForOthers(caller: nat, s: State, t: State, es: seq<Event>)
    requires SameButFor(caller, s, t) && s.callers[caller].Cancelled? && Possible(s, es)
    ensures Possible(t, es) && SameButFor(caller, After(s, es), After(t, es))
    decreases |es|
  {
    if es != [] {
      StepForOthers(caller, s, t, es[0]);
      RunForOthers(caller, Next(s, es[0]), Next(t, es[0]), es[1..]);
    }
  }

  /** A cancellation is nobody else's business: had the caller gone on waiting instead, every load would have run,
      every flight closed and every other caller been answered just the same and at the same time. */
  lemma CancelConcernsNobodyElse(s: State, caller: nat, es: seq<Event>)
    requires Possible(s, [Cancel(caller)] + es)
    ensures Possible(s, [Tick] + es)
    ensures SameButFor(caller, After(s, [Cancel(caller)] + es), After(s, [Tick] + es))
  {
    assert ([Cancel(caller)] + es)[1..] == es && ([Tick] + es)[1..] == es;
    var a, b := Next(s, Cancel(caller)), Next(s, Tick);
    assert Others(a.callers, caller) == Others(b.callers, caller);
    RunForOthers(caller, a, b, es);
  }

  // ---------------------------------------------------------------- progress

  // What still has to happen before a waiting caller can be answered.
  function Remaining(load: Load, flight: nat, result: string): seq<Event> {
    match load
    case Running => [LoadReturns(flight, result), Finish(flight)]
    case Returned(_, _) => [Finish(flight)]
    case Closed(_, _, _) => []
  }

  /** A caller that has not been cancelled is answered once its load has returned and its flight has been closed,
      with what that load returned. */
  lemma WaiterIsAnswered(es: seq<Event>, caller: nat, result: string)
    requires Possible(INITIAL, es)
    requires caller in After(INITIAL, es).callers && After(INITIAL, es).callers[caller].Waiting?
    ensures var s := After(INITIAL, es);
      var f := s.callers[caller].flight;
      f < |s.loads| && AnsweredBy(s, Remaining(s.loads[f].load, f, result) + [Wake(caller)], caller,
        if s.loads[f].load.Running? then result else s.loads[f].load.result)
  {
    EveryRunIsSafe(INITIAL, es);
    var s := After(INITIAL, es);
    assert CallerOk(s, s.callers[caller]);
    var f := s.callers[caller].flight;
    match s.loads[f].load
    case Running =>
      var t := Next(s, LoadReturns(f, result));
      RunCons(Next(t, Finish(f)), Wake(caller), []);
      RunCons(t, Finish(f), [Wake(caller)]);
      RunCons(s, LoadReturns(f, result), [Finish(f), Wake(caller)]);
    case Returned(_, _) =>
      RunCons(Next(s, Finish(f)), Wake(caller), []);
      RunCons(s, Finish(f), [Wake(caller)]);
    case Closed(_, _, _) =>
      RunCons(s, Wake(caller), []);
  }

  predicate AnsweredBy(s: State, es: seq<Event>, caller: nat, result: string) {
    && Possible(s, es)
    && caller in After(s, es).callers
    && After(s, es).callers[caller].Answered?
    && After(s, es).callers[caller].result == result
  }
}
