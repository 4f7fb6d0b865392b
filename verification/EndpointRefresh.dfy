/** The endpoint refresh (backend/services/endpoint.go): the same protocol with a single slot instead
    of a registry, and with a finish that unregisters and closes in one section. It refines
    SingleFlight. */
module EndpointRefresh {
  import opened Wrappers
  import opened SingleFlight

  const ENDPOINT: Key := "endpoint"

  datatype Refresh = Refresh(calls: map<CallId, Call>, current: Option<CallId>, callers: map<CallerId, Caller>)

  const IDLE: Refresh := Refresh(map[], None, map[])

  predicate RefreshEnabled(e: Refresh, step: Step) {
    match step
    case Arrive(w, key, id) => key == ENDPOINT && w !in e.callers && id !in e.calls
    case TimeOut(c) => c in e.calls
    case Finish(c, _) => c in e.calls && e.calls[c].stage.Working?
    case Close(c) => false
    case Release(c) => c in e.calls && e.calls[c].stage.Closed?
    case Receive(w) =>
      w in e.callers && e.callers[w].Waiting? && e.callers[w].call in e.calls
      && e.calls[e.callers[w].call].stage.Closed?
    case Abandon(w) => w in e.callers && e.callers[w].Waiting? && e.callers[w].call in e.calls
  }

  function Cleared(current: Option<CallId>, c: CallId): Option<CallId> {
    if current == Some(c) then None else current
  }

  function RefreshNext(e: Refresh, step: Step): Refresh
    requires RefreshEnabled(e, step)
  {
    match step
    case Arrive(w, key, id) =>
      var none := e.current.None? || e.current.value !in e.calls || !e.calls[e.current.value].cause.Live?;
      var calls := if none then e.calls[id := Call(ENDPOINT, 0, Live, Working)] else e.calls;
      var c := if none then id else e.current.value;
      Refresh(calls[c := calls[c].(counter := calls[c].counter + 1)], Some(c), e.callers[w := Waiting(ENDPOINT, c)])
    case TimeOut(c) => e.(calls := e.calls[c := e.calls[c].Ended(TimedOut)])
    case Finish(c, outcome) =>
      e.(calls := e.calls[c := e.calls[c].(stage := Closed(outcome))], current := Cleared(e.current, c))
    case Release(c) => e.(calls := e.calls[c := e.calls[c].Ended(Over)])
    case Receive(w) =>
      var at := e.callers[w];
      e.(callers := e.callers[w := Answered(at.key, at.call, e.calls[at.call].stage.outcome)])
    case Abandon(w) =>
      var at := e.callers[w];
      var call := e.calls[at.call].(counter := e.calls[at.call].counter - 1);
      var last := call.counter == 0;
      Refresh(e.calls[at.call := if last then call.Ended(LastLeft) else call],
              if last then Cleared(e.current, at.call) else e.current,
              e.callers[w := Left(at.key, at.call)])
  }

  predicate RefreshPossible(e: Refresh, steps: seq<Step>)
    decreases |steps|
  {
    steps == [] || (RefreshEnabled(e, steps[0]) && RefreshPossible(RefreshNext(e, steps[0]), steps[1..]))
  }

  function RefreshAfter(e: Refresh, steps: seq<Step>): Refresh
    requires RefreshPossible(e, steps)
    decreases |steps|
  {
    if steps == [] then e else RefreshAfter(RefreshNext(e, steps[0]), steps[1..])
  }

  // ---- refinement ----

  function Lift(e: Refresh): State {
    State(e.calls, if e.current.Some? then map[ENDPOINT := e.current.value] else map[], e.callers)
  }

  predicate OnlyEndpoint(e: Refresh) {
    forall c <- e.calls :: e.calls[c].key == ENDPOINT
  }

  /** The protocol steps a refresh step stands for. */
  function Expand(step: Step): seq<Step> {
    if step.Finish? then [step, Close(step.call)] else [step]
  }

  function ExpandAll(steps: seq<Step>): seq<Step> {
    if steps == [] then [] else Expand(steps[0]) + ExpandAll(steps[1..])
  }

  /** A refresh step can be taken exactly when the protocol's can; what the protocol does in a step of its
      own after finishing is part of the finish. */
  lemma EnabledIff(e: Refresh, step: Step)
    ensures RefreshEnabled(e, step) <==>
      !step.Close? && (step.Arrive? ==> step.key == ENDPOINT) && Enabled(Lift(e), step)
  {
  }

  lemma RunOfOne(s: State, step: Step)
    requires Enabled(s, step)
    ensures Possible(s, [step]) && After(s, [step]) == Next(s, step)
  {
    assert [step][1..] == [];
  }

  lemma {:induction false} RunConcat(s: State, x: seq<Step>, y: seq<Step>)
    requires Possible(s, x) && Possible(After(s, x), y)
    ensures Possible(s, x + y) && After(s, x + y) == After(After(s, x), y)
    decreases |x|
  {
    hide Enabled, Next;
    if x == [] {
      assert x + y == y;
    } else {
      assert (x + y)[1..] == x[1..] + y;
      RunConcat(Next(s, x[0]), x[1..], y);
    }
  }

  lemma RunOfTwo(s: State, x: Step, y: Step)
    requires Enabled(s, x) && Enabled(Next(s, x), y)
    ensures Possible(s, [x, y]) && After(s, [x, y]) == Next(Next(s, x), y)
  {
    hide Enabled, Next;
    RunOfOne(s, x);
    RunOfOne(Next(s, x), y);
    RunConcat(s, [x], [y]);
    assert [x] + [y] == [x, y];
  }

  lemma ArriveRefines(e: Refresh, step: Step)
    requires Sound(Lift(e)) && OnlyEndpoint(e) && RefreshEnabled(e, step) && step.Arrive?
    ensures Enabled(Lift(e), step) && Next(Lift(e), step) == Lift(RefreshNext(e, step))
    ensures OnlyEndpoint(RefreshNext(e, step))
  {
    hide CallFits, CallersFit;
    var s := Lift(e);
    assert RegistryFits(s);
    if Joins(s, ENDPOINT) {
      assert e.current.Some?;
    } else {
      assert Next(s, step).calls == RefreshNext(e, step).calls;
    }
  }

  lemma AbandonRefines(e: Refresh, step: Step)
    requires OnlyEndpoint(e) && RefreshEnabled(e, step) && step.Abandon?
    ensures Enabled(Lift(e), step) && Next(Lift(e), step) == Lift(RefreshNext(e, step))
    ensures OnlyEndpoint(RefreshNext(e, step))
  {
  }

  lemma OtherRefines(e: Refresh, step: Step)
    requires OnlyEndpoint(e) && RefreshEnabled(e, step) && (step.TimeOut? || step.Release? || step.Receive?)
    ensures Enabled(Lift(e), step) && Next(Lift(e), step) == Lift(RefreshNext(e, step))
    ensures OnlyEndpoint(RefreshNext(e, step))
  {
  }

  lemma FinishRefines(e: Refresh, step: Step)
    requires OnlyEndpoint(e) && RefreshEnabled(e, step) && step.Finish?
    ensures Enabled(Lift(e), step) && Enabled(Next(Lift(e), step), Close(step.call))
    ensures Next(Next(Lift(e), step), Close(step.call)) == Lift(RefreshNext(e, step))
    ensures OnlyEndpoint(RefreshNext(e, step))
  {
  }

  /** Every step of the refresh is a run of the protocol. */
  lemma StepRefines(e: Refresh, step: Step)
    requires Sound(Lift(e)) && OnlyEndpoint(e) && RefreshEnabled(e, step)
    ensures Possible(Lift(e), Expand(step))
    ensures After(Lift(e), Expand(step)) == Lift(RefreshNext(e, step)) && OnlyEndpoint(RefreshNext(e, step))
  {
    hide Possible, After, Sound, OnlyEndpoint, Enabled, Next, RefreshNext;
    var s := Lift(e);
    match step {
      case Arrive(_, _, _) =>
        ArriveRefines(e, step);
        RunOfOne(s, step);
      case Abandon(_) =>
        AbandonRefines(e, step);
        RunOfOne(s, step);
      case Finish(c, _) =>
        FinishRefines(e, step);
        RunOfTwo(s, step, Close(c));
      case _ =>
        OtherRefines(e, step);
        RunOfOne(s, step);
    }
  }

  /** Every run of the refresh is a run of the protocol that ends in the same state. */
  lemma {:induction false} RunRefines(e: Refresh, steps: seq<Step>)
    requires Sound(Lift(e)) && OnlyEndpoint(e) && RefreshPossible(e, steps)
    ensures Possible(Lift(e), ExpandAll(steps))
    ensures After(Lift(e), ExpandAll(steps)) == Lift(RefreshAfter(e, steps))
    decreases |steps|
  {
    hide Sound, OnlyEndpoint, RefreshEnabled, RefreshNext, Enabled, Next, Expand, Lift;
    if steps != [] {
      var next := RefreshNext(e, steps[0]);
      StepRefines(e, steps[0]);
      RunsAreSound(Lift(e), Expand(steps[0]));
      RunRefines(next, steps[1..]);
      RunConcat(Lift(e), Expand(steps[0]), ExpandAll(steps[1..]));
    }
  }

  /** On every run of the refresh, at most one refresh is at work with a live context. */
  lemma OneRefresh(steps: seq<Step>, c: CallId, d: CallId)
    requires RefreshPossible(IDLE, steps)
    requires var e := RefreshAfter(IDLE, steps);
             && c in e.calls && d in e.calls
             && e.calls[c].stage.Working? && e.calls[c].cause.Live?
             && e.calls[d].stage.Working? && e.calls[d].cause.Live?
    ensures c == d
  {
    hide RefreshPossible, RefreshAfter;
    assert Lift(IDLE) == NOBODY;
    RunRefines(IDLE, steps);
    OnlyEndpointAfter(IDLE, steps);
    OneCallPerKey(ExpandAll(steps), c, d);
  }

  lemma {:induction false} OnlyEndpointAfter(e: Refresh, steps: seq<Step>)
    requires OnlyEndpoint(e) && RefreshPossible(e, steps)
    ensures OnlyEndpoint(RefreshAfter(e, steps))
    decreases |steps|
  {
    if steps != [] {
      assert OnlyEndpoint(RefreshNext(e, steps[0]));
      OnlyEndpointAfter(RefreshNext(e, steps[0]), steps[1..]);
    }
  }

  /** On every run of the refresh, somebody who waits waits for a refresh that no departure cancelled,
      and the counter of a refresh at work is the number of those who wait for it. */
  lemma RefreshSafety(steps: seq<Step>, w: CallerId)
    requires RefreshPossible(IDLE, steps)
    requires w in RefreshAfter(IDLE, steps).callers && RefreshAfter(IDLE, steps).callers[w].Waiting?
    ensures var e := RefreshAfter(IDLE, steps);
            var c := e.callers[w].call;
            && c in e.calls && !e.calls[c].cause.LastLeft?
            && (e.calls[c].stage.Working? ==>
                e.calls[c].counter == |set v | v in e.callers && e.callers[v] == Waiting(e.calls[c].key, c)|)
  {
    hide RefreshPossible, RefreshAfter;
    assert Lift(IDLE) == NOBODY;
    RunRefines(IDLE, steps);
    WaitedCallsAreNotCancelled(ExpandAll(steps), w);
    var e := RefreshAfter(IDLE, steps);
    var c := e.callers[w].call;
    if e.calls[c].stage.Working? {
      CounterIsWaiters(ExpandAll(steps), c);
    }
  }

  // ---- how long a refresh stays current ----

  /** What ends a refresh's time as the current one: its own finish, the departure of the one caller it
      has left, or an arrival after its context has ended. */
  predicate RefreshEnds(e: Refresh, step: Step, c: CallId)
    requires c in e.calls && RefreshEnabled(e, step)
  {
    match step
    case Finish(d, _) => d == c
    case Abandon(w) => Staying(e.callers, c) == {w}
    case Arrive(_, _, _) => !e.calls[c].cause.Live?
    case _ => false
  }

  predicate NothingEndsIt(e: Refresh, steps: seq<Step>, c: CallId)
    requires RefreshPossible(e, steps)
    decreases |steps|
  {
    steps == [] ||
    (c in e.calls && !RefreshEnds(e, steps[0], c) && NothingEndsIt(RefreshNext(e, steps[0]), steps[1..], c))
  }

  lemma {:induction false} NothingEndsConcat(s: State, x: seq<Step>, y: seq<Step>, key: Key, c: CallId)
    requires Possible(s, x) && Possible(After(s, x), y)
    ensures Possible(s, x + y)
    ensures NothingEnds(s, x + y, key, c) <==> NothingEnds(s, x, key, c) && NothingEnds(After(s, x), y, key, c)
    decreases |x|
  {
    hide Enabled, Next, Ends;
    RunConcat(s, x, y);
    if x == [] {
      assert x + y == y;
    } else {
      assert (x + y)[1..] == x[1..] + y;
      NothingEndsConcat(Next(s, x[0]), x[1..], y, key, c);
    }
  }

  lemma OneEnds(s: State, step: Step, key: Key, c: CallId)
    requires Enabled(s, step)
    ensures Possible(s, [step]) && (NothingEnds(s, [step], key, c) <==> c in s.calls && !Ends(s, step, key, c))
  {
    hide Enabled, Next, Ends;
    assert [step][1..] == [];
  }

  /** A step ends it exactly when one of the protocol steps it stands for does. */
  lemma StepEnds(e: Refresh, step: Step, c: CallId)
    requires Sound(Lift(e)) && OnlyEndpoint(e) && RefreshEnabled(e, step) && c in e.calls
    ensures Possible(Lift(e), Expand(step)) && c in RefreshNext(e, step).calls
    ensures NothingEnds(Lift(e), Expand(step), ENDPOINT, c) <==> !RefreshEnds(e, step, c)
  {
    hide Possible, After, Sound, OnlyEndpoint, Enabled, NothingEnds, Staying;
    var s := Lift(e);
    match step {
      case Finish(d, _) =>
        FinishRefines(e, step);
        OneEnds(s, step, ENDPOINT, c);
        RunOfOne(s, step);
        OneEnds(Next(s, step), Close(d), ENDPOINT, c);
        NothingEndsConcat(s, [step], [Close(d)], ENDPOINT, c);
        assert [step] + [Close(d)] == Expand(step);
      case Arrive(_, _, _) =>
        ArriveRefines(e, step);
        OneEnds(s, step, ENDPOINT, c);
      case Abandon(_) =>
        AbandonRefines(e, step);
        OneEnds(s, step, ENDPOINT, c);
      case _ =>
        OtherRefines(e, step);
        OneEnds(s, step, ENDPOINT, c);
    }
  }

  lemma {:induction false} RunEnds(e: Refresh, steps: seq<Step>, c: CallId)
    requires Sound(Lift(e)) && OnlyEndpoint(e) && RefreshPossible(e, steps) && c in e.calls
    ensures Possible(Lift(e), ExpandAll(steps))
    ensures NothingEnds(Lift(e), ExpandAll(steps), ENDPOINT, c) <==> NothingEndsIt(e, steps, c)
    decreases |steps|
  {
    hide Sound, OnlyEndpoint, RefreshEnabled, RefreshNext, RefreshEnds, Enabled, Next, Ends, Expand, Lift;
    if steps != [] {
      var next := RefreshNext(e, steps[0]);
      StepRefines(e, steps[0]);
      StepEnds(e, steps[0], c);
      RunsAreSound(Lift(e), Expand(steps[0]));
      RunEnds(next, steps[1..], c);
      NothingEndsConcat(Lift(e), Expand(steps[0]), ExpandAll(steps[1..]), ENDPOINT, c);
    }
  }

  /** On every run the current refresh stays the current one exactly until it finishes, its last caller
      leaves or, its context over, an arrival replaces it. */
  lemma CurrentUntil(e: Refresh, steps: seq<Step>)
    requires Sound(Lift(e)) && OnlyEndpoint(e) && RefreshPossible(e, steps) && e.current.Some?
    ensures RefreshAfter(e, steps).current == e.current <==> NothingEndsIt(e, steps, e.current.value)
  {
    hide RefreshPossible, RefreshAfter, NothingEndsIt, Possible, After, NothingEnds;
    var c := e.current.value;
    assert Lift(e).registry[ENDPOINT] == c && c in e.calls;
    RunRefines(e, steps);
    RunEnds(e, steps, c);
    RegisteredUntil(Lift(e), ExpandAll(steps), ENDPOINT);
  }
}
