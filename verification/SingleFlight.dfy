/** Sharing one piece of work between the callers that ask for the same key: the audio calls of
    backend/services/tts_cache.go and the endpoint refresh of backend/services/endpoint.go, as a
    state machine with one step per mutex section or channel operation. */
module SingleFlight {
  type Key = string
  type CallId = nat
  type CallerId = nat
  type Outcome = string

  /** Why the context of a call has ended: its timeout, the departure of its last caller, or the
      owner's cancel after the work was over. A context keeps its first cause. */
  datatype Cause = Live | TimedOut | LastLeft | Over

  datatype Stage = Working | Unregistered(outcome: Outcome) | Closed(outcome: Outcome)

  datatype Call = Call(key: Key, counter: int, cause: Cause, stage: Stage) {
    function Ended(why: Cause): Call {
      if cause.Live? then this.(cause := why) else this
    }
  }

  datatype Caller =
    | Waiting(key: Key, call: CallId)
    | Answered(key: Key, call: CallId, outcome: Outcome)
    | Left(key: Key, call: CallId)

  datatype State = State(calls: map<CallId, Call>, registry: map<Key, CallId>, callers: map<CallerId, Caller>)

  const NOBODY: State := State(map[], map[], map[])

  datatype Step =
    | Arrive(caller: CallerId, key: Key, id: CallId)
    | TimeOut(call: CallId)
    | Finish(call: CallId, outcome: Outcome)
    | Close(call: CallId)
    | Release(call: CallId)
    | Receive(caller: CallerId)
    | Abandon(caller: CallerId)

  predicate Enabled(s: State, step: Step) {
    match step
    case Arrive(w, _, id) => w !in s.callers && id !in s.calls
    case TimeOut(c) => c in s.calls
    case Finish(c, _) => c in s.calls && s.calls[c].stage.Working?
    case Close(c) => c in s.calls && s.calls[c].stage.Unregistered?
    case Release(c) => c in s.calls && s.calls[c].stage.Closed?
    case Receive(w) =>
      w in s.callers && s.callers[w].Waiting? && s.callers[w].call in s.calls
      && s.calls[s.callers[w].call].stage.Closed?
    case Abandon(w) => w in s.callers && s.callers[w].Waiting? && s.callers[w].call in s.calls
  }

  function Deregistered(registry: map<Key, CallId>, key: Key, c: CallId): map<Key, CallId> {
    if key in registry && registry[key] == c then registry - {key} else registry
  }

  /** A caller joins a registered call whose context is live, and otherwise starts a new one. */
  predicate Joins(s: State, key: Key) {
    key in s.registry && s.registry[key] in s.calls && s.calls[s.registry[key]].cause.Live?
  }

  function Next(s: State, step: Step): State
    requires Enabled(s, step)
  {
    match step
    case Arrive(w, key, id) =>
      if Joins(s, key) then
        var c := s.registry[key];
        s.(calls := s.calls[c := s.calls[c].(counter := s.calls[c].counter + 1)],
           callers := s.callers[w := Waiting(key, c)])
      else
        State(s.calls[id := Call(key, 1, Live, Working)], s.registry[key := id],
              s.callers[w := Waiting(key, id)])
    case TimeOut(c) => s.(calls := s.calls[c := s.calls[c].Ended(TimedOut)])
    case Finish(c, outcome) =>
      s.(calls := s.calls[c := s.calls[c].(stage := Unregistered(outcome))],
         registry := Deregistered(s.registry, s.calls[c].key, c))
    case Close(c) => s.(calls := s.calls[c := s.calls[c].(stage := Closed(s.calls[c].stage.outcome))])
    case Release(c) => s.(calls := s.calls[c := s.calls[c].Ended(Over)])
    case Receive(w) =>
      var at := s.callers[w];
      s.(callers := s.callers[w := Answered(at.key, at.call, s.calls[at.call].stage.outcome)])
    case Abandon(w) =>
      var at := s.callers[w];
      var call := s.calls[at.call].(counter := s.calls[at.call].counter - 1);
      var gone := s.(callers := s.callers[w := Left(at.key, at.call)]);
      if call.counter == 0 then
        gone.(calls := s.calls[at.call := call.Ended(LastLeft)],
              registry := Deregistered(s.registry, call.key, at.call))
      else gone.(calls := s.calls[at.call := call])
  }

  // ---- runs ----

  predicate Possible(s: State, steps: seq<Step>)
    decreases |steps|
  {
    steps == [] || (Enabled(s, steps[0]) && Possible(Next(s, steps[0]), steps[1..]))
  }

  function After(s: State, steps: seq<Step>): State
    requires Possible(s, steps)
    decreases |steps|
  {
    if steps == [] then s else After(Next(s, steps[0]), steps[1..])
  }

  // ---- the invariant ----

  /** The callers of a call that have not left it. */
  function Staying(callers: map<CallerId, Caller>, c: CallId): set<CallerId> {
    set w | w in callers && callers[w].call == c && !callers[w].Left?
  }

  predicate RegistryFits(s: State) {
    forall key <- s.registry ::
      s.registry[key] in s.calls && s.calls[s.registry[key]].key == key && s.calls[s.registry[key]].stage.Working?
  }

  predicate CallersFit(s: State) {
    forall w <- s.callers ::
      && s.callers[w].call in s.calls && s.calls[s.callers[w].call].key == s.callers[w].key
      && (s.callers[w].Answered? ==> s.calls[s.callers[w].call].stage == Closed(s.callers[w].outcome))
  }

  predicate CallFits(s: State, c: CallId)
    requires c in s.calls
  {
    var call := s.calls[c];
    var registered := call.key in s.registry && s.registry[call.key] == c;
    && call.counter == |Staying(s.callers, c)|
    && (call.stage.Working? && call.cause.Live? ==> registered)
    && (call.cause.LastLeft? ==> call.counter == 0)
    && (call.counter == 0 ==> !call.cause.Live? && !registered)
    && (call.cause.Over? ==> call.stage.Closed?)
  }

  predicate Sound(s: State) {
    RegistryFits(s) && CallersFit(s) && forall c <- s.calls :: CallFits(s, c)
  }

  lemma OneMoreStaying(s: State, t: State, c: CallId, w: CallerId, key: Key)
    requires w !in s.callers && t.callers == s.callers[w := Waiting(key, c)]
    ensures |Staying(t.callers, c)| == |Staying(s.callers, c)| + 1
    ensures forall d :: d != c ==> Staying(t.callers, d) == Staying(s.callers, d)
  {
    assert Staying(t.callers, c) == Staying(s.callers, c) + {w};
    forall d | d != c
      ensures Staying(t.callers, d) == Staying(s.callers, d)
    {
    }
  }

  lemma OneFewerStaying(s: State, t: State, w: CallerId)
    requires w in s.callers && s.callers[w].Waiting?
    requires t.callers == s.callers[w := Left(s.callers[w].key, s.callers[w].call)]
    ensures |Staying(t.callers, s.callers[w].call)| == |Staying(s.callers, s.callers[w].call)| - 1
    ensures forall d :: d != s.callers[w].call ==> Staying(t.callers, d) == Staying(s.callers, d)
  {
    var c := s.callers[w].call;
    assert w in Staying(s.callers, c);
    assert Staying(t.callers, c) == Staying(s.callers, c) - {w};
    forall d | d != c
      ensures Staying(t.callers, d) == Staying(s.callers, d)
    {
    }
  }

  lemma ArriveKeepsSound(s: State, w: CallerId, key: Key, id: CallId)
    requires Sound(s) && Enabled(s, Arrive(w, key, id))
    ensures Sound(Next(s, Arrive(w, key, id)))
  {
    hide Staying;
    var t := Next(s, Arrive(w, key, id));
    var c := if Joins(s, key) then s.registry[key] else id;
    OneMoreStaying(s, t, c, w, key);
    if !Joins(s, key) {
      NobodyYet(s, id);
    }
    assert RegistryFits(t) && CallersFit(t);
    hide RegistryFits, CallersFit;
    forall d <- t.calls
      ensures CallFits(t, d)
    {
      if d != id || Joins(s, key) {
        assert CallFits(s, d);
      }
    }
  }

  lemma NobodyYet(s: State, id: CallId)
    requires CallersFit(s) && id !in s.calls
    ensures |Staying(s.callers, id)| == 0
  {
    assert Staying(s.callers, id) == {};
  }

  lemma AbandonFits(s: State, w: CallerId)
    requires Sound(s) && Enabled(s, Abandon(w))
    ensures RegistryFits(Next(s, Abandon(w))) && CallersFit(Next(s, Abandon(w)))
  {
    hide Staying, CallFits;
  }

  lemma AbandonKeepsSound(s: State, w: CallerId)
    requires Sound(s) && Enabled(s, Abandon(w))
    ensures Sound(Next(s, Abandon(w)))
  {
    hide Staying, RegistryFits, CallersFit;
    var t := Next(s, Abandon(w));
    OneFewerStaying(s, t, w);
    AbandonFits(s, w);
    forall d <- t.calls
      ensures CallFits(t, d)
    {
      assert CallFits(s, d);
    }
  }

  lemma ReceiveKeepsSound(s: State, w: CallerId)
    requires Sound(s) && Enabled(s, Receive(w))
    ensures Sound(Next(s, Receive(w)))
  {
    hide CallFits;
    var t := Next(s, Receive(w));
    forall d <- t.calls
      ensures CallFits(t, d)
    {
      assert Staying(t.callers, d) == Staying(s.callers, d);
      SameCall(s, t, d);
    }
  }

  lemma SameCall(s: State, t: State, d: CallId)
    requires d in s.calls && d in t.calls && s.calls[d] == t.calls[d] && s.registry == t.registry
    requires CallFits(s, d) && Staying(t.callers, d) == Staying(s.callers, d)
    ensures CallFits(t, d)
  {
  }

  /** The steps of the work itself: the callers stay where they are. */
  lemma WorkKeepsSound(s: State, c: CallId, step: Step)
    requires Sound(s) && Enabled(s, step)
    requires step == TimeOut(c) || (step.Finish? && step.call == c) || step == Close(c) || step == Release(c)
    ensures Sound(Next(s, step))
  {
    hide Staying;
    var t := Next(s, step);
    assert RegistryFits(t) && CallersFit(t);
    hide RegistryFits, CallersFit;
    forall d <- t.calls
      ensures CallFits(t, d)
    {
      assert CallFits(s, d);
    }
  }

  lemma NextKeepsSound(s: State, step: Step)
    requires Sound(s) && Enabled(s, step)
    ensures Sound(Next(s, step))
  {
    hide Sound, Next;
    match step {
      case Arrive(w, key, id) => ArriveKeepsSound(s, w, key, id);
      case Abandon(w) => AbandonKeepsSound(s, w);
      case Receive(w) => ReceiveKeepsSound(s, w);
      case TimeOut(c) => WorkKeepsSound(s, c, step);
      case Finish(c, _) => WorkKeepsSound(s, c, step);
      case Close(c) => WorkKeepsSound(s, c, step);
      case Release(c) => WorkKeepsSound(s, c, step);
    }
  }

  /** The invariant holds after every interleaving of steps. */
  lemma {:induction false} RunsAreSound(s: State, steps: seq<Step>)
    requires Sound(s) && Possible(s, steps)
    ensures Sound(After(s, steps))
    decreases |steps|
  {
    hide Sound, Enabled, Next;
    if steps != [] {
      NextKeepsSound(s, steps[0]);
      RunsAreSound(Next(s, steps[0]), steps[1..]);
    }
  }

  // ---- what it gives, on every run ----

  /** Two calls for one key are never both at work with a live context. */
  lemma OneCallPerKey(steps: seq<Step>, c: CallId, d: CallId)
    requires Possible(NOBODY, steps)
    requires var s := After(NOBODY, steps);
             && c in s.calls && d in s.calls && s.calls[c].key == s.calls[d].key
             && s.calls[c].stage.Working? && s.calls[c].cause.Live?
             && s.calls[d].stage.Working? && s.calls[d].cause.Live?
    ensures c == d
  {
    RunsAreSound(NOBODY, steps);
    var s := After(NOBODY, steps);
    assert CallFits(s, c) && CallFits(s, d);
  }

  /** The counter of a call that is not closed is the number of callers waiting for it. */
  lemma CounterIsWaiters(steps: seq<Step>, c: CallId)
    requires Possible(NOBODY, steps)
    requires c in After(NOBODY, steps).calls && !After(NOBODY, steps).calls[c].stage.Closed?
    ensures var s := After(NOBODY, steps);
            s.calls[c].counter == |set w | w in s.callers && s.callers[w] == Waiting(s.calls[c].key, c)|
  {
    RunsAreSound(NOBODY, steps);
    var s := After(NOBODY, steps);
    assert CallFits(s, c);
    assert Staying(s.callers, c) == set w | w in s.callers && s.callers[w] == Waiting(s.calls[c].key, c);
  }

  /** While somebody waits for a call, no departure has cancelled it; and while it is at work, only
      its timeout can have. */
  lemma WaitedCallsAreNotCancelled(steps: seq<Step>, w: CallerId)
    requires Possible(NOBODY, steps)
    requires w in After(NOBODY, steps).callers && After(NOBODY, steps).callers[w].Waiting?
    ensures var s := After(NOBODY, steps);
            var c := s.callers[w].call;
            && c in s.calls && !s.calls[c].cause.LastLeft?
            && (s.calls[c].stage.Working? ==>
                s.calls[c].cause.TimedOut? || (s.calls[c].key in s.registry && s.registry[s.calls[c].key] == c))
  {
    RunsAreSound(NOBODY, steps);
    var s := After(NOBODY, steps);
    var c := s.callers[w].call;
    assert CallFits(s, c);
    assert w in Staying(s.callers, c);
  }

  /** A call that everybody left is cancelled and can no longer be joined. */
  lemma DesertedCallsAreCancelled(steps: seq<Step>, c: CallId)
    requires Possible(NOBODY, steps)
    requires c in After(NOBODY, steps).calls
    requires forall w <- After(NOBODY, steps).callers ::
               After(NOBODY, steps).callers[w].call == c ==> After(NOBODY, steps).callers[w].Left?
    ensures var s := After(NOBODY, steps);
            !s.calls[c].cause.Live? && forall key <- s.registry :: s.registry[key] != c
  {
    RunsAreSound(NOBODY, steps);
    var s := After(NOBODY, steps);
    assert CallFits(s, c);
    assert Staying(s.callers, c) == {};
  }

  /** The cleanup of a call, and the departure of its last caller, leave every other call registered. */
  lemma CleanupSparesOthers(s: State, step: Step, key: Key)
    requires Sound(s) && Enabled(s, step) && key in s.registry
    requires match step
             case Finish(c, _) => s.registry[key] != c
             case Abandon(w) => s.registry[key] != s.callers[w].call
             case _ => false
    ensures key in Next(s, step).registry && Next(s, step).registry[key] == s.registry[key]
  {
  }

  predicate Registered(s: State, key: Key, c: CallId) {
    key in s.registry && s.registry[key] == c
  }

  /** What ends a call's registration: its own finish, the departure of the one caller it has left, or
      an arrival for its key after its context has ended. */
  predicate Ends(s: State, step: Step, key: Key, c: CallId)
    requires c in s.calls && Enabled(s, step)
  {
    match step
    case Finish(d, _) => d == c
    case Abandon(w) => Staying(s.callers, c) == {w}
    case Arrive(_, k, _) => k == key && !s.calls[c].cause.Live?
    case _ => false
  }

  lemma OneStays(s: State, w: CallerId, c: CallId)
    requires Sound(s) && c in s.calls && Enabled(s, Abandon(w))
    ensures Staying(s.callers, c) == {w} <==> s.callers[w].call == c && s.calls[c].counter == 1
  {
    assert CallFits(s, c);
    assert s.callers[w].call == c <==> w in Staying(s.callers, c);
    if s.calls[c].counter == 1 && w in Staying(s.callers, c) {
      assert |Staying(s.callers, c) - {w}| == 0;
    }
  }

  lemma StepKeepsRegistration(s: State, step: Step, key: Key, c: CallId)
    requires Sound(s) && Enabled(s, step) && Registered(s, key, c) && c in s.calls
    ensures c in Next(s, step).calls
    ensures Registered(Next(s, step), key, c) <==> !Ends(s, step, key, c)
  {
    hide CallFits, Staying;
    if step.Abandon? {
      OneStays(s, step.caller, c);
    }
  }

  lemma StepNeverRegistersAgain(s: State, step: Step, key: Key, c: CallId)
    requires Enabled(s, step) && !Registered(s, key, c) && c in s.calls
    ensures c in Next(s, step).calls && !Registered(Next(s, step), key, c)
  {
  }

  lemma {:induction false} NeverRegisteredAgain(s: State, steps: seq<Step>, key: Key, c: CallId)
    requires Possible(s, steps) && !Registered(s, key, c) && c in s.calls
    ensures !Registered(After(s, steps), key, c)
    decreases |steps|
  {
    hide Enabled, Next, Registered;
    if steps != [] {
      StepNeverRegistersAgain(s, steps[0], key, c);
      NeverRegisteredAgain(Next(s, steps[0]), steps[1..], key, c);
    }
  }

  /** No step of a run ends the registration. */
  predicate NothingEnds(s: State, steps: seq<Step>, key: Key, c: CallId)
    requires Possible(s, steps)
    decreases |steps|
  {
    steps == [] ||
    (c in s.calls && !Ends(s, steps[0], key, c) && NothingEnds(Next(s, steps[0]), steps[1..], key, c))
  }

  /** On every run, a registered call stays registered exactly until it finishes, its last caller leaves
      or, its context over, an arrival replaces it. */
  lemma {:induction false} RegisteredUntil(s: State, steps: seq<Step>, key: Key)
    requires Sound(s) && Possible(s, steps) && key in s.registry
    ensures Registered(After(s, steps), key, s.registry[key]) <==> NothingEnds(s, steps, key, s.registry[key])
    decreases |steps|
  {
    hide Sound, Enabled, Next, Ends, Registered;
    var c := s.registry[key];
    RegisteredCalls(s, key);
    if steps != [] {
      var t := Next(s, steps[0]);
      StepKeepsRegistration(s, steps[0], key, c);
      NextKeepsSound(s, steps[0]);
      if Ends(s, steps[0], key, c) {
        NeverRegisteredAgain(t, steps[1..], key, c);
      } else {
        AsRegistered(t, key, c);
        RegisteredUntil(t, steps[1..], key);
      }
    }
  }

  lemma RegisteredCalls(s: State, key: Key)
    requires Sound(s) && key in s.registry
    ensures Registered(s, key, s.registry[key]) && s.registry[key] in s.calls
  {
  }

  lemma AsRegistered(s: State, key: Key, c: CallId)
    requires Registered(s, key, c)
    ensures key in s.registry && s.registry[key] == c
  {
  }

  /** A live registered call is replaced by no arrival: a new call starts only when the key has none
      or has one whose context ended. */
  lemma ArrivalReplacesNoLiveCall(s: State, w: CallerId, key: Key, id: CallId)
    requires Sound(s) && Enabled(s, Arrive(w, key, id))
    ensures var t := Next(s, Arrive(w, key, id));
            && key in t.registry && t.callers[w] == Waiting(key, t.registry[key])
            && t.calls[t.registry[key]].cause.Live? && t.calls[t.registry[key]].stage.Working?
            && (id in t.calls <==>
                forall c <- s.calls :: s.calls[c].key == key && s.calls[c].stage.Working? ==> !s.calls[c].cause.Live?)
  {
    forall c <- s.calls
      ensures CallFits(s, c)
    {
    }
    if Joins(s, key) {
      assert s.calls[s.registry[key]].key == key;
    }
  }

  /** Everybody who was answered for a call got the one outcome it finished with, for the key asked. */
  lemma AnswersAgree(steps: seq<Step>, v: CallerId, w: CallerId)
    requires Possible(NOBODY, steps)
    requires var s := After(NOBODY, steps);
             && v in s.callers && w in s.callers && s.callers[v].Answered? && s.callers[w].Answered?
             && s.callers[v].call == s.callers[w].call
    ensures After(NOBODY, steps).callers[v] == After(NOBODY, steps).callers[w]
  {
    RunsAreSound(NOBODY, steps);
  }

  // ---- where everything comes from ----

  /** What a call has come to was done to it in the past: its outcome is the one it finished with, and
      its context is live until it times out, is released or is deserted. */
  ghost predicate CallFrom(past: seq<Step>, s: State, c: CallId)
    requires c in s.calls
  {
    var call := s.calls[c];
    && (call.stage.Unregistered? || call.stage.Closed? ==> Finish(c, call.stage.outcome) in past)
    && (call.cause.Live? ==> TimeOut(c) !in past && Release(c) !in past)
    && (call.cause.TimedOut? ==> TimeOut(c) in past)
    && (call.cause.Over? ==> Release(c) in past)
    && (call.cause.LastLeft? ==> exists w :: Abandon(w) in past)
  }

  ghost predicate CallerFrom(past: seq<Step>, s: State, w: CallerId)
    requires w in s.callers
  {
    && (exists id :: Arrive(w, s.callers[w].key, id) in past)
    && (s.callers[w].Left? <==> Abandon(w) in past)
    && (s.callers[w].Answered? ==> Receive(w) in past && Finish(s.callers[w].call, s.callers[w].outcome) in past)
  }

  ghost predicate ComesFrom(past: seq<Step>, s: State) {
    && (forall c <- s.calls :: CallFrom(past, s, c))
    && (forall w <- s.callers :: CallerFrom(past, s, w))
    && (forall c :: TimeOut(c) in past || Release(c) in past ==> c in s.calls)
    && (forall w :: Abandon(w) in past ==> w in s.callers)
  }

  lemma OneStepLater(past: seq<Step>, step: Step)
    ensures forall x :: x in past + [step] <==> x in past || x == step
  {
  }

  lemma CallComesFrom(past: seq<Step>, s: State, step: Step, c: CallId)
    requires ComesFrom(past, s) && Enabled(s, step) && c in Next(s, step).calls
    ensures CallFrom(past + [step], Next(s, step), c)
  {
    hide CallerFrom;
    OneStepLater(past, step);
    assert c in s.calls ==> CallFrom(past, s, c);
  }

  lemma CallerComesFrom(past: seq<Step>, s: State, step: Step, w: CallerId)
    requires ComesFrom(past, s) && Enabled(s, step) && w in Next(s, step).callers
    ensures CallerFrom(past + [step], Next(s, step), w)
  {
    OneStepLater(past, step);
    if w in s.callers {
      assert CallerFrom(past, s, w);
      var id :| Arrive(w, s.callers[w].key, id) in past;
      assert Arrive(w, s.callers[w].key, id) in past + [step];
      if step == Receive(w) {
        assert CallFrom(past, s, s.callers[w].call);
      }
    } else {
      assert Arrive(w, step.key, step.id) in past + [step];
    }
  }

  lemma StepComesFrom(past: seq<Step>, s: State, step: Step)
    requires ComesFrom(past, s) && Enabled(s, step)
    ensures ComesFrom(past + [step], Next(s, step))
  {
    hide CallFrom, CallerFrom;
    OneStepLater(past, step);
    var t := Next(s, step);
    forall c <- t.calls ensures CallFrom(past + [step], t, c) { CallComesFrom(past, s, step, c); }
    forall w <- t.callers ensures CallerFrom(past + [step], t, w) { CallerComesFrom(past, s, step, w); }
  }

  lemma {:induction false} RunComesFrom(past: seq<Step>, s: State, steps: seq<Step>)
    requires ComesFrom(past, s) && Possible(s, steps)
    ensures ComesFrom(past + steps, After(s, steps))
    decreases |steps|
  {
    hide ComesFrom, Enabled, Next;
    if steps == [] {
      assert past + steps == past;
    } else {
      StepComesFrom(past, s, steps[0]);
      assert past + [steps[0]] + steps[1..] == past + steps;
      RunComesFrom(past + [steps[0]], Next(s, steps[0]), steps[1..]);
    }
  }

  /** On every run, whoever was answered had asked for that key and gets what the work of the call gave
      when it finished; and a context is live exactly as long as nothing has ended it. */
  lemma AnswersAreOutcomes(steps: seq<Step>)
    requires Possible(NOBODY, steps)
    ensures var s := After(NOBODY, steps);
            && (forall w <- s.callers :: s.callers[w].Answered? ==>
                  Finish(s.callers[w].call, s.callers[w].outcome) in steps
                  && exists id :: Arrive(w, s.callers[w].key, id) in steps)
            && (forall c <- s.calls :: TimeOut(c) in steps || Release(c) in steps ==> !s.calls[c].cause.Live?)
            && (forall c <- s.calls :: s.calls[c].cause.TimedOut? ==> TimeOut(c) in steps)
  {
    hide Possible, After;
    RunComesFrom([], NOBODY, steps);
    assert [] + steps == steps;
    var s := After(NOBODY, steps);
    forall w <- s.callers | s.callers[w].Answered?
      ensures Finish(s.callers[w].call, s.callers[w].outcome) in steps
      ensures exists id :: Arrive(w, s.callers[w].key, id) in steps
    {
      assert CallerFrom(steps, s, w);
    }
    forall c <- s.calls ensures CallFrom(steps, s, c) {}
  }

  /** Nothing holds a caller or a call up: on every run a waiting caller can leave at any time, and be
      answered as soon as its call is closed; a call at work can time out and finish with anything, and is
      then closed; and a new caller can always come. */
  lemma NobodyIsHeldUp(steps: seq<Step>, w: CallerId, c: CallId, key: Key, outcome: Outcome)
    requires Possible(NOBODY, steps)
    ensures var s := After(NOBODY, steps);
            && (w in s.callers && s.callers[w].Waiting? ==>
                  && s.callers[w].call in s.calls && Enabled(s, Abandon(w))
                  && (Enabled(s, Receive(w)) <==> s.calls[s.callers[w].call].stage.Closed?))
            && (w !in s.callers && c !in s.calls ==> Enabled(s, Arrive(w, key, c)))
            && (c in s.calls ==>
                  && Enabled(s, TimeOut(c))
                  && (Enabled(s, Finish(c, outcome)) <==> s.calls[c].stage.Working?)
                  && (Enabled(s, Close(c)) <==> s.calls[c].stage.Unregistered?))
  {
    hide Possible, After;
    RunsAreSound(NOBODY, steps);
    hide CallFits;
  }
}
