/** Bounded admission to speech synthesis (acquireTTSSlotContext in backend/services/tts_cache.go): two
    channels of tokens, one step per channel operation. */
module Admission {
  type Client = nat

  datatype Limits = Limits(concurrent: nat, queued: nat)

  /** The tokens in the two channels, and the clients inside: those that wait for the semaphore, those
      at work, and those between giving back the semaphore's token and the queue's. */
  datatype State = State(
    queue: int, semaphore: int, waiting: set<Client>, active: set<Client>, freeing: set<Client>)
  {
    function Inside(): set<Client> {
      waiting + active + freeing
    }
  }

  const EMPTY: State := State(0, 0, {}, {}, {})

  /** Refuse is the default branch of the first select. GiveUp is the timer or the end of the
      client's context. */
  datatype Step =
    | Enter(client: Client)
    | Refuse(client: Client)
    | Acquire(client: Client)
    | GiveUp(client: Client)
    | ReturnSemaphore(client: Client)
    | ReturnQueue(client: Client)

  /** Whether a step can be taken now: a send needs room in the channel, a receive needs a token. */
  predicate Enabled(l: Limits, s: State, step: Step) {
    match step
    case Enter(w) => w !in s.Inside() && s.queue < l.concurrent + l.queued
    case Refuse(w) => w !in s.Inside() && s.queue >= l.concurrent + l.queued
    case Acquire(w) => w in s.waiting && s.semaphore < l.concurrent
    case GiveUp(w) => w in s.waiting && s.queue > 0
    case ReturnSemaphore(w) => w in s.active && s.semaphore > 0
    case ReturnQueue(w) => w in s.freeing && s.queue > 0
  }

  function Next(l: Limits, s: State, step: Step): State
    requires Enabled(l, s, step)
  {
    match step
    case Enter(w) => s.(queue := s.queue + 1, waiting := s.waiting + {w})
    case Refuse(_) => s
    case Acquire(w) => s.(semaphore := s.semaphore + 1, waiting := s.waiting - {w}, active := s.active + {w})
    case GiveUp(w) => s.(queue := s.queue - 1, waiting := s.waiting - {w})
    case ReturnSemaphore(w) =>
      s.(semaphore := s.semaphore - 1, active := s.active - {w}, freeing := s.freeing + {w})
    case ReturnQueue(w) => s.(queue := s.queue - 1, freeing := s.freeing - {w})
  }

  predicate Possible(l: Limits, s: State, steps: seq<Step>)
    decreases |steps|
  {
    steps == [] || (Enabled(l, s, steps[0]) && Possible(l, Next(l, s, steps[0]), steps[1..]))
  }

  function After(l: Limits, s: State, steps: seq<Step>): State
    requires Possible(l, s, steps)
    decreases |steps|
  {
    if steps == [] then s else After(l, Next(l, s, steps[0]), steps[1..])
  }

  /** The queue holds a token for each client inside, the semaphore one for each at work. */
  predicate Balanced(l: Limits, s: State) {
    && s.waiting !! s.active && s.waiting !! s.freeing && s.active !! s.freeing
    && s.queue == |s.waiting| + |s.active| + |s.freeing| <= l.concurrent + l.queued
    && s.semaphore == |s.active| <= l.concurrent
  }

  lemma CountMember(clients: set<Client>, w: Client)
    ensures w in clients ==> |clients - {w}| == |clients| - 1
    ensures w !in clients ==> |clients + {w}| == |clients| + 1
  {
  }

  lemma NextKeepsBalance(l: Limits, s: State, step: Step)
    requires Balanced(l, s) && Enabled(l, s, step)
    ensures Balanced(l, Next(l, s, step))
  {
    var w := step.client;
    match step {
      case Enter(_) =>
        CountMember(s.waiting, w);
      case Refuse(_) =>
      case Acquire(_) =>
        CountMember(s.waiting, w);
        CountMember(s.active, w);
      case GiveUp(_) =>
        CountMember(s.waiting, w);
      case ReturnSemaphore(_) =>
        CountMember(s.active, w);
        CountMember(s.freeing, w);
      case ReturnQueue(_) =>
        CountMember(s.freeing, w);
    }
  }

  lemma {:induction false} RunsAreBalanced(l: Limits, s: State, steps: seq<Step>)
    requires Balanced(l, s) && Possible(l, s, steps)
    ensures Balanced(l, After(l, s, steps))
    decreases |steps|
  {
    hide Balanced, Enabled, Next;
    if steps != [] {
      NextKeepsBalance(l, s, steps[0]);
      RunsAreBalanced(l, Next(l, s, steps[0]), steps[1..]);
    }
  }

  lemma InsideCount(l: Limits, s: State)
    requires Balanced(l, s)
    ensures |s.Inside()| == s.queue
  {
    assert |s.waiting + s.active| == |s.waiting| + |s.active|;
  }

  // ---- what it gives, on every run ----

  /** At most the configured number of clients is at work, and at most that number and the queue's
      together is inside; a client outside is refused exactly when that many are. */
  lemma Bounded(l: Limits, steps: seq<Step>, w: Client)
    requires Possible(l, EMPTY, steps)
    ensures var s := After(l, EMPTY, steps);
            && |s.active| <= l.concurrent && |s.Inside()| <= l.concurrent + l.queued
            && (w !in s.Inside() ==>
                && (Enabled(l, s, Refuse(w)) <==> |s.Inside()| == l.concurrent + l.queued)
                && (Enabled(l, s, Refuse(w)) <==> !Enabled(l, s, Enter(w))))
  {
    RunsAreBalanced(l, EMPTY, steps);
    InsideCount(l, After(l, EMPTY, steps));
  }

  /** A client that is inside can always go on: giving a token back never blocks, and a client that
      waits gets the semaphore as soon as fewer than the limit are at work. */
  lemma NobodyIsStuck(l: Limits, steps: seq<Step>, w: Client)
    requires Possible(l, EMPTY, steps)
    ensures var s := After(l, EMPTY, steps);
            && (w in s.waiting ==>
                Enabled(l, s, GiveUp(w)) && (Enabled(l, s, Acquire(w)) <==> |s.active| < l.concurrent))
            && (w in s.active ==> Enabled(l, s, ReturnSemaphore(w)))
            && (w in s.freeing ==> Enabled(l, s, ReturnQueue(w)))
  {
    RunsAreBalanced(l, EMPTY, steps);
    var s := After(l, EMPTY, steps);
    assert w in s.waiting ==> |s.waiting| > 0;
    assert w in s.active ==> |s.active| > 0;
    assert w in s.freeing ==> |s.freeing| > 0;
  }

  // ---- the metrics ----

  /** What TTSQueueMetricsSnapshot reports as queued: it reads the semaphore's length first, the queue's
      later, and cuts off the difference at zero. */
  function Queued(active: int, queue: int): (r: int)
    ensures r >= 0
  {
    var queued := queue - active;
    if queued < 0 then 0 else queued
  }

  lemma {:induction false} SemaphoreMoves(l: Limits, s: State, steps: seq<Step>)
    requires Possible(l, s, steps)
    ensures -|steps| <= After(l, s, steps).semaphore - s.semaphore <= |steps|
    decreases |steps|
  {
    if steps != [] {
      SemaphoreMoves(l, Next(l, s, steps[0]), steps[1..]);
    }
  }

  /** With any steps between the two readings, the depth is that of the clients inside at the second
      one over those at work at the first, cut off exactly when fewer are inside than were at work; it
      never exceeds the capacity, and differs from the clients not at work at the second reading by no
      more than the steps in between. */
  lemma QueueDepth(l: Limits, steps: seq<Step>, between: seq<Step>)
    requires Possible(l, EMPTY, steps) && Possible(l, After(l, EMPTY, steps), between)
    ensures var s := After(l, EMPTY, steps);
            var t := After(l, s, between);
            var depth, idle := Queued(s.semaphore, t.queue), |t.Inside()| - |t.active|;
            && s.semaphore == |s.active| && s.queue - s.semaphore == |s.waiting| + |s.freeing|
            && (s.Inside() == {} <==> s.queue == 0)
            && depth == (if |t.Inside()| < |s.active| then 0 else |t.Inside()| - |s.active|)
            && depth <= l.concurrent + l.queued
            && idle == |t.waiting| + |t.freeing| && -|between| <= depth - idle <= |between|
  {
    hide Possible, After, Enabled, Next;
    var s := After(l, EMPTY, steps);
    RunsAreBalanced(l, EMPTY, steps);
    RunsAreBalanced(l, s, between);
    InsideCount(l, s);
    InsideCount(l, After(l, s, between));
    SemaphoreMoves(l, s, between);
  }

  lemma TwoSteps(l: Limits, s: State, x: Step, y: Step)
    requires Enabled(l, s, x) && Enabled(l, Next(l, s, x), y)
    ensures Possible(l, s, [x, y]) && After(l, s, [x, y]) == Next(l, Next(l, s, x), y)
  {
    hide Enabled, Next;
    var steps := [x, y];
    assert steps[1..] == [y] && [y][1..] == [];
    assert Possible(l, Next(l, s, x), [y]) && After(l, Next(l, s, x), [y]) == Next(l, Next(l, s, x), y);
  }

  /** The cut-off does act: a client at work at the first reading has left before the second. */
  lemma CutOffActs()
    ensures var l, steps, between := Limits(1, 0), [Enter(0), Acquire(0)], [ReturnSemaphore(0), ReturnQueue(0)];
            && Possible(l, EMPTY, steps) && Possible(l, After(l, EMPTY, steps), between)
            && var s := After(l, EMPTY, steps);
               After(l, s, between).queue - s.semaphore == -1
  {
    hide Possible, After;
    var l := Limits(1, 0);
    TwoSteps(l, EMPTY, Enter(0), Acquire(0));
    var working := State(1, 1, {}, {0}, {});
    assert Next(l, Next(l, EMPTY, Enter(0)), Acquire(0)) == working;
    TwoSteps(l, working, ReturnSemaphore(0), ReturnQueue(0));
  }
}
