/** The coroutine pool, between the points where a coroutine yields: workers that sleep, are woken by a posted resume,
    and drain the queue of handlers; and the event loop that runs one thing at a time. */
module CoroutinePool {

  type Worker = nat

  type Handler = nat

  /** `unstarted` workers were spawned and have not run yet, `free` ones sleep in `free_ctx`, `posted` ones have a
      resume in the event loop, and `running` ones are inside a handler. `scheduled` and `started` record the
      history. */
  datatype Pool = Pool(
    poolsize: nat,
    queue: seq<Handler>,
    unstarted: set<Worker>,
    free: set<Worker>,
    posted: set<Worker>,
    running: map<Worker, Handler>,
    processed: nat,
    scheduled: seq<Handler>,
    started: seq<Handler>)

  /** What the event loop can do next. `wake` names the sleeper that `ResumeCoroutine` would take, if there is one: the
      first of a set that is ordered by addresses. */
  datatype Event = Schedule(h: Handler, wake: Worker) | Start(w: Worker) | Resume(w: Worker) | Done(w: Worker)

  function AllWorkers(n: nat): (ws: set<Worker>)
    ensures forall w: Worker :: w in ws <==> 0 <= w < n
    ensures |ws| == n
  {
    if n == 0 then {} else AllWorkers(n - 1) + {n - 1}
  }

  function Fresh(poolsize: nat): Pool {
    Pool(poolsize, [], AllWorkers(poolsize), {}, {}, map[], 0, [], [])
  }

  // ---- The steps ----

  /** `ResumeCoroutine`: a sleeper leaves the set of free contexts and a resume for it is posted. */
  function ResumeCoroutine(p: Pool, wake: Worker): Pool {
    if p.free == {} then p else p.(free := p.free - {wake}, posted := p.posted + {wake})
  }

  /** What a worker does that is not inside a handler and holds the control: it starts the handler at the front of the
      queue, or, with an empty queue, goes to sleep. */
  function Drain(p: Pool, w: Worker): Pool {
    if p.queue == [] then p.(free := p.free + {w})
    else p.(queue := p.queue[1..], running := p.running[w := p.queue[0]], started := p.started + [p.queue[0]])
  }

  predicate Enabled(p: Pool, e: Event) {
    match e
    case Schedule(_, wake) => p.free != {} ==> wake in p.free
    case Start(w) => w in p.unstarted
    case Resume(w) => w in p.posted
    case Done(w) => w in p.running
  }

  /** The worker of an event leaves the state in which the event loop found it. */
  function TakeOut(p: Pool, e: Event): Pool
    requires !e.Schedule?
  {
    match e
    case Start(w) => p.(unstarted := p.unstarted - {w})
    case Resume(w) => p.(posted := p.posted - {w})
    case Done(w) => p.(running := p.running - {w}, processed := p.processed + 1)
  }

  function Step(p: Pool, e: Event): Pool {
    match e
    case Schedule(h, wake) => ResumeCoroutine(p.(queue := p.queue + [h], scheduled := p.scheduled + [h]), wake)
    case _ => Drain(TakeOut(p, e), e.w)
  }

  function Exec(p: Pool, es: seq<Event>): Pool
    decreases |es|
  {
    if es == [] then p else Exec(Step(p, es[0]), es[1..])
  }

  predicate Possible(p: Pool, es: seq<Event>)
    decreases |es|
  {
    es == [] || (Enabled(p, es[0]) && Possible(Step(p, es[0]), es[1..]))
  }

  // ---- The invariant ----

  /** In how many of the four states a worker is. */
  function StatesOf(p: Pool, w: Worker): nat {
    (if w in p.unstarted then 1 else 0) + (if w in p.free then 1 else 0)
    + (if w in p.posted then 1 else 0) + (if w in p.running then 1 else 0)
  }

  /** Every worker is in exactly one of the four states, and nobody else is in any. */
  ghost predicate Partitioned(p: Pool) {
    forall w: Worker :: StatesOf(p, w) == if w < p.poolsize then 1 else 0
  }

  /** Handlers leave the queue in the order in which they were scheduled, each once; those started and not yet processed
      are the ones that workers are inside. */
  predicate Ordered(p: Pool) {
    && p.started + p.queue == p.scheduled
    && p.processed + |p.running| == |p.started|
  }

  /** No lost wakeup: when a handler waits, some worker will come to look. */
  predicate Awake(p: Pool) {
    p.queue != [] ==> p.unstarted != {} || p.posted != {} || p.running.Keys != {}
  }

  /** While some worker sleeps, every waiting handler has a worker of its own on its way: none of them has to wait for
      a handler to return. `given` more workers have the control. */
  predicate Attended(p: Pool, given: nat) {
    p.free != {} ==> |p.queue| <= |p.posted| + |p.unstarted| + given
  }

  ghost predicate Inv(p: Pool) {
    p.poolsize > 0 && Partitioned(p) && Ordered(p) && Awake(p) && Attended(p, 0)
  }

  lemma {:induction false} DrainPartitioned(p: Pool, w: Worker)
    requires w < p.poolsize
    requires forall v: Worker :: StatesOf(p, v) == if v < p.poolsize && v != w then 1 else 0
    ensures Partitioned(Drain(p, w))
  {
    forall v: Worker ensures StatesOf(Drain(p, w), v) == if v < p.poolsize then 1 else 0 {
      assert StatesOf(p, v) == if v < p.poolsize && v != w then 1 else 0;
    }
  }

  lemma {:induction false} StepPartitioned(p: Pool, e: Event)
    requires Partitioned(p) && Enabled(p, e)
    ensures Partitioned(Step(p, e))
  {
    if e.Schedule? {
      forall v: Worker ensures StatesOf(Step(p, e), v) == if v < p.poolsize then 1 else 0 {
        assert StatesOf(p, v) == if v < p.poolsize then 1 else 0;
      }
    } else {
      var w := e.w;
      var q := TakeOut(p, e);
      assert StatesOf(p, w) == if w < p.poolsize then 1 else 0;
      forall v: Worker ensures StatesOf(q, v) == if v < p.poolsize && v != w then 1 else 0 {
        assert StatesOf(p, v) == if v < p.poolsize then 1 else 0;
      }
      DrainPartitioned(q, w);
    }
  }

  lemma RemoveOne<T>(s: set<T>, x: T)
    requires x in s
    ensures |s - {x}| == |s| - 1
  {
  }

  lemma MapLess<K, V>(m: map<K, V>, k: K)
    requires k in m
    ensures |m - {k}| == |m| - 1
  {
    assert (m - {k}).Keys == m.Keys - {k};
    assert |m.Keys| == |m| && |(m - {k}).Keys| == |m - {k}|;
  }

  lemma MapMore<K, V>(m: map<K, V>, k: K, v: V)
    requires k !in m
    ensures |m[k := v]| == |m| + 1
  {
    assert m[k := v].Keys == m.Keys + {k};
    assert |m.Keys| == |m| && |m[k := v].Keys| == |m[k := v]|;
  }

  lemma {:induction false} DrainOrdered(p: Pool, w: Worker)
    requires Ordered(p) && w !in p.running
    ensures Ordered(Drain(p, w))
  {
    if p.queue != [] {
      MapMore(p.running, w, p.queue[0]);
      FrontMoves(p.started, p.queue);
    }
  }

  lemma FrontMoves(a: seq<Handler>, b: seq<Handler>)
    requires b != []
    ensures a + [b[0]] + b[1..] == a + b
  {
  }

  /** The worker has the control: it is in none of the four states, everybody else is in one. */
  ghost predicate HandedTo(p: Pool, w: Worker) {
    && p.poolsize > 0 && w < p.poolsize && Ordered(p) && Attended(p, 1)
    && forall v: Worker :: StatesOf(p, v) == if v < p.poolsize && v != w then 1 else 0
  }

  /** A worker that has the control restores the invariant by the time it yields. */
  lemma {:induction false} DrainInv(p: Pool, w: Worker)
    requires HandedTo(p, w)
    ensures Inv(Drain(p, w))
  {
    DrainPartitioned(p, w);
    DrainAttended(p, w);
    assert StatesOf(p, w) == 0;
    DrainOrdered(p, w);
    if p.queue != [] {
      assert w in Drain(p, w).running.Keys;
    }
  }

  lemma {:induction false} StepOrdered(p: Pool, e: Event)
    requires Partitioned(p) && Ordered(p) && Enabled(p, e)
    ensures Ordered(Step(p, e))
  {
    if e.Schedule? {
      assert p.started + (p.queue + [e.h]) == (p.started + p.queue) + [e.h];
    } else {
      assert StatesOf(p, e.w) == if e.w < p.poolsize then 1 else 0;
      if e.Done? {
        MapLess(p.running, e.w);
      }
      DrainOrdered(TakeOut(p, e), e.w);
    }
  }

  lemma {:induction false} StepAwake(p: Pool, e: Event)
    requires Inv(p) && Enabled(p, e)
    ensures Awake(Step(p, e))
  {
    if e.Schedule? {
      if p.free == {} {
        assert StatesOf(p, 0) == 1;
      } else {
        assert e.wake in Step(p, e).posted;
      }
    } else if p.queue != [] {
      assert e.w in Step(p, e).running.Keys;
    }
  }

  /** A worker that has the control starts a waiting handler before it sleeps. */
  lemma DrainAttended(p: Pool, w: Worker)
    requires Attended(p, 1)
    ensures Attended(Drain(p, w), 0)
  {
  }

  lemma ScheduleAttended(p: Pool, h: Handler, wake: Worker)
    requires Partitioned(p) && Attended(p, 0) && Enabled(p, Schedule(h, wake))
    ensures Attended(Step(p, Schedule(h, wake)), 0)
  {
    if p.free != {} {
      assert StatesOf(p, wake) == if wake < p.poolsize then 1 else 0;
      assert wake !in p.posted;
    }
  }

  lemma {:induction false} StepAttended(p: Pool, e: Event)
    requires Partitioned(p) && Attended(p, 0) && Enabled(p, e)
    ensures Attended(Step(p, e), 0)
  {
    match e
    case Schedule(h, wake) => ScheduleAttended(p, h, wake);
    case Start(w) =>
      RemoveOne(p.unstarted, w);
      DrainAttended(TakeOut(p, e), w);
    case Resume(w) =>
      RemoveOne(p.posted, w);
      DrainAttended(TakeOut(p, e), w);
    case Done(w) => DrainAttended(TakeOut(p, e), w);
  }

  lemma {:induction false} StepInv(p: Pool, e: Event)
    requires Inv(p) && Enabled(p, e)
    ensures Inv(Step(p, e))
  {
    StepAttended(p, e);
    StepPartitioned(p, e);
    StepOrdered(p, e);
    StepAwake(p, e);
  }

  lemma FreshInv(poolsize: nat)
    requires poolsize > 0
    ensures Inv(Fresh(poolsize))
  {
  }

  /** Over every interleaving the invariant holds: ownership, order, no lost wakeup, and a worker on its way for every
      waiting handler while somebody sleeps. */
  lemma {:induction false} ExecInv(p: Pool, es: seq<Event>)
    requires Inv(p) && Possible(p, es)
    ensures Inv(Exec(p, es))
    decreases |es|
  {
    if es != [] {
      StepInv(p, es[0]);
      ExecInv(Step(p, es[0]), es[1..]);
    }
  }

  /** So it holds after every run of a pool with workers. */
  lemma RunInv(poolsize: nat, es: seq<Event>)
    requires poolsize > 0 && Possible(Fresh(poolsize), es)
    ensures Inv(Exec(Fresh(poolsize), es))
  {
    FreshInv(poolsize);
    ExecInv(Fresh(poolsize), es);
  }

  // ---- Consequences ----

  /** All workers sleep. */
  ghost predicate Quiescent(p: Pool) {
    forall w: Worker :: w < p.poolsize ==> w in p.free
  }

  lemma QuiescentOthers(p: Pool)
    requires Inv(p) && Quiescent(p)
    ensures p.unstarted == {} && p.posted == {} && p.running == map[]
  {
    forall w: Worker ensures w !in p.unstarted && w !in p.posted && w !in p.running {
      assert StatesOf(p, w) == if w < p.poolsize then 1 else 0;
    }
  }

  /** When all workers sleep, the queue is empty and everything scheduled has been processed. */
  lemma {:induction false} QuiescentDone(p: Pool)
    requires Inv(p) && Quiescent(p)
    ensures p.queue == [] && p.started == p.scheduled && p.processed == |p.scheduled|
  {
    QuiescentOthers(p);
    assert p.started + [] == p.started;
  }

  /** A handler is started at most once, and before every handler scheduled after it: the handlers started are a prefix
      of those scheduled. */
  lemma {:induction false} StartedInOrder(poolsize: nat, es: seq<Event>)
    requires poolsize > 0 && Possible(Fresh(poolsize), es)
    ensures var p := Exec(Fresh(poolsize), es);
      p.started <= p.scheduled && p.scheduled == Scheduled(es) && |p.queue| == |p.scheduled| - |p.started|
  {
    RunInv(poolsize, es);
    RunScheduled(poolsize, es);
  }

  lemma RunScheduled(poolsize: nat, es: seq<Event>)
    ensures Exec(Fresh(poolsize), es).scheduled == Scheduled(es)
  {
    ExecScheduled(Fresh(poolsize), es);
    assert [] + Scheduled(es) == Scheduled(es);
  }

  /** The handlers given to `Schedule` in a run. */
  function Scheduled(es: seq<Event>): seq<Handler> {
    if es == [] then [] else (if es[0].Schedule? then [es[0].h] else []) + Scheduled(es[1..])
  }

  lemma {:induction false} ExecScheduled(p: Pool, es: seq<Event>)
    ensures Exec(p, es).scheduled == p.scheduled + Scheduled(es)
    decreases |es|
  {
    if es == [] {
      assert p.scheduled + [] == p.scheduled;
    } else {
      ExecScheduled(Step(p, es[0]), es[1..]);
      var own := if es[0].Schedule? then [es[0].h] else [];
      assert Step(p, es[0]).scheduled == p.scheduled + own;
      assert (p.scheduled + own) + Scheduled(es[1..]) == p.scheduled + (own + Scheduled(es[1..]));
    }
  }

  /** A worker that leaves the free set is in no other state than `posted` until its resume runs: a sleep is resumed
      once. */
  lemma {:induction false} ResumedOnce(p: Pool, e: Event, w: Worker)
    requires Inv(p) && Enabled(p, e) && w in p.posted
    ensures w in Step(p, e).posted <==> e != Resume(w)
    ensures e != Resume(w) ==> w !in Step(p, e).free && w !in Step(p, e).running
  {
    StepPartitioned(p, e);
    assert StatesOf(p, w) == if w < p.poolsize then 1 else 0;
    assert StatesOf(Step(p, e), w) == if w < p.poolsize then 1 else 0;
  }

  /** A handler waits for another one to return only if nobody sleeps: as long as somebody does, the workers on their
      way, each running once, start everything that waits. */
  lemma {:induction false} StartWithoutReturns(p: Pool) returns (es: seq<Event>)
    requires Inv(p) && p.free != {}
    ensures Possible(p, es) && forall e <- es :: e.Start? || e.Resume?
    ensures Exec(p, es).queue == [] && |es| == |p.queue|
    decreases |p.queue|
  {
    if p.queue == [] {
      es := [];
    } else {
      assert p.posted != {} || p.unstarted != {};
      var w :| w in p.posted + p.unstarted;
      var e := if w in p.posted then Resume(w) else Start(w);
      StepInv(p, e);
      var rest := StartWithoutReturns(Step(p, e));
      es := [e] + rest;
      assert es[1..] == rest;
    }
  }

  // ---- Progress ----

  /** Work that is left for the event loop without further scheduling. */
  function Work(p: Pool): nat {
    |p.unstarted| + |p.posted| + |p.running| + 2 * |p.queue|
  }

  /** Every step of the event loop but scheduling uses up work. */
  lemma {:induction false} StepWorks(p: Pool, e: Event)
    requires Inv(p) && Enabled(p, e) && !e.Schedule?
    ensures Work(Step(p, e)) < Work(p)
  {
    match e {
      case Start(w) => RemoveOne(p.unstarted, w);
      case Resume(w) => RemoveOne(p.posted, w);
      case Done(w) => MapLess(p.running, w);
    }
    var q := TakeOut(p, e);
    if q.queue != [] {
      assert StatesOf(p, e.w) == if e.w < p.poolsize then 1 else 0;
      MapMore(q.running, e.w, q.queue[0]);
    }
  }

  /** The event loop is stuck exactly when all workers sleep. */
  lemma {:induction false} StuckExactly(p: Pool)
    requires Inv(p)
    ensures Quiescent(p) <==> forall e :: Enabled(p, e) ==> e.Schedule?
  {
    if forall e :: Enabled(p, e) ==> e.Schedule? {
      forall w: Worker | w < p.poolsize ensures w in p.free {
        assert !Enabled(p, Start(w)) && !Enabled(p, Resume(w)) && !Enabled(p, Done(w));
        assert StatesOf(p, w) == 1;
      }
    }
    if Quiescent(p) {
      QuiescentOthers(p);
    }
  }

  ghost predicate NoSchedule(es: seq<Event>) {
    forall e <- es :: !e.Schedule?
  }

  /** Every run without further scheduling ends: it has at most `Work(p)` steps. */
  lemma {:induction false} RunsEnd(p: Pool, es: seq<Event>)
    requires Inv(p) && Possible(p, es) && NoSchedule(es)
    ensures |es| + Work(Exec(p, es)) <= Work(p)
    decreases |es|
  {
    if es != [] {
      StepInv(p, es[0]);
      StepWorks(p, es[0]);
      RunsEnd(Step(p, es[0]), es[1..]);
    }
  }

  /** From every reachable state the event loop, left alone, comes to rest, and then every handler scheduled has been
      processed, in the order of scheduling. */
  lemma {:induction false} EverythingGetsDone(p: Pool) returns (es: seq<Event>)
    requires Inv(p)
    ensures Possible(p, es) && NoSchedule(es)
    ensures var q := Exec(p, es);
      Quiescent(q) && q.started == q.scheduled == p.scheduled && q.processed == |p.scheduled|
    decreases Work(p)
  {
    if Quiescent(p) {
      es := [];
      QuiescentDone(p);
    } else {
      StuckExactly(p);
      var e :| Enabled(p, e) && !e.Schedule?;
      StepInv(p, e);
      StepWorks(p, e);
      var rest := EverythingGetsDone(Step(p, e));
      es := [e] + rest;
      assert es[1..] == rest;
    }
  }

  /** A pool without workers is the one pool that loses handlers: nothing it is given is ever started. */
  lemma {:induction false} EmptyPoolStarves(p: Pool, es: seq<Event>)
    requires p.poolsize == 0 && Partitioned(p) && Possible(p, es)
    ensures Exec(p, es).started == p.started
    decreases |es|
  {
    if es != [] {
      NobodyThere(p, es[0]);
      StepPartitioned(p, es[0]);
      EmptyPoolStarves(Step(p, es[0]), es[1..]);
    }
  }

  lemma NobodyThere(p: Pool, e: Event)
    requires p.poolsize == 0 && Partitioned(p) && Enabled(p, e)
    ensures e.Schedule?
  {
    if !e.Schedule? {
      var n := StatesOf(p, e.w);
      assert false;
    }
  }

  lemma {:induction false} ExecPartitioned(p: Pool, es: seq<Event>)
    requires Partitioned(p) && Possible(p, es)
    ensures Partitioned(Exec(p, es)) && Exec(p, es).poolsize == p.poolsize
    decreases |es|
  {
    if es != [] {
      StepPartitioned(p, es[0]);
      ExecPartitioned(Step(p, es[0]), es[1..]);
    }
  }

  /** After any run, the event loop left alone can get everything started if and only if the pool has a worker or was
      given nothing. */
  lemma {:induction false} StartsAllExactly(poolsize: nat, es: seq<Event>)
    requires Possible(Fresh(poolsize), es)
    ensures var p := Exec(Fresh(poolsize), es);
      (exists more :: Possible(p, more) && NoSchedule(more) && Exec(p, more).started == p.scheduled) <==>
      poolsize > 0 || Scheduled(es) == []
  {
    var p := Exec(Fresh(poolsize), es);
    RunScheduled(poolsize, es);
    if poolsize > 0 {
      RunInv(poolsize, es);
      var more := EverythingGetsDone(p);
    } else {
      ExecPartitioned(Fresh(0), es);
      EmptyPoolStarves(Fresh(0), es);
      forall more | Possible(p, more) ensures Exec(p, more).started == [] {
        EmptyPoolStarves(p, more);
      }
      assert Possible(p, []) && NoSchedule([]) && Exec(p, []).started == [];
    }
  }

  // ---- The pool as the program has it ----

  class CoroutinePool {
    const poolsize: nat
    var handlerQueue: seq<Handler>
    var freeCtx: set<Worker>
    var handlersProcessed: nat
    /** The event loop's side: spawned coroutines, posted resumes, suspended handlers. */
    var unstarted: set<Worker>
    var posted: set<Worker>
    var running: map<Worker, Handler>
    ghost var scheduled: seq<Handler>
    ghost var started: seq<Handler>

    ghost function Abs(): Pool
      reads this
    {
      Pool(poolsize, handlerQueue, unstarted, freeCtx, posted, running, handlersProcessed, scheduled, started)
    }

    ghost predicate Valid()
      reads this
    {
      Inv(Abs())
    }

    constructor (n: nat)
      ensures Abs() == Fresh(n) && (n > 0 ==> Valid())
    {
      poolsize, handlerQueue, freeCtx, handlersProcessed := n, [], {}, 0;
      unstarted, posted, running := AllWorkers(n), {}, map[];
      scheduled, started := [], [];
      new;
      if n > 0 {
        FreshInv(n);
      }
    }

    /** `GetWorkersBusy`: the workers inside a handler, on their way, or not yet started; none exactly when all
        sleep. */
    function GetWorkersBusy(): (n: int)
      reads this
      ensures Valid() ==> n == |running| + |posted| + |unstarted|
      ensures Valid() ==> (n == 0 <==> Quiescent(Abs()))
    {
      assert Valid() ==> poolsize - |freeCtx| == |running| + |posted| + |unstarted| by {
        if Valid() {
          BusyCount(Abs());
        }
      }
      assert Valid() ==> (poolsize - |freeCtx| == 0 <==> Quiescent(Abs())) by {
        if Valid() {
          BusyExactly(Abs());
        }
      }
      poolsize - |freeCtx|
    }

    /** `ResumeCoroutine`: a sleeper, if there is one, leaves the free set and its resume is posted, whatever the other
        workers do. */
    method ResumeOne() returns (ghost wake: Worker)
      modifies this`freeCtx, this`posted
      ensures old(freeCtx) != {} ==>
        wake in old(freeCtx) && freeCtx == old(freeCtx) - {wake} && posted == old(posted) + {wake}
      ensures old(freeCtx) == {} ==> freeCtx == {} && posted == old(posted)
      ensures Abs() == ResumeCoroutine(old(Abs()), wake)
    {
      wake := 0;
      if freeCtx == {} {
        return;
      }
      var y :| y in freeCtx;
      freeCtx := freeCtx - {y};
      posted := posted + {y};
      wake := y;
    }

    method ScheduleHandler(h: Handler) returns (ghost wake: Worker)
      modifies this
      ensures Enabled(old(Abs()), Schedule(h, wake)) && Abs() == Step(old(Abs()), Schedule(h, wake))
      ensures old(Valid()) ==> Valid()
      ensures old(freeCtx) != {} ==> wake in posted && freeCtx == old(freeCtx) - {wake}
      ensures handlerQueue == old(handlerQueue) + [h] && running == old(running)
    {
      ghost var was := Abs();
      handlerQueue := handlerQueue + [h];
      scheduled := scheduled + [h];
      wake := ResumeOne();
      if Inv(was) {
        StepInv(was, Schedule(h, wake));
      }
    }

    /** The part of `CtxHolder` between two yields, for a worker that has been given the control: it gives it up inside
        a handler or asleep, and the invariant holds again. */
    method RunUntilYield(w: Worker)
      modifies this
      ensures Abs() == Drain(old(Abs()), w)
      ensures old(handlerQueue) == [] ==> freeCtx == old(freeCtx) + {w} && running == old(running)
      ensures old(handlerQueue) != [] ==> freeCtx == old(freeCtx) && running == old(running)[w := old(handlerQueue)[0]]
      ensures old(handlerQueue) != [] ==> handlerQueue == old(handlerQueue)[1..]
      ensures old(HandedTo(Abs(), w)) ==> Valid()
    {
      if HandedTo(Abs(), w) {
        DrainInv(Abs(), w);
      }
      if handlerQueue == [] {
        freeCtx := freeCtx + {w};
      } else {
        var h := handlerQueue[0];
        handlerQueue := handlerQueue[1..];
        running := running[w := h];
        started := started + [h];
      }
    }

    /** The event loop runs a spawned coroutine for the first time. */
    method StartWorker(w: Worker)
      requires Valid() && w in unstarted
      modifies this
      ensures Valid() && Abs() == Step(old(Abs()), Start(w))
    {
      StepInv(Abs(), Start(w));
      unstarted := unstarted - {w};
      RunUntilYield(w);
    }

    /** The event loop runs a posted resume. */
    method RunResume(w: Worker)
      requires Valid() && w in posted
      modifies this
      ensures Valid() && Abs() == Step(old(Abs()), Resume(w))
    {
      StepInv(Abs(), Resume(w));
      posted := posted - {w};
      RunUntilYield(w);
    }

    /** A handler returns to its worker. */
    method HandlerReturns(w: Worker)
      requires Valid() && w in running
      modifies this
      ensures Valid() && Abs() == Step(old(Abs()), Done(w))
    {
      ghost var was := Abs();
      StepInv(was, Done(w));
      running := running - {w};
      handlersProcessed := handlersProcessed + 1;
      assert Abs() == was.(running := was.running - {w}, processed := was.processed + 1);
      RunUntilYield(w);
    }
  }

  lemma {:induction false} WorkerSets(p: Pool)
    requires Partitioned(p)
    ensures p.unstarted + p.posted + p.running.Keys + p.free == AllWorkers(p.poolsize)
  {
    forall w: Worker ensures w in p.unstarted + p.posted + p.running.Keys + p.free <==> w < p.poolsize {
      assert StatesOf(p, w) == if w < p.poolsize then 1 else 0;
    }
  }

  /** The busy workers, as `GetWorkersBusy` counts them, are those inside a handler and those on their way. */
  lemma {:induction false} BusyCount(p: Pool)
    requires Inv(p)
    ensures p.poolsize - |p.free| == |p.unstarted| + |p.posted| + |p.running|
  {
    WorkerSets(p);
    Disjoint(p);
    FourSets(p.unstarted, p.posted, p.running.Keys, p.free);
    assert |p.running| == |p.running.Keys|;
  }

  /** None is busy exactly when all sleep. */
  lemma {:induction false} BusyExactly(p: Pool)
    requires Inv(p)
    ensures p.poolsize - |p.free| == 0 <==> Quiescent(p)
  {
    BusyCount(p);
    if Quiescent(p) {
      QuiescentOthers(p);
    } else {
      var w: Worker :| w < p.poolsize && w !in p.free;
      assert StatesOf(p, w) == 1;
      assert w in p.unstarted || w in p.posted || w in p.running;
    }
  }

  lemma FourSets<T>(a: set<T>, b: set<T>, c: set<T>, d: set<T>)
    requires a !! b !! c !! d
    ensures |a + b + c + d| == |a| + |b| + |c| + |d|
  {
    assert |a + b| == |a| + |b|;
    assert |a + b + c| == |a + b| + |c|;
  }

  lemma Disjoint(p: Pool)
    requires Partitioned(p)
    ensures p.unstarted !! p.posted !! p.running.Keys !! p.free
  {
    forall w: Worker ensures StatesOf(p, w) <= 1 {
      assert StatesOf(p, w) == if w < p.poolsize then 1 else 0;
    }
    forall w: Worker ensures !(w in p.unstarted && w in p.posted) && !(w in p.free && w in p.unstarted)
      && !(w in p.running && w in p.unstarted) && !(w in p.running && w in p.posted)
      && !(w in p.free && w in p.posted) && !(w in p.free && w in p.running) {
      assert StatesOf(p, w) <= 1;
    }
  }
}
