/**
 How often one EPC can be submitted.  The cache is asked before the inflight lock is taken,
 so several workers may pass the check in one residency of an EPC in the cache; each of
 them can submit it, but none of them twice.
 */
module PipelineSubmits {
  import opened CacheStore
  import opened Pipeline
  import opened PipelineTokens
  import opened PipelineFate

  /** Times `e` came into the cache when it was not there. */
  function ArrivalOf(e: EPC): Event -> nat {
    (v: Event) => if v.CacheChanged? && e in v.after && e !in v.before then 1 else 0
  }

  function RemovalBy(w: nat, e: EPC): Event -> nat {
    (v: Event) => if v.Removal? && v.worker == w then Same(e, v.epc) else 0
  }

  /** Removals after an ERP answer, by any worker. */
  function RemovalOf(e: EPC): Event -> nat {
    (v: Event) => if v.Removal? then Same(e, v.epc) else 0
  }

  /** The worker found `e` in the cache and has not removed it yet. */
  predicate Committed(w: Worker, e: EPC) {
    match w
    case Present(f) => e == f
    case Calling(f, _) => e == f
    case Removing(f, _) => e == f
    case _ => false
  }

  /** A worker's removals of `e` stay behind its arrivals while `e` is in the cache or the
      worker is still going to remove it. */
  predicate Behind(s: State, w: nat, e: EPC)
    requires w < |s.workers|
  {
    Sum(s.trace, RemovalBy(w, e)) + (if e in s.sh.cache || Committed(s.workers[w], e) then 1 else 0)
    <= Sum(s.trace, ArrivalOf(e))
  }

  lemma WorkerBehind(cfg: Config, sh: Shared, w: nat, pc: Worker, reply: Reply, e: EPC)
    ensures var m := WorkerNext(cfg, sh, w, pc, reply);
            && |m.events| <= 1
            && (forall v | v in m.events :: !v.CacheChanged?)
            && (e in m.sh.cache ==> e in sh.cache)
            && (Committed(m.pc, e) ==> Committed(pc, e) || e in sh.cache)
            && (forall v | v in m.events && v.Removal? && v.epc == e ::
                  v.worker == w && Committed(pc, e) && !Committed(m.pc, e) && e !in m.sh.cache)
  {
  }

  lemma BehindStep(s: State, a: Action, v: nat, e: EPC)
    requires v < |s.workers| && Behind(s, v, e)
    ensures v < |Apply(s, a).workers| && Behind(Apply(s, a), v, e)
  {
    hide CallerNext, WorkerNext, Sum;
    ConfigFixed(s, a);
    match a {
      case CallerStep(c) =>
        if c < |s.callers| {
          CallerCounters(s.cfg, s.sh, s.callers[c]);
          CallersKeepCache(s.cfg, s.sh, s.callers[c]);
          var events := CallerNext(s.cfg, s.sh, s.callers[c]).events;
          SumLast(s.trace, events, RemovalBy(v, e));
          SumLast(s.trace, events, ArrivalOf(e));
        }
      case WorkerStep(w, reply) =>
        if w < |s.workers| {
          WorkerBehind(s.cfg, s.sh, w, s.workers[w], reply, e);
          var events := WorkerNext(s.cfg, s.sh, w, s.workers[w], reply).events;
          SumLast(s.trace, events, RemovalBy(v, e));
          SumLast(s.trace, events, ArrivalOf(e));
          if events != [] { assert events[0] in events; }
        }
      case Refill(epcs) => CacheBehind(s, epcs - {""}, v, e);
      case Append(epcs) => CacheBehind(s, s.sh.cache + (epcs - {""}), v, e);
      case See(_, f, now) => PlainBehind(s, Noted(f, now, s.sh.scanActive), v, e);
      case Collect(now) => PlainBehind(s, Collected(now), v, e);
      case _ =>
    }
  }

  lemma CallersKeepCache(cfg: Config, sh: Shared, pc: Caller)
    ensures CallerNext(cfg, sh, pc).sh.cache == sh.cache
  {
  }

  lemma CacheBehind(s: State, after: set<EPC>, v: nat, e: EPC)
    requires v < |s.workers| && Behind(s, v, e)
    ensures Behind(SetCache(s, after), v, e)
  {
    hide Sum;
    SumAppend(s.trace, CacheChanged(s.sh.cache, after), RemovalBy(v, e));
    SumAppend(s.trace, CacheChanged(s.sh.cache, after), ArrivalOf(e));
  }

  lemma PlainBehind(s: State, event: Event, v: nat, e: EPC)
    requires event.Noted? || event.Collected?
    ensures Sum(s.trace + [event], RemovalBy(v, e)) == Sum(s.trace, RemovalBy(v, e))
    ensures Sum(s.trace + [event], ArrivalOf(e)) == Sum(s.trace, ArrivalOf(e))
  {
    hide Sum;
    SumAppend(s.trace, event, RemovalBy(v, e));
    SumAppend(s.trace, event, ArrivalOf(e));
  }

  lemma {:induction false} BehindAlways(cfg: Config, actions: seq<Action>, w: nat, e: EPC)
    requires w < cfg.workerCount
    ensures |Run(cfg, actions).workers| == cfg.workerCount && Behind(Run(cfg, actions), w, e)
    decreases actions
  {
    hide Behind, Apply;
    TokensAlways(cfg, actions);
    if actions == [] {
      assert Behind(Init(cfg), w, e) by { BehindInitially(cfg, w, e); }
    } else {
      BehindAlways(cfg, actions[..|actions| - 1], w, e);
      BehindStep(Run(cfg, actions[..|actions| - 1]), actions[|actions| - 1], w, e);
    }
  }

  lemma BehindInitially(cfg: Config, w: nat, e: EPC)
    requires w < cfg.workerCount
    ensures Behind(Init(cfg), w, e)
  {
  }

  // ---- Adding up the workers ---------------------------------------------------------------------

  function RemovalsByFirst(trace: seq<Event>, n: nat, e: EPC): nat
    decreases n
  {
    if n == 0 then 0 else RemovalsByFirst(trace, n - 1, e) + Sum(trace, RemovalBy(n - 1, e))
  }

  lemma {:induction false} RemovalsByFirstAppend(trace: seq<Event>, v: Event, n: nat, e: EPC)
    ensures RemovalsByFirst(trace + [v], n, e) ==
            RemovalsByFirst(trace, n, e) + if v.Removal? && v.worker < n then Same(e, v.epc) else 0
    decreases n
  {
    hide Sum;
    if n > 0 {
      RemovalsByFirstAppend(trace, v, n - 1, e);
      SumAppend(trace, v, RemovalBy(n - 1, e));
    }
  }

  lemma {:induction false} RemovalsSplit(trace: seq<Event>, n: nat, e: EPC)
    requires forall k | 0 <= k < |trace| && trace[k].Removal? :: trace[k].worker < n
    ensures Sum(trace, RemovalOf(e)) == RemovalsByFirst(trace, n, e)
    decreases trace
  {
    hide Sum;
    if trace == [] {
      NoRemovals(n, e);
    } else {
      var front, v := trace[..|trace| - 1], trace[|trace| - 1];
      assert trace == front + [v];
      RemovalsSplit(front, n, e);
      SumAppend(front, v, RemovalOf(e));
      RemovalsByFirstAppend(front, v, n, e);
    }
  }

  lemma {:induction false} NoRemovals(n: nat, e: EPC)
    ensures RemovalsByFirst([], n, e) == 0 && Sum([], RemovalOf(e)) == 0
    decreases n
  {
    if n > 0 { NoRemovals(n - 1, e); }
  }

  predicate KnownWorkers(s: State) {
    forall k | 0 <= k < |s.trace| && s.trace[k].Removal? :: s.trace[k].worker < |s.workers|
  }

  lemma WorkerSigns(cfg: Config, sh: Shared, w: nat, pc: Worker, reply: Reply)
    ensures forall v | v in WorkerNext(cfg, sh, w, pc, reply).events && v.Removal? :: v.worker == w
  {
  }

  lemma KnownStep(s: State, a: Action)
    requires KnownWorkers(s)
    ensures KnownWorkers(Apply(s, a))
  {
    hide CallerNext, WorkerNext;
    match a {
      case CallerStep(c) => if c < |s.callers| { CallerCounters(s.cfg, s.sh, s.callers[c]); }
      case WorkerStep(w, reply) =>
        if w < |s.workers| {
          WorkerSigns(s.cfg, s.sh, w, s.workers[w], reply);
        }
      case _ =>
    }
  }

  lemma {:induction false} KnownAlways(cfg: Config, actions: seq<Action>)
    ensures KnownWorkers(Run(cfg, actions))
    decreases actions
  {
    hide KnownWorkers, Apply;
    if actions == [] {
      assert KnownWorkers(Init(cfg)) by { KnownInitially(cfg); }
    } else {
      KnownAlways(cfg, actions[..|actions| - 1]);
      KnownStep(Run(cfg, actions[..|actions| - 1]), actions[|actions| - 1]);
    }
  }

  lemma KnownInitially(cfg: Config)
    ensures KnownWorkers(Init(cfg))
  {
  }

  lemma {:induction false} FirstBounded(s: State, n: nat, e: EPC, arrivals: nat)
    requires forall w | 0 <= w < n :: Sum(s.trace, RemovalBy(w, e)) <= arrivals
    ensures RemovalsByFirst(s.trace, n, e) <= n * arrivals
    decreases n
  {
    hide Sum;
    if n > 0 {
      FirstBounded(s, n - 1, e, arrivals);
      assert n * arrivals == (n - 1) * arrivals + arrivals;
    }
  }

  /** Over every run, the removals of an EPC after an answer never exceed the worker count
      times the number of times it came into the cache. */
  lemma ResubmissionBounded(cfg: Config, actions: seq<Action>, e: EPC)
    ensures var trace := Run(cfg, actions).trace;
            Sum(trace, RemovalOf(e)) <= cfg.workerCount * Sum(trace, ArrivalOf(e))
  {
    hide Sum, Run;
    var s := Run(cfg, actions);
    var arrivals := Sum(s.trace, ArrivalOf(e));
    TokensAlways(cfg, actions);
    KnownAlways(cfg, actions);
    RemovalsSplit(s.trace, cfg.workerCount, e);
    forall w | 0 <= w < cfg.workerCount ensures Sum(s.trace, RemovalBy(w, e)) <= arrivals {
      BehindAlways(cfg, actions, w, e);
    }
    FirstBounded(s, cfg.workerCount, e, arrivals);
  }

  // ---- When is it at most once? --------------------------------------------------------------------

  /** No run submits an EPC more often than it came into the cache. */
  ghost predicate OncePerResidency(cfg: Config) {
    forall actions, e :: AtMostArrivals(Run(cfg, actions).trace, e)
  }

  predicate AtMostArrivals(trace: seq<Event>, e: EPC) {
    Sum(trace, RemovalOf(e)) <= Sum(trace, ArrivalOf(e))
  }

  /** Runs in which every tag is handed in by a reader; none is enqueued by a replay. */
  predicate Plain(actions: seq<Action>) {
    forall k | 0 <= k < |actions| :: !actions[k].Replay?
  }

  ghost predicate OncePerResidencyWhenPlain(cfg: Config) {
    forall actions, e | Plain(actions) :: AtMostArrivals(Run(cfg, actions).trace, e)
  }

  const THE_TAG: EPC := "A1"

  // ---- A run that attains the bound -------------------------------------------------------

  /** A state of the run below: the one caller, all workers, scanning on, and how often the tag
      was removed since its one arrival. */
  predicate Stage(s: State, sh: Shared, c: Caller, ws: seq<Worker>, removals: nat) {
    && s.sh == sh && s.callers == [c] && s.workers == ws && sh.scanActive
    && Sum(s.trace, RemovalOf(THE_TAG)) == removals && Sum(s.trace, ArrivalOf(THE_TAG)) == 1
  }

  /** The tag is nowhere in the pipeline. */
  predicate Free(sh: Shared) {
    sh.queue == [] && THE_TAG !in sh.queued && THE_TAG !in sh.inflight
  }

  lemma StageWorker(s: State, sh: Shared, c: Caller, ws: seq<Worker>, removals: nat, w: nat, reply: Reply)
    requires Stage(s, sh, c, ws, removals) && w < |ws|
    ensures var m := WorkerNext(s.cfg, sh, w, ws[w], reply);
            Stage(Apply(s, WorkerStep(w, reply)), m.sh, c, ws[w := m.pc],
                  removals + if ws[w].Removing? then Same(THE_TAG, ws[w].epc) else 0)
  {
    hide Sum, Same;
    WorkerEvents(s.cfg, sh, w, ws[w], reply);
    SumLast(s.trace, WorkerNext(s.cfg, sh, w, ws[w], reply).events, RemovalOf(THE_TAG));
    SumLast(s.trace, WorkerNext(s.cfg, sh, w, ws[w], reply).events, ArrivalOf(THE_TAG));
    hide WorkerNext;
  }

  lemma WorkerEvents(cfg: Config, sh: Shared, w: nat, pc: Worker, reply: Reply)
    ensures var m := WorkerNext(cfg, sh, w, pc, reply);
            && |m.events| <= 1 && m.sh.scanActive == sh.scanActive
            && (pc.Removing? ==> m.events == [Removal(w, pc.epc)])
            && (!pc.Removing? && m.events != [] ==> !m.events[0].Removal? && !m.events[0].CacheChanged?)
  {
  }

  lemma StageCaller(s: State, sh: Shared, c: Caller, ws: seq<Worker>, removals: nat)
    requires Stage(s, sh, c, ws, removals)
    ensures var m := CallerNext(s.cfg, sh, c);
            Stage(Apply(s, CallerStep(0)), m.sh, m.pc, ws, removals)
  {
    hide Sum;
    CallerCounters(s.cfg, sh, c);
    CallerKeepsScan(s.cfg, sh, c);
    SumLast(s.trace, CallerNext(s.cfg, sh, c).events, RemovalOf(THE_TAG));
    SumLast(s.trace, CallerNext(s.cfg, sh, c).events, ArrivalOf(THE_TAG));
    hide CallerNext;
  }

  lemma CallerKeepsScan(cfg: Config, sh: Shared, pc: Caller)
    ensures CallerNext(cfg, sh, pc).sh.scanActive == sh.scanActive
  {
  }

  /** One more action, which is no replay. */
  lemma More(cfg: Config, actions: seq<Action>, a: Action) returns (longer: seq<Action>)
    requires Plain(actions) && !a.Replay?
    ensures longer == actions + [a] && Plain(longer)
    ensures Run(cfg, longer) == Apply(Run(cfg, actions), a) && Run(cfg, longer).cfg == cfg
  {
    longer := actions + [a];
    assert longer[..|actions|] == actions;
    hide Run;
    TokensAlways(cfg, longer);
  }

  lemma CallerMoves(cfg: Config, run: seq<Action>, sh: Shared, c: Caller, ws: seq<Worker>, removals: nat)
    returns (more: seq<Action>)
    requires Plain(run) && Run(cfg, run).cfg == cfg && Stage(Run(cfg, run), sh, c, ws, removals)
    ensures Plain(more) && Run(cfg, more).cfg == cfg
    ensures var m := CallerNext(cfg, sh, c); Stage(Run(cfg, more), m.sh, m.pc, ws, removals)
  {
    hide Run, Stage;
    more := More(cfg, run, CallerStep(0));
    StageCaller(Run(cfg, run), sh, c, ws, removals);
  }

  lemma WorkerMoves(cfg: Config, run: seq<Action>, sh: Shared, ws: seq<Worker>, removals: nat, w: nat, reply: Reply)
    returns (more: seq<Action>)
    requires Plain(run) && Run(cfg, run).cfg == cfg && Stage(Run(cfg, run), sh, Quiet, ws, removals) && w < |ws|
    ensures Plain(more) && Run(cfg, more).cfg == cfg
    ensures var m := WorkerNext(cfg, sh, w, ws[w], reply);
            Stage(Run(cfg, more), m.sh, Quiet, ws[w := m.pc],
                  removals + if ws[w].Removing? then Same(THE_TAG, ws[w].epc) else 0)
  {
    hide Run, Stage;
    more := More(cfg, run, WorkerStep(w, reply));
    StageWorker(Run(cfg, run), sh, Quiet, ws, removals, w, reply);
  }

  lemma SeenOnce(s: State, sh: Shared, ws: seq<Worker>, removals: nat)
    requires Stage(s, sh, Quiet, ws, removals)
    ensures Stage(Apply(s, See(0, THE_TAG, 0)), NoteSeen(s.cfg, sh, THE_TAG, 0), Looking(THE_TAG), ws, removals)
  {
    hide Sum, GcRecentSeen;
    SumAppend(s.trace, Noted(THE_TAG, 0, true), RemovalOf(THE_TAG));
    SumAppend(s.trace, Noted(THE_TAG, 0, true), ArrivalOf(THE_TAG));
  }

  /** A reader hands in the tag, which is in the cache: it is looked up, reserved and sent. */
  lemma TagHandedIn(cfg: Config, run: seq<Action>, sh: Shared, ws: seq<Worker>, removals: nat)
    returns (more: seq<Action>, after: Shared)
    requires cfg.queueSize >= 1 && Free(sh) && THE_TAG in sh.cache
    requires Plain(run) && Run(cfg, run).cfg == cfg && Stage(Run(cfg, run), sh, Quiet, ws, removals)
    ensures Plain(more) && Run(cfg, more).cfg == cfg && Stage(Run(cfg, more), after, Quiet, ws, removals)
    ensures after.queue == [THE_TAG] && THE_TAG in after.queued && THE_TAG !in after.inflight
    ensures THE_TAG in after.cache
  {
    hide Run, Stage;
    more := More(cfg, run, See(0, THE_TAG, 0));
    SeenOnce(Run(cfg, run), sh, ws, removals);
    hide GcRecentSeen;
    after := NoteSeen(cfg, sh, THE_TAG, 0);
    more := CallerMoves(cfg, more, after, Looking(THE_TAG), ws, removals);
    more := CallerMoves(cfg, more, after, Answered(THE_TAG, true), ws, removals);
    after := CountHit(after);
    more := CallerMoves(cfg, more, after, Enqueuing(THE_TAG), ws, removals);
    after := Reserve(after, THE_TAG);
    more := CallerMoves(cfg, more, after, Reserved(THE_TAG), ws, removals);
    after := Send(after, THE_TAG);
  }

  /** An idle worker takes the tag and finds it in the cache. */
  lemma TagTaken(cfg: Config, run: seq<Action>, sh: Shared, ws: seq<Worker>, removals: nat, w: nat)
    returns (more: seq<Action>, after: Shared)
    requires sh.queue == [THE_TAG] && THE_TAG !in sh.inflight && THE_TAG in sh.cache
    requires w < |ws| && ws[w] == Idle
    requires Plain(run) && Run(cfg, run).cfg == cfg && Stage(Run(cfg, run), sh, Quiet, ws, removals)
    ensures Plain(more) && Run(cfg, more).cfg == cfg
    ensures Stage(Run(cfg, more), after, Quiet, ws[w := Present(THE_TAG)], removals)
    ensures Free(after) && THE_TAG in after.cache
  {
    hide Run, Stage;
    more := WorkerMoves(cfg, run, sh, ws, removals, w, Failure);
    assert sh.queue[1..] == [];
    after := sh.(queue := []);
    var held := ws[w := Received(THE_TAG)];
    more := WorkerMoves(cfg, more, after, held, removals, w, Failure);
    after := after.(queued := after.queued - {THE_TAG});
    assert held[w := Cleared(THE_TAG)] == ws[w := Cleared(THE_TAG)];
    held := ws[w := Cleared(THE_TAG)];
    more := WorkerMoves(cfg, more, after, held, removals, w, Failure);
    assert held[w := Present(THE_TAG)] == ws[w := Present(THE_TAG)];
  }

  /** A worker that found the tag in the cache submits it, whatever happened meanwhile. */
  lemma TagSubmitted(cfg: Config, run: seq<Action>, sh: Shared, ws: seq<Worker>, removals: nat, w: nat)
    returns (more: seq<Action>, after: Shared)
    requires Free(sh) && w < |ws| && ws[w] == Present(THE_TAG)
    requires Plain(run) && Run(cfg, run).cfg == cfg && Stage(Run(cfg, run), sh, Quiet, ws, removals)
    ensures Plain(more) && Run(cfg, more).cfg == cfg
    ensures Stage(Run(cfg, more), after, Quiet, ws[w := Idle], removals + 1) && Free(after)
  {
    hide Run, Stage;
    more := WorkerMoves(cfg, run, sh, ws, removals, w, Failure);
    after := sh.(inflight := sh.inflight + {THE_TAG});
    var held := ws[w := Calling(THE_TAG, 0)];
    more := WorkerMoves(cfg, more, after, held, removals, w, Submitted);
    held := held[w := Removing(THE_TAG, Submitted)];
    more := WorkerMoves(cfg, more, after, held, removals, w, Failure);
    after := after.(cache := after.cache - {THE_TAG});
    held := held[w := Telling(THE_TAG, Submitted)];
    more := WorkerMoves(cfg, more, after, held, removals + 1, w, Failure);
    after := CountOutcome(after, Submitted);
    held := held[w := Unlocking(THE_TAG)];
    more := WorkerMoves(cfg, more, after, held, removals + 1, w, Failure);
    after := after.(inflight := after.inflight - {THE_TAG});
    assert held[w := Idle] == ws[w := Idle];
  }

  lemma AfterArrival(s: State)
    requires s.trace == [] && s.callers == [] && s.sh.cache == {}
    ensures var t := Apply(Apply(Apply(s, Append({THE_TAG})), Spawn), SetScan(true));
            && t.sh == s.sh.(cache := {THE_TAG}, scanActive := true) && t.callers == [Quiet]
            && t.workers == s.workers && t.trace == [CacheChanged({}, {THE_TAG})]
  {
    assert {} + ({THE_TAG} - {""}) == {THE_TAG};
  }

  /** The tag comes into the cache and scanning is switched on. */
  lemma TagArrives(cfg: Config) returns (run: seq<Action>, sh: Shared)
    ensures Plain(run) && Run(cfg, run).cfg == cfg && Free(sh) && THE_TAG in sh.cache
    ensures Stage(Run(cfg, run), sh, Quiet, Init(cfg).workers, 0)
  {
    var none: seq<Action> := [];
    assert Run(cfg, none) == Init(cfg);
    AfterArrival(Init(cfg));
    hide Run, Apply, Sum;
    run := More(cfg, none, Append({THE_TAG}));
    run := More(cfg, run, Spawn);
    run := More(cfg, run, SetScan(true));
    sh := Run(cfg, run).sh;
    OneArrival(CacheChanged({}, {THE_TAG}));
  }

  lemma OneArrival(v: Event)
    requires v.CacheChanged? && THE_TAG in v.after && THE_TAG !in v.before
    ensures Sum([v], RemovalOf(THE_TAG)) == 0 && Sum([v], ArrivalOf(THE_TAG)) == 1
  {
    SumOne(v, RemovalOf(THE_TAG));
    SumOne(v, ArrivalOf(THE_TAG));
  }

  /** The first `k` of `n` workers do one thing, the others another. */
  function Split(n: nat, k: nat, first: Worker, others: Worker): (ws: seq<Worker>)
    ensures |ws| == n && forall w | 0 <= w < n :: ws[w] == if w < k then first else others
  {
    seq(n, w => if w < k then first else others)
  }

  /** One worker after the other takes the tag before any of them has locked it. */
  lemma {:induction false} TakenBy(cfg: Config, k: nat) returns (run: seq<Action>, sh: Shared)
    requires cfg.queueSize >= 1 && k <= cfg.workerCount
    ensures Plain(run) && Run(cfg, run).cfg == cfg && Free(sh) && THE_TAG in sh.cache
    ensures Stage(Run(cfg, run), sh, Quiet, Split(cfg.workerCount, k, Present(THE_TAG), Idle), 0)
    decreases k
  {
    hide Run, Stage, Free;
    var ws := Split(cfg.workerCount, k, Present(THE_TAG), Idle);
    if k == 0 {
      run, sh := TagArrives(cfg);
      assert Init(cfg).workers == ws;
    } else {
      run, sh := TakenBy(cfg, k - 1);
      var before := Split(cfg.workerCount, k - 1, Present(THE_TAG), Idle);
      run, sh := TagHandedIn(cfg, run, sh, before, 0);
      run, sh := TagTaken(cfg, run, sh, before, 0, k - 1);
      assert before[k - 1 := Present(THE_TAG)] == ws;
    }
  }

  /** Then they submit it, one after the other. */
  lemma {:induction false} SubmittedBy(cfg: Config, k: nat, m: nat) returns (run: seq<Action>, sh: Shared)
    requires cfg.queueSize >= 1 && m <= k <= cfg.workerCount
    ensures Plain(run) && Run(cfg, run).cfg == cfg && Free(sh)
    ensures Stage(Run(cfg, run), sh, Quiet, Behindhand(cfg.workerCount, k, m), m)
    decreases m
  {
    hide Run, Stage, Free;
    if m == 0 {
      run, sh := TakenBy(cfg, k);
      assert Behindhand(cfg.workerCount, k, 0) == Split(cfg.workerCount, k, Present(THE_TAG), Idle);
    } else {
      run, sh := SubmittedBy(cfg, k, m - 1);
      var before := Behindhand(cfg.workerCount, k, m - 1);
      run, sh := TagSubmitted(cfg, run, sh, before, m - 1, m - 1);
      assert before[m - 1 := Idle] == Behindhand(cfg.workerCount, k, m);
    }
  }

  /** Of the `k` workers that took the tag, `m` have finished. */
  function Behindhand(n: nat, k: nat, m: nat): (ws: seq<Worker>)
    ensures |ws| == n && forall w | 0 <= w < n :: ws[w] == if m <= w < k then Present(THE_TAG) else Idle
  {
    seq(n, w => if m <= w < k then Present(THE_TAG) else Idle)
  }

  lemma StageCounts(s: State, sh: Shared, ws: seq<Worker>, removals: nat)
    requires Stage(s, sh, Quiet, ws, removals)
    ensures Sum(s.trace, RemovalOf(THE_TAG)) == removals && Sum(s.trace, ArrivalOf(THE_TAG)) == 1
  {
  }

  /**
   Any number of workers up to all of them can submit the same arrival: each takes the tag and
   finds it in the cache before any has locked it.  No replay is needed, only a reader that hands
   in the tag again and again while scanning is on.  With all workers the bound is attained.
   */
  lemma SubmittedByMany(cfg: Config, k: nat) returns (run: seq<Action>)
    requires cfg.queueSize >= 1 && k <= cfg.workerCount
    ensures Plain(run)
    ensures var trace := Run(cfg, run).trace;
            Sum(trace, RemovalOf(THE_TAG)) == k && Sum(trace, ArrivalOf(THE_TAG)) == 1
  {
    hide Run, Stage, Sum;
    var sh;
    run, sh := SubmittedBy(cfg, k, k);
    StageCounts(Run(cfg, run), sh, Behindhand(cfg.workerCount, k, k), k);
  }

  /** With two workers the same arrival is submitted twice. */
  lemma SubmittedTwice(cfg: Config) returns (run: seq<Action>)
    requires cfg.workerCount >= 2 && cfg.queueSize >= 1
    ensures Plain(run)
    ensures var trace := Run(cfg, run).trace;
            Sum(trace, RemovalOf(THE_TAG)) == 2 && Sum(trace, ArrivalOf(THE_TAG)) == 1
  {
    hide Run, Sum;
    run := SubmittedByMany(cfg, 2);
  }

  /** An EPC is submitted at most once per residency in every run exactly when there is at most
      one worker, whether replays may enqueue anything or there are none at all. */
  lemma OnceIffOneWorker(cfg: Config)
    requires cfg.queueSize >= 1
    ensures OncePerResidency(cfg) <==> cfg.workerCount <= 1
    ensures OncePerResidencyWhenPlain(cfg) <==> cfg.workerCount <= 1
  {
    hide Run, Sum;
    if cfg.workerCount <= 1 {
      forall actions, e
        ensures AtMostArrivals(Run(cfg, actions).trace, e)
      {
        ResubmissionBounded(cfg, actions, e);
        AtMostOnce(cfg.workerCount, Sum(Run(cfg, actions).trace, ArrivalOf(e)));
      }
    } else {
      var run := SubmittedTwice(cfg);
      assert !AtMostArrivals(Run(cfg, run).trace, THE_TAG);
    }
  }

  lemma AtMostOnce(workers: nat, arrivals: nat)
    requires workers <= 1
    ensures workers * arrivals <= arrivals
  {
  }
}
