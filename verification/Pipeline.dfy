/**
 The submit pipeline as a transition system.  Each critical section, channel operation and
 ERP reply is one step of one caller or worker, so a run is any interleaving of them.

 `trace` records what happened; it is never read by a step.
 */
module Pipeline {
  import opened CacheStore

  /** The settings the pipeline reads, as clamped when they are loaded. */
  datatype Config = Config(workerCount: nat, queueSize: nat, submitRetry: nat, recentSeenTTL: int)

  datatype Stats = Stats(
    seenTotal: nat, scanInactive: nat, cacheHits: nat, cacheMisses: nat,
    submittedOK: nat, submitNotFound: nat, submitErrors: nat, queueDropped: nat)

  /** Everything shared between goroutines. */
  datatype Shared = Shared(
    cache: set<EPC>, queue: seq<EPC>, queued: set<EPC>, inflight: set<EPC>,
    recentSeen: map<EPC, int>, scanActive: bool, stats: Stats)

  /** An ERP reply; a timeout or an unknown status is a failure. */
  datatype Reply = Submitted | NotFound | Failure

  datatype Event =
    | CacheChanged(before: set<EPC>, after: set<EPC>)
    | Noted(epc: EPC, now: int, active: bool)     // handed in, with scanning on or off
    | Collected(now: int)
    | Looked(epc: EPC, hit: bool)                 // the cache was asked
    | Sent(epc: EPC)
    | Dropped(epc: EPC)
    | Taken(worker: nat, epc: EPC)
    | Skipped(worker: nat, epc: EPC)
    | Locked(worker: nat, epc: EPC)
    | CallFailed(worker: nat, epc: EPC)
    | CallAnswered(worker: nat, epc: EPC, reply: Reply)
    | Removal(worker: nat, epc: EPC)
    | Finished(worker: nat, epc: EPC, outcome: Reply)

  // ---- Critical sections ----------------------------------------------------------------

  /** Entries older than the TTL are forgotten. */
  function GcRecentSeen(cfg: Config, seen: map<EPC, int>, now: int): map<EPC, int> {
    map e | e in seen && now - seen[e] <= cfg.recentSeenTTL :: seen[e]
  }

  function NoteSeen(cfg: Config, sh: Shared, epc: EPC, now: int): Shared {
    var stats := sh.stats.(seenTotal := sh.stats.seenTotal + 1);
    sh.(recentSeen := GcRecentSeen(cfg, sh.recentSeen[epc := now], now),
        stats := if sh.scanActive then stats else stats.(scanInactive := stats.scanInactive + 1))
  }

  function CountMiss(sh: Shared): Shared {
    sh.(stats := sh.stats.(cacheMisses := sh.stats.cacheMisses + 1))
  }

  function CountHit(sh: Shared): Shared {
    sh.(stats := sh.stats.(cacheHits := sh.stats.cacheHits + 1))
  }

  predicate Busy(sh: Shared, epc: EPC) {
    epc in sh.queued || epc in sh.inflight
  }

  function Reserve(sh: Shared, epc: EPC): Shared {
    sh.(queued := sh.queued + {epc})
  }

  function Send(sh: Shared, epc: EPC): Shared {
    sh.(queue := sh.queue + [epc])
  }

  function Drop(sh: Shared, epc: EPC): Shared {
    sh.(queued := sh.queued - {epc}, stats := sh.stats.(queueDropped := sh.stats.queueDropped + 1))
  }

  function CountOutcome(sh: Shared, outcome: Reply): Shared {
    var st := sh.stats;
    sh.(stats := match outcome
        case Submitted => st.(submittedOK := st.submittedOK + 1)
        case NotFound => st.(submitNotFound := st.submitNotFound + 1)
        case Failure => st.(submitErrors := st.submitErrors + 1))
  }

  // ---- Callers and workers ---------------------------------------------------------------

  /** Where a call stands between two of its critical sections. */
  datatype Caller =
    | Quiet
    | Looking(epc: EPC)          // counted as seen, about to ask the cache
    | Answered(epc: EPC, hit: bool)
    | Enqueuing(epc: EPC)
    | Reserved(epc: EPC)         // in `queued`, about to try the channel
    | Dropping(epc: EPC)         // channel full, about to release the reservation

  datatype Worker =
    | Idle
    | Received(epc: EPC)         // taken from the channel, still in `queued`
    | Cleared(epc: EPC)
    | Present(epc: EPC)          // was in the cache when asked
    | Calling(epc: EPC, attempt: nat)
    | Removing(epc: EPC, reply: Reply)
    | Telling(epc: EPC, reply: Reply)
    | Unlocking(epc: EPC)
    | Stopped

  datatype Move<Pc> = Move(sh: Shared, pc: Pc, events: seq<Event>)

  /** The next step of a call under way. */
  function CallerNext(cfg: Config, sh: Shared, pc: Caller): Move<Caller> {
    match pc
    case Quiet => Move(sh, Quiet, [])
    case Looking(e) => Move(sh, Answered(e, e in sh.cache), [Looked(e, e in sh.cache)])
    case Answered(e, true) => Move(CountHit(sh), Enqueuing(e), [])
    case Answered(e, false) => Move(CountMiss(sh), Quiet, [])
    case Enqueuing(e) =>
      if e == "" || Busy(sh, e) then Move(sh, Quiet, []) else Move(Reserve(sh, e), Reserved(e), [])
    case Reserved(e) =>
      if |sh.queue| < cfg.queueSize then Move(Send(sh, e), Quiet, [Sent(e)]) else Move(sh, Dropping(e), [])
    case Dropping(e) => Move(Drop(sh, e), Quiet, [Dropped(e)])
  }

  /** The next step of a worker; `reply` matters only while it is calling the ERP. */
  function WorkerNext(cfg: Config, sh: Shared, w: nat, pc: Worker, reply: Reply): Move<Worker> {
    match pc
    case Stopped => Move(sh, Stopped, [])
    case Idle =>
      if sh.queue == [] then Move(sh, Idle, [])
      else Move(sh.(queue := sh.queue[1..]), Received(sh.queue[0]), [Taken(w, sh.queue[0])])
    case Received(e) => Move(sh.(queued := sh.queued - {e}), Cleared(e), [])
    case Cleared(e) =>
      if e in sh.cache then Move(sh, Present(e), []) else Move(sh, Idle, [Skipped(w, e)])
    case Present(e) =>
      if e in sh.inflight then Move(sh, Idle, [Skipped(w, e)])
      else Move(sh.(inflight := sh.inflight + {e}), Calling(e, 0), [Locked(w, e)])
    case Calling(e, attempt) =>
      if reply != Failure then Move(sh, Removing(e, reply), [CallAnswered(w, e, reply)])
      else if attempt < cfg.submitRetry then Move(sh, Calling(e, attempt + 1), [CallFailed(w, e)])
      else Move(sh, Telling(e, Failure), [CallFailed(w, e)])
    case Removing(e, answer) =>
      Move(sh.(cache := sh.cache - {e}), Telling(e, answer), [Removal(w, e)])
    case Telling(e, outcome) =>
      Move(CountOutcome(sh, outcome), Unlocking(e), [Finished(w, e, outcome)])
    case Unlocking(e) => Move(sh.(inflight := sh.inflight - {e}), Idle, [])
  }

  // ---- The whole system -------------------------------------------------------------------

  datatype State = State(cfg: Config, sh: Shared, callers: seq<Caller>, workers: seq<Worker>, trace: seq<Event>)

  datatype Action =
    | Spawn                                       // one more goroutine that may call in
    | See(caller: nat, epc: EPC, now: int)        // a non-empty EPC is handed in
    | Replay(caller: nat, epc: EPC)               // a replay loop enqueues an EPC
    | CallerStep(caller: nat)
    | WorkerStep(worker: nat, reply: Reply)
    | StopWorker(worker: nat)                     // an idle worker sees the context end
    | SetScan(active: bool)
    | Refill(epcs: set<EPC>)                      // cache replaced
    | Append(epcs: set<EPC>)                      // cache extended
    | Collect(now: int)

  function Init(cfg: Config): State {
    State(cfg, Shared({}, [], {}, {}, map[], false, Stats(0, 0, 0, 0, 0, 0, 0, 0)),
          [], seq(cfg.workerCount, _ => Idle), [])
  }

  function SetCache(s: State, after: set<EPC>): State {
    s.(sh := s.sh.(cache := after), trace := s.trace + [CacheChanged(s.sh.cache, after)])
  }

  /** One step; an action that does not apply changes nothing. */
  function Apply(s: State, a: Action): State {
    match a
    case Spawn => s.(callers := s.callers + [Quiet])
    case See(c, e, now) =>
      if c < |s.callers| && s.callers[c] == Quiet && e != "" then
        s.(sh := NoteSeen(s.cfg, s.sh, e, now),
           callers := s.callers[c := if s.sh.scanActive then Looking(e) else Quiet],
           trace := s.trace + [Noted(e, now, s.sh.scanActive)])
      else s
    case Replay(c, e) =>
      if c < |s.callers| && s.callers[c] == Quiet then s.(callers := s.callers[c := Enqueuing(e)]) else s
    case CallerStep(c) =>
      if c < |s.callers| then
        var m := CallerNext(s.cfg, s.sh, s.callers[c]);
        s.(sh := m.sh, callers := s.callers[c := m.pc], trace := s.trace + m.events)
      else s
    case WorkerStep(w, reply) =>
      if w < |s.workers| then
        var m := WorkerNext(s.cfg, s.sh, w, s.workers[w], reply);
        s.(sh := m.sh, workers := s.workers[w := m.pc], trace := s.trace + m.events)
      else s
    case StopWorker(w) =>
      if w < |s.workers| && s.workers[w] == Idle then s.(workers := s.workers[w := Stopped]) else s
    case SetScan(active) => s.(sh := s.sh.(scanActive := active))
    case Refill(epcs) => SetCache(s, epcs - {""})
    case Append(epcs) => SetCache(s, s.sh.cache + (epcs - {""}))
    case Collect(now) =>
      s.(sh := s.sh.(recentSeen := GcRecentSeen(s.cfg, s.sh.recentSeen, now)), trace := s.trace + [Collected(now)])
  }

  /** The state after any interleaving of steps. */
  function Run(cfg: Config, actions: seq<Action>): State
    decreases actions
  {
    if actions == [] then Init(cfg) else Apply(Run(cfg, actions[..|actions| - 1]), actions[|actions| - 1])
  }
}
