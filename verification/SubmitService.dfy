/**
 The submit service as an object: what each of its operations does when nothing interrupts
 it.  `Core` is the shared state of the transition system, so the two describe the same
 fields; interleavings are the subject of the Pipeline modules.
 */
module SubmitService {
  import opened Wrappers
  import opened CacheStore
  import opened Pipeline
  import opened PipelineFate
  import opened PipelineHistory
  import opened EpcText

  // ---- Operations on the shared state ----------------------------------------------------------

  /** `enqueue` from start to end. */
  function TryEnqueue(cfg: Config, sh: Shared, epc: EPC): Shared {
    if epc == "" || Busy(sh, epc) then sh
    else if |sh.queue| < cfg.queueSize then Send(Reserve(sh, epc), epc)
    else Drop(Reserve(sh, epc), epc)
  }

  function EnqueueAll(cfg: Config, sh: Shared, epcs: seq<EPC>): Shared
    decreases epcs
  {
    if epcs == [] then sh else EnqueueAll(cfg, TryEnqueue(cfg, sh, epcs[0]), epcs[1..])
  }

  function StepsLeft(pc: Caller): nat {
    match pc
    case Looking(_) => 5
    case Answered(_, _) => 4
    case Enqueuing(_) => 3
    case Reserved(_) => 2
    case Dropping(_) => 1
    case Quiet => 0
  }

  /** A caller of the transition system left alone until it is done. */
  function Settled(cfg: Config, sh: Shared, pc: Caller): Shared
    decreases StepsLeft(pc)
  {
    if pc == Quiet then sh
    else
      var m := CallerNext(cfg, sh, pc);
      Settled(cfg, m.sh, m.pc)
  }

  /** The steps of an enqueuing caller, taken without interruption, are one `enqueue`. */
  lemma EnqueueIsCallerSteps(cfg: Config, sh: Shared, epc: EPC)
    ensures Settled(cfg, sh, Enqueuing(epc)) == TryEnqueue(cfg, sh, epc)
  {
    var a := CallerNext(cfg, sh, Enqueuing(epc));
    if a.pc != Quiet {
      var b := CallerNext(cfg, a.sh, a.pc);
      assert Settled(cfg, a.sh, a.pc) == Settled(cfg, b.sh, b.pc);
    }
  }

  /** Tags seen recently enough, still in the cache, and in the focus list if there is one. */
  function Candidates(cfg: Config, sh: Shared, focus: seq<EPC>, now: int): set<EPC> {
    var recent := GcRecentSeen(cfg, sh.recentSeen, now);
    set e | e in recent && e in sh.cache && (Entries(focus) == {} || e in Entries(focus))
  }

  /** Over every run of the pipeline the candidates for a replay are the cached EPCs whose last
      sighting is still fresh at that moment, and that are in the focus list if it names any. */
  lemma CandidatesAreHistory(cfg: Config, actions: seq<Action>, focus: seq<EPC>, now: int, e: EPC)
    ensures var s := Run(cfg, actions);
            e in Candidates(cfg, s.sh, focus, now) <==>
              && e in CacheOf(s.trace) && (e in focus || forall f | f in focus :: f == "")
              && exists k: nat :: Remembered(cfg.recentSeenTTL, s.trace + [Collected(now)], e, k)
  {
    hide Run, GcRecentSeen, Remembered, CacheOf;
    var s := Run(cfg, actions);
    CacheIsHistory(cfg, actions);
    RecentIsHistory(cfg, actions, e);
    RecallsAppend(cfg, s.trace, s.sh.recentSeen, Collected(now), e);
    assert SeenAfter(cfg, s.sh.recentSeen, Collected(now)) == GcRecentSeen(cfg, s.sh.recentSeen, now);
    EmptyNotCached(cfg, actions);
    FocusExact(focus, e);
  }

  /** A focus list without a single usable entry names everything. */
  lemma FocusExact(focus: seq<EPC>, e: EPC)
    ensures Entries(focus) == {} || e in Entries(focus) <==> (e in focus && e != "") || forall f | f in focus :: f == ""
  {
    if f :| f in focus && f != "" { assert f in Entries(focus); }
  }

  lemma GcExact(cfg: Config, seen: map<EPC, int>, now: int)
    ensures var rest := GcRecentSeen(cfg, seen, now);
            forall e :: (e in rest <==> e in seen && now - seen[e] <= cfg.recentSeenTTL) && (e in rest ==> rest[e] == seen[e])
  {
  }

  lemma {:induction false} EmptyNotCached(cfg: Config, actions: seq<Action>)
    ensures "" !in Run(cfg, actions).sh.cache
    decreases actions
  {
    if actions != [] {
      EmptyNotCached(cfg, actions[..|actions| - 1]);
      StaysUsable(Run(cfg, actions[..|actions| - 1]), actions[|actions| - 1]);
      hide Apply;
    }
  }

  lemma StaysUsable(s: State, a: Action)
    requires "" !in s.sh.cache
    ensures "" !in Apply(s, a).sh.cache
  {
    hide CallerNext, WorkerNext, GcRecentSeen;
    match a {
      case CallerStep(c) => if c < |s.callers| { CallerKeeps(s.cfg, s.sh, s.callers[c]); }
      case WorkerStep(w, reply) => if w < |s.workers| { WorkerKeeps(s.cfg, s.sh, w, s.workers[w], reply); }
      case _ =>
    }
  }

  /** A sighting is remembered long enough: while it is within the TTL a replay considers it. */
  lemma SightingReplayed(cfg: Config, sh: Shared, raw: string, t: int, now: int)
    requires NormalizeEPC(raw) != "" && t <= now <= t + cfg.recentSeenTTL
    ensures var after := Handle(cfg, sh, raw, t).0;
            NormalizeEPC(raw) in after.cache ==> NormalizeEPC(raw) in Candidates(cfg, after, [], now)
  {
    hide NormalizeEPC;
  }

  /** The EPCs an uninterrupted replay had to drop because the channel was full. */
  function DroppedBy(cfg: Config, sh: Shared, epcs: seq<EPC>): set<EPC>
    decreases epcs
  {
    if epcs == [] then {}
    else
      var rest := DroppedBy(cfg, TryEnqueue(cfg, sh, epcs[0]), epcs[1..]);
      if epcs[0] != "" && !Busy(sh, epcs[0]) && |sh.queue| >= cfg.queueSize then rest + {epcs[0]} else rest
  }

  /** A replay only ever adds to what is queued and leaves the rest alone. */
  predicate Extends(sh: Shared, after: Shared) {
    && sh.queued <= after.queued && sh.queue <= after.queue
    && after.cache == sh.cache && after.inflight == sh.inflight && after.recentSeen == sh.recentSeen
    && after.scanActive == sh.scanActive
    && after.stats == sh.stats.(queueDropped := after.stats.queueDropped)
  }

  /** Exactly the newly queued EPCs were sent, and drops only happen to a full channel. */
  lemma {:induction false} ReplaySends(cfg: Config, sh: Shared, epcs: seq<EPC>)
    ensures var after := EnqueueAll(cfg, sh, epcs);
            && Extends(sh, after)
            && (forall e :: e in after.queue <==> e in sh.queue || e in after.queued - sh.queued)
            && |after.queue| - |sh.queue| == |after.queued| - |sh.queued|
            && (DroppedBy(cfg, sh, epcs) != {} ==> |after.queue| >= cfg.queueSize)
    decreases epcs
  {
    if epcs != [] {
      hide TryEnqueue;
      ReplaySends(cfg, TryEnqueue(cfg, sh, epcs[0]), epcs[1..]);
      DropIsReserved(cfg, sh, epcs[0]);
    }
  }

  /** Afterwards an EPC of the list is queued, in flight, or dropped, and no other is dropped. */
  lemma {:induction false} EachAccounted(cfg: Config, sh: Shared, epcs: seq<EPC>, e: EPC)
    ensures var after, dropped := EnqueueAll(cfg, sh, epcs), DroppedBy(cfg, sh, epcs);
            && (e in epcs && e != "" ==> Busy(after, e) || e in dropped)
            && (e in dropped ==> e in epcs && e != "")
    decreases epcs
  {
    if epcs != [] {
      hide TryEnqueue;
      var next := TryEnqueue(cfg, sh, epcs[0]);
      EachAccounted(cfg, next, epcs[1..], e);
      ReplaySends(cfg, next, epcs[1..]);
      DropIsReserved(cfg, sh, epcs[0]);
    }
  }

  /** What a replay queues is on its list and was not in flight. */
  lemma {:induction false} NewlyQueued(cfg: Config, sh: Shared, epcs: seq<EPC>, e: EPC)
    ensures e in EnqueueAll(cfg, sh, epcs).queued && e !in sh.queued ==> e in epcs && e != "" && e !in sh.inflight
    decreases epcs
  {
    if epcs != [] {
      NewlyQueued(cfg, TryEnqueue(cfg, sh, epcs[0]), epcs[1..], e);
    }
  }

  /** Each drop is counted once. */
  lemma {:induction false} ReplayCountsDrops(cfg: Config, sh: Shared, epcs: seq<EPC>)
    requires NoRepeats(epcs)
    ensures EnqueueAll(cfg, sh, epcs).stats.queueDropped == sh.stats.queueDropped + |DroppedBy(cfg, sh, epcs)|
    decreases epcs
  {
    if epcs != [] {
      hide TryEnqueue;
      var next := TryEnqueue(cfg, sh, epcs[0]);
      ReplayCountsDrops(cfg, next, epcs[1..]);
      EachAccounted(cfg, next, epcs[1..], epcs[0]);
      DropIsReserved(cfg, sh, epcs[0]);
      assert epcs[0] !in epcs[1..];
    }
  }

  /** Replay completeness, for one uninterrupted replay. */
  lemma ReplayComplete(cfg: Config, sh: Shared, epcs: seq<EPC>)
    requires NoRepeats(epcs)
    ensures var after, dropped := EnqueueAll(cfg, sh, epcs), DroppedBy(cfg, sh, epcs);
            && Extends(sh, after)
            && (forall e | e in epcs && e != "" :: e in after.queued || e in sh.inflight || e in dropped)
            && (forall e | e in after.queued && e !in sh.queued :: e in epcs && e != "" && e !in sh.inflight)
            && (forall e | e in dropped :: e in epcs && e != "")
            && after.stats.queueDropped == sh.stats.queueDropped + |dropped|
            && (forall e :: e in after.queue <==> e in sh.queue || e in after.queued - sh.queued)
            && |after.queue| - |sh.queue| == |after.queued| - |sh.queued|
            && (dropped != {} ==> |after.queue| >= cfg.queueSize)
  {
    ReplaySends(cfg, sh, epcs);
    ReplayCountsDrops(cfg, sh, epcs);
    assert EnqueueAll(cfg, sh, epcs).inflight == sh.inflight;
    hide EnqueueAll, DroppedBy, Extends;
    forall e
      ensures e in EnqueueAll(cfg, sh, epcs).queued && e !in sh.queued ==> e in epcs && e != "" && e !in sh.inflight
    {
      NewlyQueued(cfg, sh, epcs, e);
    }
    forall e
      ensures e in epcs && e != "" ==> Busy(EnqueueAll(cfg, sh, epcs), e) || e in DroppedBy(cfg, sh, epcs)
      ensures e in DroppedBy(cfg, sh, epcs) ==> e in epcs && e != ""
    {
      EachAccounted(cfg, sh, epcs, e);
    }
  }

  lemma DropIsReserved(cfg: Config, sh: Shared, epc: EPC)
    ensures var next := TryEnqueue(cfg, sh, epc);
            && Extends(sh, next)
            && (epc == "" || Busy(sh, epc) ==> next == sh)
            && (epc != "" && !Busy(sh, epc) && |sh.queue| < cfg.queueSize ==>
                  && next.queued == sh.queued + {epc} && next.queue == sh.queue + [epc] && epc !in sh.queued
                  && next.stats == sh.stats)
            && (epc != "" && !Busy(sh, epc) && |sh.queue| >= cfg.queueSize ==>
                  && next.queued == sh.queued && next.queue == sh.queue
                  && next.stats.queueDropped == sh.stats.queueDropped + 1)
  {
  }

  datatype Ingest = Invalid | ScanInactive | Miss | Queued | QueuedOrDropped

  /** `HandleEPC` from start to end. */
  function Handle(cfg: Config, sh: Shared, raw: string, now: int): (Shared, Ingest) {
    var epc := NormalizeEPC(raw);
    if epc == "" then (sh, Invalid)
    else
      var seen := NoteSeen(cfg, sh, epc, now);
      if !sh.scanActive then (seen, ScanInactive)
      else if epc !in sh.cache then (CountMiss(seen), Miss)
      else
        var hit := CountHit(seen);
        var after := TryEnqueue(cfg, hit, epc);
        (after, if after.queue != hit.queue then Queued else QueuedOrDropped)
  }

  /** Failed replies before the first answer. */
  function LeadingFailures(replies: seq<Reply>): nat
    decreases replies
  {
    if replies == [] || replies[0] != Failure then 0 else 1 + LeadingFailures(replies[1..])
  }

  lemma {:induction false} LeadingFailuresExact(replies: seq<Reply>)
    ensures LeadingFailures(replies) <= |replies|
    ensures forall k | 0 <= k < LeadingFailures(replies) :: replies[k] == Failure
    ensures LeadingFailures(replies) < |replies| ==> replies[LeadingFailures(replies)] != Failure
    decreases replies
  {
    if replies != [] { LeadingFailuresExact(replies[1..]); }
  }

  /** `processSubmit` from start to end, `replies` being what the ERP would answer. */
  function Process(sh: Shared, epc: EPC, replies: seq<Reply>): Shared {
    if epc == "" || epc !in sh.cache || epc in sh.inflight then sh
    else
      var k := LeadingFailures(replies);
      LeadingFailuresExact(replies);
      if k == |replies| then CountOutcome(sh, Failure)
      else CountOutcome(sh.(cache := sh.cache - {epc}), replies[k])
  }

  /** An EPC handed in without interruption by others is one `HandleEPC`. */
  lemma HandleIsCallerSteps(cfg: Config, sh: Shared, raw: string, now: int)
    requires NormalizeEPC(raw) != ""
    ensures var epc := NormalizeEPC(raw);
            Settled(cfg, NoteSeen(cfg, sh, epc, now), if sh.scanActive then Looking(epc) else Quiet)
            == Handle(cfg, sh, raw, now).0
  {
    hide GcRecentSeen, TryEnqueue, NormalizeEPC;
    var epc := NormalizeEPC(raw);
    var seen := NoteSeen(cfg, sh, epc, now);
    if sh.scanActive {
      assert Settled(cfg, seen, Looking(epc)) == Settled(cfg, seen, Answered(epc, epc in seen.cache));
      if epc in sh.cache {
        assert Settled(cfg, seen, Answered(epc, true)) == Settled(cfg, CountHit(seen), Enqueuing(epc));
        EnqueueIsCallerSteps(cfg, CountHit(seen), epc);
      } else {
        assert Settled(cfg, seen, Answered(epc, false)) == CountMiss(seen);
      }
    }
  }

  function Rank(pc: Worker): nat {
    match pc
    case Received(_) => 6
    case Cleared(_) => 5
    case Present(_) => 4
    case Calling(_, _) => 3
    case Removing(_, _) => 3
    case Telling(_, _) => 2
    case Unlocking(_) => 1
    case _ => 0
  }

  /** A worker of the transition system left alone until it is idle again; each ERP call takes
      the next reply. */
  function Worked(cfg: Config, sh: Shared, pc: Worker, replies: seq<Reply>): Shared
    decreases |replies|, Rank(pc)
  {
    if Rank(pc) == 0 || (pc.Calling? && replies == []) then sh
    else
      var m := WorkerNext(cfg, sh, 0, pc, if pc.Calling? then replies[0] else Failure);
      Worked(cfg, m.sh, m.pc, if pc.Calling? then replies[1..] else replies)
  }

  lemma WorkerFinishes(cfg: Config, sh: Shared, epc: EPC, reply: Reply, rest: seq<Reply>)
    ensures Worked(cfg, sh, Telling(epc, reply), rest)
         == CountOutcome(sh, reply).(inflight := sh.inflight - {epc})
    ensures Worked(cfg, sh, Removing(epc, reply), rest)
         == CountOutcome(sh, reply).(cache := sh.cache - {epc}, inflight := sh.inflight - {epc})
  {
    var told := CountOutcome(sh, reply);
    assert Worked(cfg, told, Unlocking(epc), rest) == told.(inflight := told.inflight - {epc});
    var removed := sh.(cache := sh.cache - {epc});
    var after := CountOutcome(removed, reply);
    assert Worked(cfg, after, Unlocking(epc), rest) == after.(inflight := after.inflight - {epc});
    assert Worked(cfg, removed, Telling(epc, reply), rest) == after.(inflight := after.inflight - {epc});
  }

  /** The attempts of a worker that holds the lock, from number `attempt` on. */
  lemma {:induction false} AttemptsWorked(cfg: Config, sh: Shared, epc: EPC, attempt: nat, replies: seq<Reply>)
    requires replies != [] && attempt + |replies| == cfg.submitRetry + 1
    ensures LeadingFailures(replies) <= |replies|
    ensures var k := LeadingFailures(replies);
            Worked(cfg, sh, Calling(epc, attempt), replies)
            == (if k == |replies| then CountOutcome(sh, Failure)
                else CountOutcome(sh, replies[k]).(cache := sh.cache - {epc})).(inflight := sh.inflight - {epc})
    decreases replies
  {
    hide CountOutcome;
    LeadingFailuresExact(replies);
    WorkerFinishes(cfg, sh, epc, if replies[0] == Failure then Failure else replies[0], replies[1..]);
    if replies[0] == Failure && |replies| > 1 {
      AttemptsWorked(cfg, sh, epc, attempt + 1, replies[1..]);
    }
  }

  /** A worker that nobody interrupts does one `processSubmit`. */
  lemma ProcessIsWorkerSteps(cfg: Config, sh: Shared, epc: EPC, replies: seq<Reply>)
    requires |replies| == cfg.submitRetry + 1 && "" !in sh.cache
    ensures Worked(cfg, sh, Cleared(epc), replies) == Process(sh, epc, replies)
  {
    hide LeadingFailures;
    assert Worked(cfg, sh, Idle, replies) == sh;
    if epc in sh.cache {
      assert Worked(cfg, sh, Cleared(epc), replies) == Worked(cfg, sh, Present(epc), replies);
      if epc !in sh.inflight {
        var locked := sh.(inflight := sh.inflight + {epc});
        assert Worked(cfg, sh, Present(epc), replies) == Worked(cfg, locked, Calling(epc, 0), replies);
        AttemptsWorked(cfg, locked, epc, 0, replies);
        LeadingFailuresExact(replies);
        assert locked.inflight - {epc} == sh.inflight;
      }
    }
  }

  // ---- The service ---------------------------------------------------------------------------------

  class Service {
    const cfg: Config
    const cache: Store
    var queue: seq<EPC>
    var queued: set<EPC>
    var inflight: set<EPC>
    var recentSeen: map<EPC, int>
    var scanActive: bool
    var stats: Stats

    ghost predicate Valid()
      reads this, cache
    {
      cache.Valid()
    }

    ghost function Core(): Shared
      reads this, cache
    {
      Shared(cache.epcs, queue, queued, inflight, recentSeen, scanActive, stats)
    }

    constructor (config: Config, store: Store, active: bool)
      requires store.Valid()
      ensures Valid() && cfg == config && cache == store
      ensures Core() == Shared(store.epcs, [], {}, {}, map[], active, Stats(0, 0, 0, 0, 0, 0, 0, 0))
    {
      cfg, cache := config, store;
      queue, queued, inflight, recentSeen, scanActive := [], {}, {}, map[], active;
      stats := Stats(0, 0, 0, 0, 0, 0, 0, 0);
    }

    method Enqueue(epc: EPC) returns (sent: bool)
      requires Valid()
      modifies this
      ensures Valid() && Core() == TryEnqueue(cfg, old(Core()), epc)
      ensures var free := epc != "" && epc !in old(queued) && epc !in old(inflight);
              && sent == (free && |old(queue)| < cfg.queueSize)
              && queue == (if sent then old(queue) + [epc] else old(queue))
              && queued == (if sent then old(queued) + {epc} else old(queued))
              && stats == (if free && !sent then old(stats).(queueDropped := old(stats).queueDropped + 1)
                           else old(stats))
              && inflight == old(inflight) && recentSeen == old(recentSeen) && scanActive == old(scanActive)
    {
      if epc == "" {
        return false;
      }
      if epc in queued {
        return false;
      }
      if epc in inflight {
        return false;
      }
      queued := queued + {epc};
      if |queue| < cfg.queueSize {
        queue := queue + [epc];
        return true;
      }
      queued := queued - {epc};
      assert queued == old(queued);
      stats := stats.(queueDropped := stats.queueDropped + 1);
      return false;
    }

    method GcSeen(now: int)
      requires Valid()
      modifies this
      ensures Valid() && Core() == old(Core()).(recentSeen := GcRecentSeen(cfg, old(recentSeen), now))
    {
      var rest := recentSeen.Keys;
      while rest != {}
        invariant Valid() && rest <= recentSeen.Keys <= old(recentSeen).Keys
        invariant Core() == old(Core()).(recentSeen := recentSeen)
        invariant forall e | e in recentSeen :: recentSeen[e] == old(recentSeen)[e]
        invariant forall e | e in old(recentSeen) && e !in rest ::
                    e in recentSeen <==> now - old(recentSeen)[e] <= cfg.recentSeenTTL
        decreases rest
      {
        var e :| e in rest;
        if now - recentSeen[e] > cfg.recentSeenTTL {
          recentSeen := recentSeen - {e};
        }
        rest := rest - {e};
      }
      assert recentSeen == GcRecentSeen(cfg, old(recentSeen), now);
    }

    /** The candidates for a replay, in no particular order. */
    method CollectReplayCandidates(now: int, focus: seq<EPC>) returns (out: seq<EPC>)
      requires Valid()
      modifies this
      ensures Valid() && Core() == old(Core()).(recentSeen := GcRecentSeen(cfg, old(recentSeen), now))
      ensures NoRepeats(out) && (set e | e in out) == Candidates(cfg, old(Core()), focus, now)
      ensures forall e :: e in out <==>
                && e in old(recentSeen) && now - old(recentSeen)[e] <= cfg.recentSeenTTL && e in cache.epcs
                && (e in focus || forall f | f in focus :: f == "")
    {
      var focusSet := Entries(focus);
      forall e ensures focusSet == {} || e in focusSet <==> (e in focus && e != "") || forall f | f in focus :: f == "" {
        FocusExact(focus, e);
      }
      GcSeen(now);
      out := [];
      var rest := recentSeen.Keys;
      while rest != {}
        invariant Valid() && rest <= recentSeen.Keys
        invariant Core() == old(Core()).(recentSeen := GcRecentSeen(cfg, old(recentSeen), now))
        invariant NoRepeats(out)
        invariant forall e :: e in out <==>
                    e in recentSeen && e !in rest && e in cache.epcs && (focusSet == {} || e in focusSet)
        decreases rest
      {
        var e :| e in rest;
        rest := rest - {e};
        if focusSet != {} && e !in focusSet {
          continue;
        }
        var present := cache.Has(e);
        if present {
          out := out + [e];
        }
      }
    }

    method EnqueueEach(epcs: seq<EPC>)
      requires Valid()
      modifies this
      ensures Valid() && Core() == EnqueueAll(cfg, old(Core()), epcs)
    {
      hide TryEnqueue;
      for k := 0 to |epcs|
        invariant Valid() && EnqueueAll(cfg, Core(), epcs[k..]) == EnqueueAll(cfg, old(Core()), epcs)
      {
        assert epcs[k..][1..] == epcs[k + 1..];
        var _ := Enqueue(epcs[k]);
      }
    }

    /** Switching scanning on replays what was seen while it was off. */
    method SetScanActive(active: bool, now: int) returns (replayed: nat, ghost order: seq<EPC>)
      requires Valid()
      modifies this
      ensures Valid() && scanActive == active
      ensures !(active && !old(scanActive)) ==>
                replayed == 0 && Core() == old(Core()).(scanActive := active)
      ensures active && !old(scanActive) ==>
                && NoRepeats(order) && (set e | e in order) == Candidates(cfg, old(Core()), [], now)
                && replayed == |order|
                && Core() == EnqueueAll(cfg, old(Core()).(scanActive := true,
                               recentSeen := GcRecentSeen(cfg, old(recentSeen), now)), order)
                && (forall e | e in Candidates(cfg, old(Core()), [], now) && e != "" ::
                      e in queued || e in inflight || e in DroppedBy(cfg, old(Core()).(scanActive := true,
                               recentSeen := GcRecentSeen(cfg, old(recentSeen), now)), order))
    {
      hide EnqueueAll, GcRecentSeen, DroppedBy;
      order := [];
      var becameActive := false;
      if scanActive != active {
        scanActive := active;
        becameActive := active;
      }
      if !becameActive {
        return 0, [];
      }
      assert Core() == old(Core()).(scanActive := true);
      var replay := CollectReplayCandidates(now, []);
      ghost var from := Core();
      EnqueueEach(replay);
      ReplayComplete(cfg, from, replay);
      return |replay|, replay;
    }

    /** A successful fetch replaces the cache and replays; a failed one changes nothing here. */
    method RefreshCache(fetched: Option<seq<EPC>>, now: int) returns (ok: bool, ghost order: seq<EPC>)
      requires Valid()
      modifies this, cache
      ensures Valid() && ok == fetched.Some?
      ensures !ok ==> Core() == old(Core())
      ensures ok ==>
                var filled := old(Core()).(cache := Entries(fetched.value));
                var ready := filled.(recentSeen := GcRecentSeen(cfg, old(recentSeen), now));
                && NoRepeats(order) && (set e | e in order) == Candidates(cfg, filled, fetched.value, now)
                && Core() == (if old(scanActive) then EnqueueAll(cfg, ready, order) else ready)
                && (old(scanActive) ==>
                      forall e | e in ready.recentSeen && e in ready.cache ::
                        e in queued || e in inflight || e in DroppedBy(cfg, ready, order))
    {
      hide EnqueueAll, GcRecentSeen, DroppedBy;
      order := [];
      if fetched.None? {
        return false, [];
      }
      cache.Replace(fetched.value);
      ghost var filled := Core();
      var replay := CollectReplayCandidates(now, fetched.value);
      ghost var ready := Core();
      if scanActive {
        EnqueueEach(replay);
        ReplayComplete(cfg, ready, replay);
        forall e | e in ready.recentSeen && e in ready.cache
          ensures e in queued || e in inflight || e in DroppedBy(cfg, ready, replay)
        {
          assert e in Candidates(cfg, filled, fetched.value, now);
          assert e in replay && e != "";
        }
      }
      return true, replay;
    }

    /** New drafts extend the cache and replay the tags among them. */
    method AddDraftEPCs(values: seq<string>, now: int) returns (added: nat, replayed: nat, ghost order: seq<EPC>)
      requires Valid()
      modifies this, cache
      ensures Valid()
      ensures var filled := old(Core()).(cache := old(cache.epcs) + NormalizedSet(values));
              var ready := filled.(recentSeen := GcRecentSeen(cfg, old(recentSeen), now));
              && added == |NormalizedSet(values) - old(cache.epcs)| && replayed == |order|
              && NoRepeats(order)
              && (exists clean ::
                    && (set e | e in clean) == NormalizedSet(values)
                    && (set e | e in order) == Candidates(cfg, filled, clean, now))
              && Core() == (if old(scanActive) then EnqueueAll(cfg, ready, order) else ready)
    {
      hide EnqueueAll, GcRecentSeen, DroppedBy, Candidates;
      var clean := NormalizeEPCList(values);
      assert Entries(clean) == NormalizedSet(values) by {
        assert "" !in NormalizedSet(values);
      }
      added := cache.Add(clean);
      var replay := CollectReplayCandidates(now, clean);
      if scanActive {
        EnqueueEach(replay);
      }
      replayed, order := |replay|, replay;
    }

    /** The first critical section of `HandleEPC`. */
    method NoteSighting(epc: EPC, now: int)
      requires Valid()
      modifies this
      ensures Valid() && Core() == NoteSeen(cfg, old(Core()), epc, now)
      ensures forall e :: e in recentSeen <==>
                if e == epc then 0 <= cfg.recentSeenTTL
                else e in old(recentSeen) && now - old(recentSeen)[e] <= cfg.recentSeenTTL
      ensures forall e | e in recentSeen :: recentSeen[e] == if e == epc then now else old(recentSeen)[e]
      ensures stats.seenTotal == old(stats).seenTotal + 1
      ensures stats.scanInactive == old(stats).scanInactive + Once(!scanActive)
    {
      hide GcRecentSeen;
      recentSeen := recentSeen[epc := now];
      GcExact(cfg, recentSeen, now);
      GcSeen(now);
      stats := stats.(seenTotal := stats.seenTotal + 1);
      if !scanActive {
        stats := stats.(scanInactive := stats.scanInactive + 1);
      }
    }

    method HandleEPC(raw: string, now: int) returns (action: Ingest)
      requires Valid()
      modifies this
      ensures Valid() && (Core(), action) == Handle(cfg, old(Core()), raw, now)
      ensures var epc := NormalizeEPC(raw);
              && action == (if epc == "" then Invalid
                            else if !old(scanActive) then ScanInactive
                            else if epc !in cache.epcs then Miss
                            else if epc !in old(queued) && epc !in old(inflight) && |old(queue)| < cfg.queueSize then Queued
                            else QueuedOrDropped)
              && queue == (if action == Queued then old(queue) + [epc] else old(queue))
              && stats.seenTotal == old(stats).seenTotal + Once(action != Invalid)
              && stats.scanInactive == old(stats).scanInactive + Once(action == ScanInactive)
              && stats.cacheMisses == old(stats).cacheMisses + Once(action == Miss)
              && stats.cacheHits == old(stats).cacheHits + Once(action == Queued || action == QueuedOrDropped)
      ensures var epc := NormalizeEPC(raw);
              if epc == "" then recentSeen == old(recentSeen)
              else
                && (forall e :: e in recentSeen <==>
                      if e == epc then 0 <= cfg.recentSeenTTL
                      else e in old(recentSeen) && now - old(recentSeen)[e] <= cfg.recentSeenTTL)
                && (forall e | e in recentSeen :: recentSeen[e] == if e == epc then now else old(recentSeen)[e])
    {
      hide NormalizeEPC, GcRecentSeen;
      var epc := NormalizeEPC(raw);
      if epc == "" {
        return Invalid;
      }
      NoteSighting(epc, now);
      if !scanActive {
        return ScanInactive;
      }
      var present := cache.Has(epc);
      if !present {
        stats := stats.(cacheMisses := stats.cacheMisses + 1);
        return Miss;
      }
      stats := stats.(cacheHits := stats.cacheHits + 1);
      var sent := Enqueue(epc);
      return if sent then Queued else QueuedOrDropped;
    }

    method LockInflight(epc: EPC) returns (locked: bool)
      requires Valid()
      modifies this`inflight
      ensures Valid() && locked == (epc !in old(inflight)) && inflight == old(inflight) + {epc}
    {
      if epc in inflight {
        return false;
      }
      inflight := inflight + {epc};
      return true;
    }

    /** Submits one EPC, trying again after a failure until the retries are used up. */
    method ProcessSubmit(epc: EPC, replies: seq<Reply>) returns (calls: nat, failed: bool)
      requires Valid() && |replies| == cfg.submitRetry + 1
      modifies this, cache
      ensures Valid() && Core() == Process(old(Core()), epc, replies)
      ensures failed == (calls == |replies| && LeadingFailures(replies) == |replies|)
      ensures epc in old(cache.epcs) && epc !in old(inflight) ==>
                calls == if failed then |replies| else LeadingFailures(replies) + 1
      ensures epc !in old(cache.epcs) || epc in old(inflight) ==> calls == 0 && !failed
      ensures calls == 0 ==> Core() == old(Core())
      ensures calls > 0 ==>
                var was := old(stats);
                && calls <= |replies| && (forall k | 0 <= k < calls - 1 :: replies[k] == Failure)
                && cache.epcs == (if failed then old(cache.epcs) else old(cache.epcs) - {epc})
                && stats == match replies[calls - 1]
                            case Submitted => was.(submittedOK := was.submittedOK + 1)
                            case NotFound => was.(submitNotFound := was.submitNotFound + 1)
                            case Failure => was.(submitErrors := was.submitErrors + 1)
    {
      calls, failed := 0, false;
      if epc == "" {
        return;
      }
      var present := cache.Has(epc);
      if !present {
        return;
      }
      var locked := LockInflight(epc);
      if !locked {
        return;
      }
      LeadingFailuresExact(replies);
      for attempt := 0 to cfg.submitRetry + 1
        invariant Valid() && attempt <= LeadingFailures(replies) && calls == attempt && !failed
        invariant Core() == old(Core()).(inflight := old(inflight) + {epc})
      {
        var reply := replies[attempt];
        calls := calls + 1;
        match reply {
          case Submitted =>
            cache.Remove(epc);
            stats := stats.(submittedOK := stats.submittedOK + 1);
            inflight := inflight - {epc};
            return;
          case NotFound =>
            cache.Remove(epc);
            stats := stats.(submitNotFound := stats.submitNotFound + 1);
            inflight := inflight - {epc};
            return;
          case Failure =>
        }
      }
      stats := stats.(submitErrors := stats.submitErrors + 1);
      inflight := inflight - {epc};
      failed := true;
    }

    /** One turn of a worker's loop: take an EPC from the channel and submit it. */
    method WorkerTurn(replies: seq<Reply>) returns (took: bool)
      requires Valid() && |replies| == cfg.submitRetry + 1
      modifies this, cache
      ensures Valid() && took == (old(queue) != [])
      ensures !took ==> Core() == old(Core())
      ensures took ==>
                var epc := old(queue)[0];
                Core() == Process(old(Core()).(queue := old(queue)[1..], queued := old(queued) - {epc}), epc, replies)
    {
      if queue == [] {
        return false;
      }
      var epc := queue[0];
      queue := queue[1..];
      queued := queued - {epc};
      assert Core() == old(Core()).(queue := old(queue)[1..], queued := old(queued) - {epc});
      var _, _ := ProcessSubmit(epc, replies);
      return true;
    }
  }
}
