/**
 What becomes of everything that enters the submit pipeline, over every interleaving: no
 EPC that was sent is lost or counted twice, the counters add up, and an error is counted
 only after every attempt has failed.
 */
module PipelineFate {
  import opened Wrappers
  import opened CacheStore
  import opened Pipeline
  import opened PipelineTokens

  // ---- Fates of sent EPCs ---------------------------------------------------------------------

  function SentOf(e: EPC): Event -> nat {
    (v: Event) => if v.Sent? then Same(e, v.epc) else 0
  }

  /** Taken by a worker and then left alone: gone from the cache, or already being submitted. */
  function SkippedOf(e: EPC): Event -> nat {
    (v: Event) => if v.Skipped? then Same(e, v.epc) else 0
  }

  function FinishedOf(e: EPC, outcome: Reply): Event -> nat {
    (v: Event) => if v.Finished? && v.outcome == outcome then Same(e, v.epc) else 0
  }

  /** Workers that have taken `e` and not yet skipped or counted it. */
  function Held(e: EPC): Worker -> nat {
    (w: Worker) =>
      match w
      case Received(f) => Same(e, f)
      case Cleared(f) => Same(e, f)
      case Present(f) => Same(e, f)
      case Calling(f, _) => Same(e, f)
      case Removing(f, _) => Same(e, f)
      case Telling(f, _) => Same(e, f)
      case _ => 0
  }

  /** How often `e` was skipped or counted as submitted, not found or failed. */
  function Ended(trace: seq<Event>, e: EPC): nat {
    Sum(trace, SkippedOf(e)) + Sum(trace, FinishedOf(e, Submitted))
    + Sum(trace, FinishedOf(e, NotFound)) + Sum(trace, FinishedOf(e, Failure))
  }

  predicate FateInv(s: State, e: EPC) {
    Sum(s.trace, SentOf(e)) == Slots(s.sh.queue, e) + Sum(s.workers, Held(e)) + Ended(s.trace, e)
  }

  lemma {:induction false} SumConcat<P>(xs: seq<P>, ys: seq<P>, f: P -> nat)
    ensures Sum(xs + ys, f) == Sum(xs, f) + Sum(ys, f)
    decreases ys
  {
    if ys == [] {
      assert xs + ys == xs;
    } else {
      assert (xs + ys)[..|xs + ys| - 1] == xs + ys[..|ys| - 1];
      SumConcat(xs, ys[..|ys| - 1], f);
    }
  }

  lemma EndedConcat(trace: seq<Event>, events: seq<Event>, e: EPC)
    ensures Ended(trace + events, e) == Ended(trace, e) + Ended(events, e)
  {
    hide Sum;
    SumConcat(trace, events, SkippedOf(e));
    SumConcat(trace, events, FinishedOf(e, Submitted));
    SumConcat(trace, events, FinishedOf(e, NotFound));
    SumConcat(trace, events, FinishedOf(e, Failure));
  }

  lemma SumOne<P>(x: P, f: P -> nat)
    ensures Sum([x], f) == f(x) && Sum<P>([], f) == 0
  {
    assert [x][..0] == [];
  }

  lemma EndedOne(v: Event, e: EPC)
    ensures Ended([v], e) == if v.Skipped? || v.Finished? then Same(e, v.epc) else 0
    ensures Ended([], e) == 0
  {
    hide Sum;
    SumOne(v, SkippedOf(e));
    SumOne(v, FinishedOf(e, Submitted));
    SumOne(v, FinishedOf(e, NotFound));
    SumOne(v, FinishedOf(e, Failure));
  }

  lemma CallerFate(cfg: Config, sh: Shared, pc: Caller, e: EPC)
    ensures var m := CallerNext(cfg, sh, pc);
            && Sum(m.events, SentOf(e)) + Slots(sh.queue, e) == Slots(m.sh.queue, e)
            && Ended(m.events, e) == 0
  {
    hide Ended, Slots, Sum;
    var m := CallerNext(cfg, sh, pc);
    var v := if m.events == [] then Sent("") else m.events[0];
    assert m.events != [] ==> m.events == [v];
    SumOne(v, SentOf(e));
    EndedOne(v, e);
    if pc.Reserved? { SlotsAppend(sh.queue, pc.epc, e); }
  }

  lemma WorkerFate(cfg: Config, sh: Shared, w: nat, pc: Worker, reply: Reply, e: EPC)
    ensures var m := WorkerNext(cfg, sh, w, pc, reply);
            && Sum(m.events, SentOf(e)) == 0
            && Slots(m.sh.queue, e) + Held(e)(m.pc) + Ended(m.events, e) == Slots(sh.queue, e) + Held(e)(pc)
  {
    hide Ended, Slots, Sum;
    var m := WorkerNext(cfg, sh, w, pc, reply);
    if sh.queue != [] { SlotsFirst(sh.queue, e); }
    if m.events == [] {
      SumOne(Sent(""), SentOf(e));
      EndedOne(Sent(""), e);
    } else {
      assert m.events == [m.events[0]];
      SumOne(m.events[0], SentOf(e));
      EndedOne(m.events[0], e);
    }
  }

  lemma FateStep(s: State, a: Action, e: EPC)
    requires FateInv(s, e)
    ensures FateInv(Apply(s, a), e)
  {
    hide CallerNext, WorkerNext, Sum, Slots, Ended;
    match a {
      case CallerStep(c) =>
        if c < |s.callers| {
          var m := CallerNext(s.cfg, s.sh, s.callers[c]);
          CallerFate(s.cfg, s.sh, s.callers[c], e);
          SumConcat(s.trace, m.events, SentOf(e));
          EndedConcat(s.trace, m.events, e);
        }
      case WorkerStep(w, reply) =>
        if w < |s.workers| {
          var m := WorkerNext(s.cfg, s.sh, w, s.workers[w], reply);
          WorkerFate(s.cfg, s.sh, w, s.workers[w], reply, e);
          SumConcat(s.trace, m.events, SentOf(e));
          EndedConcat(s.trace, m.events, e);
          SumUpdate(s.workers, w, m.pc, Held(e));
        }
      case StopWorker(w) => if w < |s.workers| { SumUpdate(s.workers, w, Stopped, Held(e)); }
      case Refill(epcs) => PlainEvent(s.trace, CacheChanged(s.sh.cache, epcs - {""}), e);
      case Append(epcs) => PlainEvent(s.trace, CacheChanged(s.sh.cache, s.sh.cache + (epcs - {""})), e);
      case See(c, f, now) => PlainEvent(s.trace, Noted(f, now, s.sh.scanActive), e);
      case Collect(now) => PlainEvent(s.trace, Collected(now), e);
      case _ =>
    }
  }

  lemma PlainEvent(trace: seq<Event>, v: Event, e: EPC)
    requires v.CacheChanged? || v.Noted? || v.Collected?
    ensures Sum(trace + [v], SentOf(e)) == Sum(trace, SentOf(e)) && Ended(trace + [v], e) == Ended(trace, e)
  {
    hide Sum, Ended;
    SumAppend(trace, v, SentOf(e));
    EndedConcat(trace, [v], e);
    EndedOne(v, e);
  }

  /** Conservation: however often an EPC was sent, that often it is in the channel, held by
      a worker, skipped, or counted under exactly one outcome. */
  lemma {:induction false} NothingLost(cfg: Config, actions: seq<Action>, e: EPC)
    ensures var s := Run(cfg, actions);
            Sum(s.trace, SentOf(e)) == Slots(s.sh.queue, e) + Sum(s.workers, Held(e)) + Ended(s.trace, e)
    decreases actions
  {
    hide Apply;
    if actions == [] {
      SumZero(Init(cfg).workers, Held(e));
    } else {
      NothingLost(cfg, actions[..|actions| - 1], e);
      FateStep(Run(cfg, actions[..|actions| - 1]), actions[|actions| - 1], e);
    }
  }

  // ---- Counters ---------------------------------------------------------------------------------

  function FinishedAs(outcome: Reply): Event -> nat {
    (v: Event) => if v.Finished? && v.outcome == outcome then 1 else 0
  }

  function Drops(): Event -> nat {
    (v: Event) => if v.Dropped? then 1 else 0
  }

  /** EPCs handed in, and those of them with scanning off. */
  function Sightings(): Event -> nat {
    (v: Event) => if v.Noted? then 1 else 0
  }

  function Inactive(): Event -> nat {
    (v: Event) => if v.Noted? && !v.active then 1 else 0
  }

  /** Questions to the cache that were answered this way. */
  function Looks(hit: bool): Event -> nat {
    (v: Event) => if v.Looked? && v.hit == hit then 1 else 0
  }

  /** Calls counted as seen whose hit or miss is not counted yet. */
  function Asking(): Caller -> nat {
    (c: Caller) => if c.Looking? || c.Answered? then 1 else 0
  }

  /** Calls that had this answer and have not counted it yet. */
  function Waiting(hit: bool): Caller -> nat {
    (c: Caller) => if c.Answered? && c.hit == hit then 1 else 0
  }

  predicate SeenCounted(s: State) {
    var st := s.sh.stats;
    && st.seenTotal == Sum(s.trace, Sightings()) && st.scanInactive == Sum(s.trace, Inactive())
    && st.seenTotal == st.scanInactive + st.cacheHits + st.cacheMisses + Sum(s.callers, Asking())
  }

  predicate LooksCounted(s: State, hit: bool) {
    (if hit then s.sh.stats.cacheHits else s.sh.stats.cacheMisses) + Sum(s.callers, Waiting(hit))
    == Sum(s.trace, Looks(hit))
  }

  predicate OutcomesCounted(s: State) {
    var st := s.sh.stats;
    && st.submittedOK == Sum(s.trace, FinishedAs(Submitted))
    && st.submitNotFound == Sum(s.trace, FinishedAs(NotFound))
    && st.submitErrors == Sum(s.trace, FinishedAs(Failure))
    && st.queueDropped == Sum(s.trace, Drops())
  }

  predicate CountersInv(s: State) {
    SeenCounted(s) && LooksCounted(s, true) && LooksCounted(s, false) && OutcomesCounted(s)
  }

  function Once(b: bool): nat {
    if b then 1 else 0
  }

  lemma CallerCounters(cfg: Config, sh: Shared, pc: Caller)
    ensures var m := CallerNext(cfg, sh, pc);
            var st, was := m.sh.stats, sh.stats;
            && (m.events == [] || (|m.events| == 1 && (m.events[0].Looked? || m.events[0].Sent? || m.events[0].Dropped?)))
            && st.seenTotal == was.seenTotal && st.scanInactive == was.scanInactive
            && st.cacheHits + st.cacheMisses + Asking()(m.pc) == was.cacheHits + was.cacheMisses + Asking()(pc)
            && st.cacheHits + Waiting(true)(m.pc)
               == was.cacheHits + Waiting(true)(pc) + Once(m.events != [] && m.events[0].Looked? && m.events[0].hit)
            && st.cacheMisses + Waiting(false)(m.pc)
               == was.cacheMisses + Waiting(false)(pc) + Once(m.events != [] && m.events[0].Looked? && !m.events[0].hit)
            && st.submittedOK == was.submittedOK && st.submitNotFound == was.submitNotFound
            && st.submitErrors == was.submitErrors
            && st.queueDropped == was.queueDropped + Once(m.events != [] && m.events[0].Dropped?)
  {
  }

  /** The events that belong to a worker. */
  predicate OfWorker(v: Event) {
    v.Taken? || v.Skipped? || v.Locked? || v.CallFailed? || v.CallAnswered? || v.Removal? || v.Finished?
  }

  lemma WorkerCounters(cfg: Config, sh: Shared, w: nat, pc: Worker, reply: Reply)
    ensures var m := WorkerNext(cfg, sh, w, pc, reply);
            && m.sh.stats == (if pc.Telling? then CountOutcome(sh, pc.reply).stats else sh.stats)
            && (pc.Telling? ==> m.events == [Finished(w, pc.epc, pc.reply)])
            && (!pc.Telling? ==> m.events == [] || (|m.events| == 1 && !m.events[0].Finished?))
            && (m.events != [] ==> OfWorker(m.events[0]) && m.events[0].worker == w)
  {
  }

  lemma CallersCounted(callers: seq<Caller>, c: nat, pc: Caller, f: Caller -> nat)
    ensures c < |callers| ==> Sum(callers[c := pc], f) == Sum(callers, f) - f(callers[c]) + f(pc)
  {
    if c < |callers| { SumUpdate(callers, c, pc, f); }
  }

  /** The event an action of the system itself leaves in the trace, if any. */
  function SystemEvents(s: State, a: Action): (events: seq<Event>)
    ensures |events| <= 1
  {
    match a
    case See(_, e, now) => [Noted(e, now, s.sh.scanActive)]
    case Refill(epcs) => [CacheChanged(s.sh.cache, epcs - {""})]
    case Append(epcs) => [CacheChanged(s.sh.cache, s.sh.cache + (epcs - {""}))]
    case Collect(now) => [Collected(now)]
    case _ => []
  }

  lemma SeenStep(s: State, a: Action)
    requires SeenCounted(s)
    ensures SeenCounted(Apply(s, a))
  {
    hide CallerNext, WorkerNext, Sum, GcRecentSeen;
    SumLast(s.trace, SystemEvents(s, a), Sightings());
    SumLast(s.trace, SystemEvents(s, a), Inactive());
    match a {
      case Spawn => SumAppend(s.callers, Quiet, Asking());
      case See(c, f, _) => CallersCounted(s.callers, c, if s.sh.scanActive then Looking(f) else Quiet, Asking());
      case Replay(c, f) => CallersCounted(s.callers, c, Enqueuing(f), Asking());
      case CallerStep(c) =>
        if c < |s.callers| {
          var m := CallerNext(s.cfg, s.sh, s.callers[c]);
          CallerCounters(s.cfg, s.sh, s.callers[c]);
          SumLast(s.trace, m.events, Sightings());
          SumLast(s.trace, m.events, Inactive());
          CallersCounted(s.callers, c, m.pc, Asking());
        }
      case WorkerStep(w, reply) =>
        if w < |s.workers| {
          var m := WorkerNext(s.cfg, s.sh, w, s.workers[w], reply);
          WorkerCounters(s.cfg, s.sh, w, s.workers[w], reply);
          SumLast(s.trace, m.events, Sightings());
          SumLast(s.trace, m.events, Inactive());
        }
      case _ =>
    }
  }

  lemma LooksStep(s: State, a: Action, hit: bool)
    requires LooksCounted(s, hit)
    ensures LooksCounted(Apply(s, a), hit)
  {
    hide CallerNext, WorkerNext, Sum, GcRecentSeen;
    SumLast(s.trace, SystemEvents(s, a), Looks(hit));
    match a {
      case Spawn => SumAppend(s.callers, Quiet, Waiting(hit));
      case See(c, f, _) => CallersCounted(s.callers, c, if s.sh.scanActive then Looking(f) else Quiet, Waiting(hit));
      case Replay(c, f) => CallersCounted(s.callers, c, Enqueuing(f), Waiting(hit));
      case CallerStep(c) =>
        if c < |s.callers| {
          var m := CallerNext(s.cfg, s.sh, s.callers[c]);
          CallerCounters(s.cfg, s.sh, s.callers[c]);
          SumLast(s.trace, m.events, Looks(hit));
          CallersCounted(s.callers, c, m.pc, Waiting(hit));
        }
      case WorkerStep(w, reply) =>
        if w < |s.workers| {
          WorkerCounters(s.cfg, s.sh, w, s.workers[w], reply);
          SumLast(s.trace, WorkerNext(s.cfg, s.sh, w, s.workers[w], reply).events, Looks(hit));
        }
      case _ =>
    }
  }

  lemma OutcomesAppend(trace: seq<Event>, events: seq<Event>)
    requires |events| <= 1
    ensures Sum(trace + events, Drops()) == Sum(trace, Drops()) + Once(events != [] && events[0].Dropped?)
    ensures forall outcome: Reply ::
              Sum(trace + events, FinishedAs(outcome)) == Sum(trace, FinishedAs(outcome))
              + Once(events != [] && events[0].Finished? && events[0].outcome == outcome)
  {
    hide Sum;
    SumLast(trace, events, Drops());
    forall outcome: Reply
      ensures Sum(trace + events, FinishedAs(outcome)) == Sum(trace, FinishedAs(outcome))
              + Once(events != [] && events[0].Finished? && events[0].outcome == outcome)
    {
      SumLast(trace, events, FinishedAs(outcome));
    }
  }

  lemma OutcomesStep(s: State, a: Action)
    requires OutcomesCounted(s)
    ensures OutcomesCounted(Apply(s, a))
  {
    hide CallerNext, WorkerNext, Sum, GcRecentSeen, Drops, FinishedAs;
    OutcomesAppend(s.trace, SystemEvents(s, a));
    match a {
      case CallerStep(c) =>
        if c < |s.callers| {
          CallerCounters(s.cfg, s.sh, s.callers[c]);
          OutcomesAppend(s.trace, CallerNext(s.cfg, s.sh, s.callers[c]).events);
        }
      case WorkerStep(w, reply) =>
        if w < |s.workers| {
          WorkerCounters(s.cfg, s.sh, w, s.workers[w], reply);
          OutcomesAppend(s.trace, WorkerNext(s.cfg, s.sh, w, s.workers[w], reply).events);
        }
      case _ =>
    }
  }

  /** The counters add up in every reachable state.  Each is the number of its events: EPCs handed
      in, those of them with scanning off, hits and misses, up to calls that have their answer and
      are about to count it, outcomes and drops.  And every EPC seen is inactive, a hit, a miss or a
      call still in progress. */
  lemma {:induction false} CountersAddUp(cfg: Config, actions: seq<Action>)
    ensures CountersInv(Run(cfg, actions))
    decreases actions
  {
    hide SeenCounted, LooksCounted, OutcomesCounted, Apply;
    if actions == [] {
      assert CountersInv(Init(cfg)) by { CountersInitially(cfg); }
    } else {
      CountersAddUp(cfg, actions[..|actions| - 1]);
      var (before, last) := (Run(cfg, actions[..|actions| - 1]), actions[|actions| - 1]);
      SeenStep(before, last);
      LooksStep(before, last, true);
      LooksStep(before, last, false);
      OutcomesStep(before, last);
    }
  }

  lemma CountersInitially(cfg: Config)
    ensures CountersInv(Init(cfg))
  {
  }

  // ---- Retries -----------------------------------------------------------------------------------

  /** The ERP calls of a worker since it last locked an EPC: how many failed, and how the last
      one ended. */
  datatype Calls = Calls(failed: nat, last: Option<Reply>)

  function CallsOf(trace: seq<Event>, w: nat): Calls
    decreases trace
  {
    if trace == [] then Calls(0, None) else OneCall(CallsOf(trace[..|trace| - 1], w), trace[|trace| - 1], w)
  }

  function OneCall(calls: Calls, v: Event, w: nat): Calls {
    if v.Locked? && v.worker == w then Calls(0, None)
    else if v.CallFailed? && v.worker == w then Calls(calls.failed + 1, Some(Failure))
    else if v.CallAnswered? && v.worker == w then Calls(calls.failed, Some(v.reply))
    else calls
  }

  lemma CallsAppend(trace: seq<Event>, v: Event, w: nat)
    ensures CallsOf(trace + [v], w) == OneCall(CallsOf(trace, w), v, w)
  {
    assert (trace + [v])[..|trace|] == trace;
  }

  /** The outcome counted is how the last call ended, and the right number of failed calls is behind
      it: all of them for an error, at most `SubmitRetry` for an answer. */
  predicate HonestOutcome(cfg: Config, outcome: Reply, calls: Calls) {
    && calls.last == Some(outcome)
    && if outcome == Failure then calls.failed == cfg.submitRetry + 1 else calls.failed <= cfg.submitRetry
  }

  predicate HonestWorker(cfg: Config, pc: Worker, calls: Calls) {
    match pc
    case Calling(_, attempt) => calls.failed == attempt <= cfg.submitRetry
    case Removing(_, reply) => reply != Failure && HonestOutcome(cfg, reply, calls)
    case Telling(_, outcome) => HonestOutcome(cfg, outcome, calls)
    case _ => true
  }

  predicate HonestTrace(cfg: Config, trace: seq<Event>) {
    forall k | 0 <= k < |trace| && trace[k].Finished? ::
      HonestOutcome(cfg, trace[k].outcome, CallsOf(trace[..k], trace[k].worker))
  }

  predicate RetryInv(s: State) {
    && (forall w | 0 <= w < |s.workers| :: HonestWorker(s.cfg, s.workers[w], CallsOf(s.trace, w)))
    && HonestTrace(s.cfg, s.trace)
  }

  lemma HonestAppend(cfg: Config, trace: seq<Event>, v: Event)
    requires HonestTrace(cfg, trace)
    requires v.Finished? ==> HonestOutcome(cfg, v.outcome, CallsOf(trace, v.worker))
    ensures HonestTrace(cfg, trace + [v])
  {
    hide CallsOf, HonestOutcome;
    var longer := trace + [v];
    forall k | 0 <= k < |longer| && longer[k].Finished?
      ensures HonestOutcome(cfg, longer[k].outcome, CallsOf(longer[..k], longer[k].worker))
    {
      assert longer[..k] == if k < |trace| then trace[..k] else trace;
    }
  }

  /** A worker's own step keeps it honest, and no other worker notices. */
  lemma WorkerHonest(cfg: Config, sh: Shared, w: nat, pc: Worker, reply: Reply, trace: seq<Event>)
    requires HonestWorker(cfg, pc, CallsOf(trace, w)) && HonestTrace(cfg, trace)
    ensures var m := WorkerNext(cfg, sh, w, pc, reply);
            && HonestWorker(cfg, m.pc, CallsOf(trace + m.events, w)) && HonestTrace(cfg, trace + m.events)
            && forall v: nat | v != w :: CallsOf(trace + m.events, v) == CallsOf(trace, v)
  {
    hide CallsOf, HonestTrace;
    var m := WorkerNext(cfg, sh, w, pc, reply);
    if m.events == [] {
      assert trace + m.events == trace;
    } else {
      var v := m.events[0];
      assert m.events == [v];
      CallsAppend(trace, v, w);
      HonestAppend(cfg, trace, v);
      forall u: nat | u != w ensures CallsOf(trace + m.events, u) == CallsOf(trace, u) {
        CallsAppend(trace, v, u);
      }
    }
  }

  lemma QuietEvents(cfg: Config, trace: seq<Event>, events: seq<Event>)
    requires HonestTrace(cfg, trace) && |events| <= 1
    requires events != [] ==> !OfWorker(events[0])
    ensures HonestTrace(cfg, trace + events) && forall w: nat :: CallsOf(trace + events, w) == CallsOf(trace, w)
  {
    hide CallsOf, HonestTrace;
    if events == [] {
      assert trace + events == trace;
    } else {
      assert events == [events[0]];
      HonestAppend(cfg, trace, events[0]);
      forall w: nat ensures CallsOf(trace + events, w) == CallsOf(trace, w) {
        CallsAppend(trace, events[0], w);
      }
    }
  }

  lemma RetryStep(s: State, a: Action)
    requires RetryInv(s)
    ensures RetryInv(Apply(s, a))
  {
    hide CallerNext, WorkerNext, CallsOf, HonestTrace;
    match a {
      case CallerStep(c) =>
        if c < |s.callers| {
          CallerCounters(s.cfg, s.sh, s.callers[c]);
          QuietEvents(s.cfg, s.trace, CallerNext(s.cfg, s.sh, s.callers[c]).events);
        }
      case WorkerStep(w, reply) =>
        if w < |s.workers| { WorkerHonest(s.cfg, s.sh, w, s.workers[w], reply, s.trace); }
      case Refill(epcs) => QuietEvents(s.cfg, s.trace, [CacheChanged(s.sh.cache, epcs - {""})]);
      case Append(epcs) => QuietEvents(s.cfg, s.trace, [CacheChanged(s.sh.cache, s.sh.cache + (epcs - {""}))]);
      case See(c, f, now) => QuietEvents(s.cfg, s.trace, [Noted(f, now, s.sh.scanActive)]);
      case Collect(now) => QuietEvents(s.cfg, s.trace, [Collected(now)]);
      case _ =>
    }
  }

  /** Over every run an error is counted only after exactly `SubmitRetry + 1` failed calls by
      that worker since it locked the EPC, and an answer after at most `SubmitRetry` and as the
      answer it was. */
  lemma {:induction false} ErrorsAreExhausted(cfg: Config, actions: seq<Action>)
    ensures RetryInv(Run(cfg, actions)) && HonestTrace(cfg, Run(cfg, actions).trace)
    decreases actions
  {
    hide RetryInv, HonestTrace, Apply;
    TokensAlways(cfg, actions);
    if actions == [] {
      assert RetryInv(Init(cfg)) by { RetryInitially(cfg); }
    } else {
      ErrorsAreExhausted(cfg, actions[..|actions| - 1]);
      RetryStep(Run(cfg, actions[..|actions| - 1]), actions[|actions| - 1]);
    }
    RetryMeansHonest(Run(cfg, actions));
  }

  lemma RetryMeansHonest(s: State)
    requires RetryInv(s)
    ensures HonestTrace(s.cfg, s.trace)
  {
  }

  lemma RetryInitially(cfg: Config)
    ensures RetryInv(Init(cfg))
  {
  }
}
