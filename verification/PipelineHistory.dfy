/**
 The shared state of the submit pipeline as its history: over every interleaving the cache, the
 channel and the memory of recent sightings are what the events so far say.
 */
module PipelineHistory {
  import opened CacheStore
  import opened Pipeline
  import opened PipelineFate

  // ---- One step of any kind ------------------------------------------------------------------

  /** The events of one action, if it applies. */
  function EventsOf(s: State, a: Action): seq<Event> {
    match a
    case CallerStep(c) => if c < |s.callers| then CallerNext(s.cfg, s.sh, s.callers[c]).events else []
    case WorkerStep(w, reply) =>
      if w < |s.workers| then WorkerNext(s.cfg, s.sh, w, s.workers[w], reply).events else []
    case See(c, e, _) =>
      if c < |s.callers| && s.callers[c] == Quiet && e != "" then SystemEvents(s, a) else []
    case _ => SystemEvents(s, a)
  }

  lemma StepEvents(s: State, a: Action)
    ensures Apply(s, a).trace == s.trace + EventsOf(s, a) && |EventsOf(s, a)| <= 1 && Apply(s, a).cfg == s.cfg
  {
    hide GcRecentSeen;
    assert s.trace + [] == s.trace;
  }

  // ---- The cache -----------------------------------------------------------------------------

  function CacheAfter(cache: set<EPC>, v: Event): set<EPC> {
    match v
    case CacheChanged(_, after) => after
    case Removal(_, e) => cache - {e}
    case _ => cache
  }

  /** The cache as its changes and the removals after ERP answers leave it. */
  function CacheOf(trace: seq<Event>): set<EPC>
    decreases trace
  {
    if trace == [] then {} else CacheAfter(CacheOf(trace[..|trace| - 1]), trace[|trace| - 1])
  }

  /** The event tells the truth about the cache it was recorded at. */
  predicate TrueOf(v: Event, cache: set<EPC>) {
    match v
    case Looked(e, hit) => hit == (e in cache)
    case CacheChanged(before, _) => before == cache
    case _ => true
  }

  predicate Truthful(trace: seq<Event>) {
    forall k | 0 <= k < |trace| :: TrueOf(trace[k], CacheOf(trace[..k]))
  }

  lemma TruthfulAppend(trace: seq<Event>, events: seq<Event>)
    requires Truthful(trace) && |events| <= 1 && forall v | v in events :: TrueOf(v, CacheOf(trace))
    ensures Truthful(trace + events)
    ensures CacheOf(trace + events) == if events == [] then CacheOf(trace) else CacheAfter(CacheOf(trace), events[0])
  {
    hide CacheOf, TrueOf;
    var longer := trace + events;
    forall k | 0 <= k < |longer|
      ensures TrueOf(longer[k], CacheOf(longer[..k]))
    {
      assert longer[..k] == if k < |trace| then trace[..k] else trace;
    }
    if events == [] {
      assert longer == trace;
    } else {
      assert longer[..|longer| - 1] == trace;
      LastChange(longer);
    }
  }

  lemma LastChange(trace: seq<Event>)
    requires trace != []
    ensures CacheOf(trace) == CacheAfter(CacheOf(trace[..|trace| - 1]), trace[|trace| - 1])
  {
  }

  lemma CallerKeeps(cfg: Config, sh: Shared, pc: Caller)
    ensures var m := CallerNext(cfg, sh, pc);
            && m.sh.cache == sh.cache && m.sh.recentSeen == sh.recentSeen
            && |m.events| <= 1
            && (m.events != [] ==>
                  var v := m.events[0];
                  && (v.Looked? || v.Sent? || v.Dropped?)
                  && (v.Looked? ==> v.hit == (v.epc in sh.cache)))
  {
  }

  lemma WorkerKeeps(cfg: Config, sh: Shared, w: nat, pc: Worker, reply: Reply)
    ensures var m := WorkerNext(cfg, sh, w, pc, reply);
            && m.sh.recentSeen == sh.recentSeen && m.sh.cache <= sh.cache
            && |m.events| <= 1 && (m.events != [] ==> OfWorker(m.events[0]))
            && m.sh.cache == if m.events == [] then sh.cache else CacheAfter(sh.cache, m.events[0])
  {
  }

  lemma CacheStep(s: State, a: Action)
    ensures var events := EventsOf(s, a);
            && (forall v | v in events :: TrueOf(v, s.sh.cache))
            && Apply(s, a).sh.cache == if events == [] then s.sh.cache else CacheAfter(s.sh.cache, events[0])
  {
    hide GcRecentSeen, CallerNext, WorkerNext;
    StepEvents(s, a);
    match a {
      case CallerStep(c) => if c < |s.callers| { CallerKeeps(s.cfg, s.sh, s.callers[c]); }
      case WorkerStep(w, reply) => if w < |s.workers| { WorkerKeeps(s.cfg, s.sh, w, s.workers[w], reply); }
      case _ =>
    }
  }

  /** Over every run the cache is what the history says, and every hit and miss was one. */
  lemma {:induction false} CacheIsHistory(cfg: Config, actions: seq<Action>)
    ensures var s := Run(cfg, actions); s.sh.cache == CacheOf(s.trace) && Truthful(s.trace)
    decreases actions
  {
    hide Apply, CacheOf, EventsOf, TrueOf, Truthful;
    if actions == [] {
      NothingYet(cfg);
    } else {
      var (before, last) := (Run(cfg, actions[..|actions| - 1]), actions[|actions| - 1]);
      CacheIsHistory(cfg, actions[..|actions| - 1]);
      StepEvents(before, last);
      CacheStep(before, last);
      TruthfulAppend(before.trace, EventsOf(before, last));
    }
  }

  lemma NothingYet(cfg: Config)
    ensures Init(cfg).sh.cache == CacheOf(Init(cfg).trace) && Truthful(Init(cfg).trace)
  {
  }

  // ---- The channel ---------------------------------------------------------------------------

  function SentBy(v: Event): seq<EPC> { if v.Sent? then [v.epc] else [] }

  function TakenBy(v: Event): seq<EPC> { if v.Taken? then [v.epc] else [] }

  /** The EPCs sent, and those taken by workers, in order. */
  function Sends(trace: seq<Event>): seq<EPC>
    decreases trace
  {
    if trace == [] then [] else Sends(trace[..|trace| - 1]) + SentBy(trace[|trace| - 1])
  }

  function Takes(trace: seq<Event>): seq<EPC>
    decreases trace
  {
    if trace == [] then [] else Takes(trace[..|trace| - 1]) + TakenBy(trace[|trace| - 1])
  }

  /** What an event says was put into the channel, and what was taken out of it. */
  predicate Passed(queue: seq<EPC>, events: seq<Event>, after: seq<EPC>) {
    if events == [] then after == queue
    else queue + SentBy(events[0]) == TakenBy(events[0]) + after
  }

  lemma CallerPasses(cfg: Config, sh: Shared, pc: Caller)
    ensures var m := CallerNext(cfg, sh, pc); Passed(sh.queue, m.events, m.sh.queue)
  {
    assert sh.queue + [] == sh.queue && [] + sh.queue == sh.queue;
  }

  lemma WorkerPasses(cfg: Config, sh: Shared, w: nat, pc: Worker, reply: Reply)
    ensures var m := WorkerNext(cfg, sh, w, pc, reply); Passed(sh.queue, m.events, m.sh.queue)
  {
    var queue := sh.queue;
    WorkerTakes(cfg, sh, w, pc, reply);
    hide WorkerNext;
    assert queue + [] == queue && [] + queue == queue;
    if queue != [] {
      assert queue == [queue[0]] + queue[1..];
    }
  }

  lemma WorkerTakes(cfg: Config, sh: Shared, w: nat, pc: Worker, reply: Reply)
    ensures var m, takes := WorkerNext(cfg, sh, w, pc, reply), pc == Idle && sh.queue != [];
            && m.sh.queue == (if takes then sh.queue[1..] else sh.queue)
            && (m.events != [] ==> SentBy(m.events[0]) == [])
            && (takes ==> m.events == [Taken(w, sh.queue[0])])
            && (!takes && m.events != [] ==> TakenBy(m.events[0]) == [])
  {
  }

  lemma ChannelStep(s: State, a: Action)
    ensures Passed(s.sh.queue, EventsOf(s, a), Apply(s, a).sh.queue)
  {
    hide CallerNext, WorkerNext, GcRecentSeen;
    match a {
      case CallerStep(c) => if c < |s.callers| { CallerPasses(s.cfg, s.sh, s.callers[c]); }
      case WorkerStep(w, reply) => if w < |s.workers| { WorkerPasses(s.cfg, s.sh, w, s.workers[w], reply); }
      case _ => assert s.sh.queue + [] == s.sh.queue && [] + s.sh.queue == s.sh.queue;
    }
  }

  lemma PassedOn(trace: seq<Event>, events: seq<Event>, queue: seq<EPC>, after: seq<EPC>)
    requires |events| <= 1 && Passed(queue, events, after) && Sends(trace) == Takes(trace) + queue
    ensures Sends(trace + events) == Takes(trace + events) + after
  {
    hide SentBy, TakenBy, Sends, Takes;
    if events == [] {
      assert trace + events == trace;
    } else {
      assert trace + events == trace + [events[0]];
      OneMoreEvent(trace, events[0]);
      Reassociate(Takes(trace), queue, SentBy(events[0]), TakenBy(events[0]), after);
    }
  }

  lemma OneMoreEvent(trace: seq<Event>, v: Event)
    ensures Sends(trace + [v]) == Sends(trace) + SentBy(v) && Takes(trace + [v]) == Takes(trace) + TakenBy(v)
  {
    assert (trace + [v])[..|trace|] == trace;
  }

  lemma Reassociate(t: seq<EPC>, queue: seq<EPC>, sent: seq<EPC>, taken: seq<EPC>, after: seq<EPC>)
    requires queue + sent == taken + after
    ensures (t + queue) + sent == (t + taken) + after
  {
    assert (t + queue) + sent == t + (queue + sent);
    assert (t + taken) + after == t + (taken + after);
  }

  /** First in, first out: over every run the EPCs sent are those taken followed by the channel. */
  lemma {:induction false} FirstInFirstOut(cfg: Config, actions: seq<Action>)
    ensures var s := Run(cfg, actions); Sends(s.trace) == Takes(s.trace) + s.sh.queue
    decreases actions
  {
    hide Apply, EventsOf, Passed, Sends, Takes;
    if actions == [] {
      NothingSent();
    } else {
      var (before, last) := (Run(cfg, actions[..|actions| - 1]), actions[|actions| - 1]);
      FirstInFirstOut(cfg, actions[..|actions| - 1]);
      StepEvents(before, last);
      ChannelStep(before, last);
      PassedOn(before.trace, EventsOf(before, last), before.sh.queue, Apply(before, last).sh.queue);
    }
  }

  lemma NothingSent()
    ensures Sends([]) == [] && Takes([]) == []
  {
  }

  // ---- Recent sightings ----------------------------------------------------------------------

  /** Event `k` is the last time `e` was handed in. */
  predicate LastNote(trace: seq<Event>, e: EPC, k: nat) {
    && k < |trace| && trace[k].Noted? && trace[k].epc == e
    && forall j | k < j < |trace| && trace[j].Noted? :: trace[j].epc != e
  }

  /** From then on no clock reading of the service was more than the TTL later. */
  predicate Fresh(ttl: int, trace: seq<Event>, k: nat)
    requires k < |trace| && trace[k].Noted?
  {
    forall j | k <= j < |trace| && (trace[j].Noted? || trace[j].Collected?) :: trace[j].now - trace[k].now <= ttl
  }

  function TimeOf(trace: seq<Event>, k: nat): int {
    if k < |trace| && trace[k].Noted? then trace[k].now else 0
  }

  predicate Remembered(ttl: int, trace: seq<Event>, e: EPC, k: nat) {
    LastNote(trace, e, k) && Fresh(ttl, trace, k)
  }

  /** `seen` remembers `e` exactly while its last sighting is fresh, with the time of that sighting. */
  ghost predicate Recalls(ttl: int, trace: seq<Event>, seen: map<EPC, int>, e: EPC) {
    && (e in seen <==> exists k: nat :: Remembered(ttl, trace, e, k))
    && forall k: nat | Remembered(ttl, trace, e, k) :: e in seen && seen[e] == TimeOf(trace, k)
  }

  /** The memory after one more event. */
  function SeenAfter(cfg: Config, seen: map<EPC, int>, v: Event): map<EPC, int> {
    match v
    case Noted(f, now, _) => GcRecentSeen(cfg, seen[f := now], now)
    case Collected(now) => GcRecentSeen(cfg, seen, now)
    case _ => seen
  }

  /** How one more event changes which sighting of `e` is remembered. */
  lemma RememberedAppend(ttl: int, trace: seq<Event>, v: Event, e: EPC, k: nat)
    ensures Remembered(ttl, trace + [v], e, k) <==>
            if v.Noted? && v.epc == e then k == |trace| && 0 <= ttl
            else Remembered(ttl, trace, e, k) && (v.Noted? || v.Collected? ==> v.now - TimeOf(trace, k) <= ttl)
  {
    var longer := trace + [v];
    assert longer[|trace|] == v;
    if k < |trace| {
      assert forall j | k < j < |trace| :: longer[j] == trace[j];
    }
  }

  lemma RecallsAppend(cfg: Config, trace: seq<Event>, seen: map<EPC, int>, v: Event, e: EPC)
    requires Recalls(cfg.recentSeenTTL, trace, seen, e)
    ensures Recalls(cfg.recentSeenTTL, trace + [v], SeenAfter(cfg, seen, v), e)
  {
    hide Remembered;
    var ttl, longer, after := cfg.recentSeenTTL, trace + [v], SeenAfter(cfg, seen, v);
    forall k: nat
      ensures Remembered(ttl, longer, e, k) <==>
              if v.Noted? && v.epc == e then k == |trace| && 0 <= ttl
              else Remembered(ttl, trace, e, k) && (v.Noted? || v.Collected? ==> v.now - TimeOf(trace, k) <= ttl)
      ensures Remembered(ttl, trace, e, k) ==> k < |trace|
      ensures k < |trace| ==> TimeOf(longer, k) == TimeOf(trace, k)
    {
      RememberedAppend(ttl, trace, v, e, k);
      RememberedInside(ttl, trace, e, k);
    }
    if e in after && v.Noted? && v.epc == e {
      assert Remembered(ttl, longer, e, |trace|);
    } else if e in after {
      var k: nat :| Remembered(ttl, trace, e, k);
      assert Remembered(ttl, longer, e, k);
    }
  }

  lemma RememberedInside(ttl: int, trace: seq<Event>, e: EPC, k: nat)
    ensures Remembered(ttl, trace, e, k) ==> k < |trace|
  {
  }

  lemma SeenStep(s: State, a: Action)
    ensures var events := EventsOf(s, a);
            Apply(s, a).sh.recentSeen
            == if events == [] then s.sh.recentSeen else SeenAfter(s.cfg, s.sh.recentSeen, events[0])
  {
    hide GcRecentSeen, CallerNext, WorkerNext;
    match a {
      case CallerStep(c) => if c < |s.callers| { CallerKeeps(s.cfg, s.sh, s.callers[c]); }
      case WorkerStep(w, reply) => if w < |s.workers| { WorkerKeeps(s.cfg, s.sh, w, s.workers[w], reply); }
      case _ =>
    }
  }

  /** Over every run exactly the EPCs whose last sighting is still fresh are remembered, each with
      the time it was last handed in. */
  lemma {:induction false} RecentIsHistory(cfg: Config, actions: seq<Action>, e: EPC)
    ensures var s := Run(cfg, actions);
            s.cfg == cfg && Recalls(cfg.recentSeenTTL, s.trace, s.sh.recentSeen, e)
    decreases actions
  {
    hide Apply, EventsOf, SeenAfter, Recalls;
    if actions == [] {
      NothingRecent(cfg, e);
    } else {
      var (before, last) := (Run(cfg, actions[..|actions| - 1]), actions[|actions| - 1]);
      RecentIsHistory(cfg, actions[..|actions| - 1], e);
      StepEvents(before, last);
      SeenStep(before, last);
      var events := EventsOf(before, last);
      if events == [] {
        assert before.trace + events == before.trace;
      } else {
        assert events == [events[0]];
        RecallsAppend(cfg, before.trace, before.sh.recentSeen, events[0], e);
      }
    }
  }

  lemma NothingRecent(cfg: Config, e: EPC)
    ensures Recalls(cfg.recentSeenTTL, Init(cfg).trace, Init(cfg).sh.recentSeen, e)
  {
  }

  // ---- Reservations --------------------------------------------------------------------------

  /** A call that is about to enqueue reserves the EPC exactly when it is not empty, not queued and
      not in flight. */
  lemma ReservedIff(s: State, c: nat, e: EPC)
    requires c < |s.callers| && s.callers[c] == Enqueuing(e)
    ensures var t, free := Apply(s, CallerStep(c)), e != "" && e !in s.sh.queued && e !in s.sh.inflight;
            && (t.callers[c] == Reserved(e) <==> free)
            && t.sh == s.sh.(queued := if free then s.sh.queued + {e} else s.sh.queued)
  {
  }

  /** No step of anybody reserves an EPC while it is in flight, and an EPC is looked up only when it
      is handed in with scanning on. */
  lemma InflightNotReserved(s: State, a: Action, e: EPC)
    ensures e in s.sh.inflight && e !in s.sh.queued ==> e !in Apply(s, a).sh.queued
    ensures forall c | 0 <= c < |s.callers| && Apply(s, a).callers[c] == Looking(e) ::
              s.callers[c] == Looking(e) || (a.See? && a.caller == c && a.epc == e && s.sh.scanActive)
  {
    hide GcRecentSeen;
    assert forall c | 0 <= c < |s.callers| && CallerNext(s.cfg, s.sh, s.callers[c]).pc == Looking(e) :: false;
  }
}
