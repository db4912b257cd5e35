/**
 Who holds what in the submit pipeline, over every interleaving: reservations, channel
 slots, inflight locks.
 */
module PipelineTokens {
  import opened CacheStore
  import opened Pipeline

  // ---- Sums over threads ----------------------------------------------------------------------

  function Sum<P>(xs: seq<P>, f: P -> nat): nat
    decreases xs
  {
    if xs == [] then 0 else Sum(xs[..|xs| - 1], f) + f(xs[|xs| - 1])
  }

  lemma SumAppend<P>(xs: seq<P>, x: P, f: P -> nat)
    ensures Sum(xs + [x], f) == Sum(xs, f) + f(x)
  {
    assert (xs + [x])[..|xs|] == xs;
  }

  lemma SumLast<P>(xs: seq<P>, ys: seq<P>, f: P -> nat)
    requires |ys| <= 1
    ensures Sum(xs + ys, f) == Sum(xs, f) + if ys == [] then 0 else f(ys[0])
  {
    if ys == [] {
      assert xs + ys == xs;
    } else {
      assert ys == [ys[0]];
      SumAppend(xs, ys[0], f);
    }
  }

  lemma {:induction false} SumUpdate<P>(xs: seq<P>, i: nat, x: P, f: P -> nat)
    requires i < |xs|
    ensures Sum(xs[i := x], f) == Sum(xs, f) - f(xs[i]) + f(x)
    decreases xs
  {
    var front := xs[..|xs| - 1];
    if i == |xs| - 1 {
      assert xs[i := x][..|xs| - 1] == front;
    } else {
      assert xs[i := x][..|xs| - 1] == front[i := x];
      SumUpdate(front, i, x, f);
    }
  }

  lemma {:induction false} SumHolds<P>(xs: seq<P>, i: nat, f: P -> nat)
    requires i < |xs|
    ensures f(xs[i]) <= Sum(xs, f)
    decreases xs
  {
    if i < |xs| - 1 {
      SumHolds(xs[..|xs| - 1], i, f);
    }
  }

  lemma {:induction false} SumHoldsTwo<P>(xs: seq<P>, i: nat, j: nat, f: P -> nat)
    requires i < j < |xs|
    ensures f(xs[i]) + f(xs[j]) <= Sum(xs, f)
    decreases xs
  {
    if j == |xs| - 1 {
      SumHolds(xs[..|xs| - 1], i, f);
    } else {
      SumHoldsTwo(xs[..|xs| - 1], i, j, f);
    }
  }

  lemma {:induction false} SumZero<P>(xs: seq<P>, f: P -> nat)
    requires forall k | 0 <= k < |xs| :: f(xs[k]) == 0
    ensures Sum(xs, f) == 0
    decreases xs
  {
    if xs != [] {
      SumZero(xs[..|xs| - 1], f);
    }
  }

  /** One when an EPC is in a set, zero otherwise. */
  function In(e: EPC, s: set<EPC>): nat {
    if e in s then 1 else 0
  }

  function Same(e: EPC, f: EPC): nat {
    if e == f then 1 else 0
  }

  function Slots(queue: seq<EPC>, e: EPC): nat {
    multiset(queue)[e]
  }

  lemma SlotsAppend(queue: seq<EPC>, f: EPC, e: EPC)
    ensures Slots(queue + [f], e) == Slots(queue, e) + Same(e, f)
  {
  }

  lemma SlotsFirst(queue: seq<EPC>, e: EPC)
    requires queue != []
    ensures Slots(queue, e) == Same(e, queue[0]) + Slots(queue[1..], e)
  {
    assert queue == [queue[0]] + queue[1..];
  }

  // ---- Reservations -------------------------------------------------------------------------

  /** Callers that hold a reservation for `e`. */
  function CallerToken(e: EPC): Caller -> nat {
    (c: Caller) =>
      match c
      case Reserved(f) => Same(e, f)
      case Dropping(f) => Same(e, f)
      case _ => 0
  }

  /** Workers that have received `e` and not yet cleared its reservation. */
  function WorkerToken(e: EPC): Worker -> nat {
    (w: Worker) => if w.Received? then Same(e, w.epc) else 0
  }

  /** Everything that stands for a reservation of `e`: callers about to send or drop, channel
      slots, and workers that have received but not yet cleared. */
  function Tokens(s: State, e: EPC): nat {
    Slots(s.sh.queue, e) + Sum(s.callers, CallerToken(e)) + Sum(s.workers, WorkerToken(e))
  }

  ghost predicate TokenInv(s: State) {
    && (forall e :: Tokens(s, e) == In(e, s.sh.queued))
    && |s.sh.queue| <= s.cfg.queueSize && "" !in s.sh.queued
  }

  lemma CallerTokenMove(cfg: Config, sh: Shared, pc: Caller, e: EPC)
    requires CallerToken(e)(pc) <= In(e, sh.queued)
    ensures var m := CallerNext(cfg, sh, pc);
            Slots(m.sh.queue, e) + CallerToken(e)(m.pc) - In(e, m.sh.queued)
            == Slots(sh.queue, e) + CallerToken(e)(pc) - In(e, sh.queued)
  {
    if pc.Reserved? { SlotsAppend(sh.queue, pc.epc, e); }
  }

  lemma WorkerTokenMove(cfg: Config, sh: Shared, w: nat, pc: Worker, reply: Reply, e: EPC)
    requires WorkerToken(e)(pc) <= In(e, sh.queued)
    ensures var m := WorkerNext(cfg, sh, w, pc, reply);
            Slots(m.sh.queue, e) + WorkerToken(e)(m.pc) - In(e, m.sh.queued)
            == Slots(sh.queue, e) + WorkerToken(e)(pc) - In(e, sh.queued)
  {
    if sh.queue != [] { SlotsFirst(sh.queue, e); }
  }

  lemma QueueBounded(cfg: Config, sh: Shared)
    requires |sh.queue| <= cfg.queueSize && "" !in sh.queued
    ensures forall pc :: var m := CallerNext(cfg, sh, pc); |m.sh.queue| <= cfg.queueSize && "" !in m.sh.queued
    ensures forall w, pc, reply :: var m := WorkerNext(cfg, sh, w, pc, reply);
              |m.sh.queue| <= cfg.queueSize && "" !in m.sh.queued
  {
  }

  lemma TokenStepFor(s: State, a: Action, e: EPC)
    requires Tokens(s, e) == In(e, s.sh.queued)
    ensures Tokens(Apply(s, a), e) == In(e, Apply(s, a).sh.queued)
  {
    hide CallerNext, WorkerNext, Sum, Slots, In;
    match a {
      case Spawn => SumAppend(s.callers, Quiet, CallerToken(e));
      case See(c, f, now) =>
        if c < |s.callers| { SumUpdate(s.callers, c, if s.sh.scanActive then Looking(f) else Quiet, CallerToken(e)); }
      case Replay(c, f) => if c < |s.callers| { SumUpdate(s.callers, c, Enqueuing(f), CallerToken(e)); }
      case CallerStep(c) =>
        if c < |s.callers| {
          SumHolds(s.callers, c, CallerToken(e));
          CallerTokenMove(s.cfg, s.sh, s.callers[c], e);
          SumUpdate(s.callers, c, CallerNext(s.cfg, s.sh, s.callers[c]).pc, CallerToken(e));
        }
      case WorkerStep(w, reply) =>
        if w < |s.workers| {
          SumHolds(s.workers, w, WorkerToken(e));
          WorkerTokenMove(s.cfg, s.sh, w, s.workers[w], reply, e);
          SumUpdate(s.workers, w, WorkerNext(s.cfg, s.sh, w, s.workers[w], reply).pc, WorkerToken(e));
        }
      case StopWorker(w) => if w < |s.workers| { SumUpdate(s.workers, w, Stopped, WorkerToken(e)); }
      case _ =>
    }
  }

  lemma TokenStep(s: State, a: Action)
    requires TokenInv(s)
    ensures TokenInv(Apply(s, a))
  {
    forall e ensures Tokens(Apply(s, a), e) == In(e, Apply(s, a).sh.queued) {
      TokenStepFor(s, a, e);
    }
    hide CallerNext, WorkerNext, Tokens;
    QueueBounded(s.cfg, s.sh);
  }

  lemma TokensInitially(cfg: Config)
    ensures TokenInv(Init(cfg))
  {
    forall e ensures Tokens(Init(cfg), e) == 0 {
      SumZero(Init(cfg).workers, WorkerToken(e));
    }
  }

  lemma ConfigFixed(s: State, a: Action)
    ensures Apply(s, a).cfg == s.cfg && |Apply(s, a).workers| == |s.workers|
  {
  }

  lemma {:induction false} TokensAlways(cfg: Config, actions: seq<Action>)
    ensures TokenInv(Run(cfg, actions)) && Run(cfg, actions).cfg == cfg
    ensures |Run(cfg, actions).workers| == cfg.workerCount
    decreases actions
  {
    hide TokenInv, Apply;
    if actions == [] {
      TokensInitially(cfg);
    } else {
      TokensAlways(cfg, actions[..|actions| - 1]);
      TokenStep(Run(cfg, actions[..|actions| - 1]), actions[|actions| - 1]);
      ConfigFixed(Run(cfg, actions[..|actions| - 1]), actions[|actions| - 1]);
    }
  }

  /** In every reachable state an EPC is in `queued` exactly when exactly one caller, channel
      slot or worker holds its reservation; no other EPC is held by anybody. */
  lemma OneHolder(cfg: Config, actions: seq<Action>, e: EPC)
    ensures Tokens(Run(cfg, actions), e) == In(e, Run(cfg, actions).sh.queued)
  {
    hide Tokens;
    TokensAlways(cfg, actions);
  }

  /** The channel never holds an EPC twice and never more than it has room for. */
  lemma ChannelDistinct(cfg: Config, actions: seq<Action>)
    ensures var queue := Run(cfg, actions).sh.queue;
            |queue| <= cfg.queueSize && forall i, j | 0 <= i < j < |queue| :: queue[i] != queue[j]
  {
    hide Run;
    TokensAlways(cfg, actions);
    var queue := Run(cfg, actions).sh.queue;
    forall i, j | 0 <= i < j < |queue| ensures queue[i] != queue[j] {
      assert Tokens(Run(cfg, actions), queue[i]) <= 1;
      TwiceInSeq(queue, i, j);
    }
  }

  lemma TwiceInSeq(q: seq<EPC>, i: nat, j: nat)
    requires i < j < |q|
    ensures q[i] == q[j] ==> Slots(q, q[i]) >= 2
  {
    if q[i] == q[j] {
      assert q == q[..j] + [q[j]] + q[j + 1..];
      assert q[..j][i] == q[j];
    }
  }

  // ---- Inflight locks -----------------------------------------------------------------------

  /** Workers that have locked `e`: from before the first ERP call until after the counters. */
  function LockOf(e: EPC): Worker -> nat {
    (w: Worker) =>
      match w
      case Calling(f, _) => Same(e, f)
      case Removing(f, _) => Same(e, f)
      case Telling(f, _) => Same(e, f)
      case Unlocking(f) => Same(e, f)
      case _ => 0
  }

  ghost predicate LockInv(s: State) {
    forall e :: Sum(s.workers, LockOf(e)) == In(e, s.sh.inflight)
  }

  lemma LockMove(cfg: Config, sh: Shared, w: nat, pc: Worker, reply: Reply, e: EPC)
    requires LockOf(e)(pc) <= In(e, sh.inflight)
    ensures var m := WorkerNext(cfg, sh, w, pc, reply);
            LockOf(e)(m.pc) - In(e, m.sh.inflight) == LockOf(e)(pc) - In(e, sh.inflight)
  {
  }

  lemma CallersDoNotLock(cfg: Config, sh: Shared, pc: Caller)
    ensures CallerNext(cfg, sh, pc).sh.inflight == sh.inflight
  {
  }

  lemma LockStep(s: State, a: Action)
    requires LockInv(s)
    ensures LockInv(Apply(s, a))
  {
    hide CallerNext, WorkerNext, Sum, In;
    forall e ensures Sum(Apply(s, a).workers, LockOf(e)) == In(e, Apply(s, a).sh.inflight) {
      match a {
        case CallerStep(c) => if c < |s.callers| { CallersDoNotLock(s.cfg, s.sh, s.callers[c]); }
        case WorkerStep(w, reply) =>
          if w < |s.workers| {
            SumHolds(s.workers, w, LockOf(e));
            LockMove(s.cfg, s.sh, w, s.workers[w], reply, e);
            SumUpdate(s.workers, w, WorkerNext(s.cfg, s.sh, w, s.workers[w], reply).pc, LockOf(e));
          }
        case StopWorker(w) => if w < |s.workers| { SumUpdate(s.workers, w, Stopped, LockOf(e)); }
        case _ =>
      }
    }
  }

  lemma LocksInitially(cfg: Config)
    ensures LockInv(Init(cfg))
  {
    forall e ensures Sum(Init(cfg).workers, LockOf(e)) == 0 {
      SumZero(Init(cfg).workers, LockOf(e));
    }
  }

  lemma {:induction false} LocksAlways(cfg: Config, actions: seq<Action>)
    ensures LockInv(Run(cfg, actions))
    decreases actions
  {
    hide LockInv, Apply;
    if actions == [] {
      LocksInitially(cfg);
    } else {
      LocksAlways(cfg, actions[..|actions| - 1]);
      LockStep(Run(cfg, actions[..|actions| - 1]), actions[|actions| - 1]);
    }
  }

  /** ERP calls for one EPC never overlap: of two workers at most one has it locked, and it
      is in `inflight` exactly while one has. */
  lemma MutualExclusion(cfg: Config, actions: seq<Action>, e: EPC)
    ensures var s := Run(cfg, actions);
            && (forall i, j | 0 <= i < j < |s.workers| ::
                  LockOf(e)(s.workers[i]) == 0 || LockOf(e)(s.workers[j]) == 0)
            && Sum(s.workers, LockOf(e)) == In(e, s.sh.inflight)
  {
    hide Run, Sum;
    LocksAlways(cfg, actions);
    var s := Run(cfg, actions);
    forall i, j | 0 <= i < j < |s.workers|
      ensures LockOf(e)(s.workers[i]) == 0 || LockOf(e)(s.workers[j]) == 0
    {
      SumHoldsTwo(s.workers, i, j, LockOf(e));
    }
  }
}
