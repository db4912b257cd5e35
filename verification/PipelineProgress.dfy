/**
 No reservation is held for ever: while some worker has not stopped, every EPC in `queued` can
 leave it by steps of callers and workers that are already under way.
 */
module PipelineProgress {
  import opened CacheStore
  import opened Pipeline
  import opened PipelineTokens

  /** Steps until a worker is idle again, its next ERP call being answered. */
  function ToIdle(pc: Worker): nat {
    match pc
    case Received(_) => 7
    case Cleared(_) => 6
    case Present(_) => 5
    case Calling(_, _) => 4
    case Removing(_, _) => 3
    case Telling(_, _) => 2
    case Unlocking(_) => 1
    case _ => 0
  }

  /** What is left for one worker that empties the channel alone. */
  function Load(s: State, w: nat): nat
    requires w < |s.workers|
  {
    8 * |s.sh.queue| + ToIdle(s.workers[w])
  }

  predicate Running(s: State, w: nat) {
    w < |s.workers| && s.workers[w] != Stopped
  }

  lemma DriveStep(s: State, w: nat)
    requires Running(s, w) && Load(s, w) > 0
    ensures var t := Apply(s, WorkerStep(w, Submitted));
            && Running(t, w) && Load(t, w) < Load(s, w)
            && t.callers == s.callers && t.workers == s.workers[w := t.workers[w]]
  {
  }

  lemma RunMore(cfg: Config, actions: seq<Action>, a: Action)
    ensures Run(cfg, actions + [a]) == Apply(Run(cfg, actions), a)
  {
    assert (actions + [a])[..|actions|] == actions;
  }

  /** A worker left alone empties the channel and becomes idle. */
  lemma {:induction false} Drives(cfg: Config, actions: seq<Action>, w: nat) returns (more: seq<Action>)
    requires Running(Run(cfg, actions), w)
    ensures |more| <= Load(Run(cfg, actions), w) && forall k | 0 <= k < |more| :: more[k].WorkerStep?
    ensures var s, t := Run(cfg, actions), Run(cfg, actions + more);
            t.callers == s.callers && t.workers == s.workers[w := Idle] && t.sh.queue == []
    decreases Load(Run(cfg, actions), w)
  {
    hide Run, Apply;
    var s := Run(cfg, actions);
    if Load(s, w) == 0 {
      more := [];
      assert actions + more == actions && s.workers[w := Idle] == s.workers;
    } else {
      var step := WorkerStep(w, Submitted);
      DriveStep(s, w);
      RunMore(cfg, actions, step);
      more := Drives(cfg, actions + [step], w);
      assert (actions + [step]) + more == actions + ([step] + more);
      var t := Run(cfg, actions + [step]);
      assert t.workers[w := Idle] == s.workers[w := Idle];
      more := [step] + more;
    }
  }

  /** After at most `n` more steps of callers and workers, none of them a new call, the
      reservation of `e` is gone. */
  predicate Ends(cfg: Config, actions: seq<Action>, more: seq<Action>, e: EPC, n: nat) {
    && |more| <= n && (forall k | 0 <= k < |more| :: more[k].CallerStep? || more[k].WorkerStep?)
    && e !in Run(cfg, actions + more).sh.queued
  }

  lemma StepThenEnds(cfg: Config, actions: seq<Action>, a: Action, rest: seq<Action>, e: EPC, n: nat)
    requires (a.CallerStep? || a.WorkerStep?) && Ends(cfg, actions + [a], rest, e, n)
    ensures Ends(cfg, actions, [a] + rest, e, n + 1)
  {
    hide Run;
    assert actions + ([a] + rest) == (actions + [a]) + rest;
  }

  lemma OneStepEnds(cfg: Config, actions: seq<Action>, a: Action, e: EPC, n: nat)
    requires (a.CallerStep? || a.WorkerStep?) && e !in Apply(Run(cfg, actions), a).sh.queued && n > 0
    ensures Ends(cfg, actions, [a], e, n)
  {
    RunMore(cfg, actions, a);
  }

  /** An EPC waiting in the channel: the worker takes it in the end. */
  lemma SlotCanEnd(cfg: Config, actions: seq<Action>, e: EPC, w: nat) returns (more: seq<Action>)
    requires Running(Run(cfg, actions), w) && e in Run(cfg, actions).sh.queue
    ensures Ends(cfg, actions, more, e, 8 * cfg.queueSize + 7)
  {
    hide Run, Sum, CallerToken, WorkerToken;
    var s := Run(cfg, actions);
    more := Drives(cfg, actions, w);
    var t := Run(cfg, actions + more);
    ChannelDistinct(cfg, actions);
    OneHolder(cfg, actions, e);
    OneHolder(cfg, actions + more, e);
    SumUpdate(s.workers, w, Idle, WorkerToken(e));
    IdleHoldsNothing(e);
  }

  lemma IdleHoldsNothing(e: EPC)
    ensures WorkerToken(e)(Idle) == 0
  {
  }

  lemma {:induction false} Holder<P>(xs: seq<P>, f: P -> nat) returns (i: nat)
    requires Sum(xs, f) > 0
    ensures i < |xs| && f(xs[i]) > 0
    decreases xs
  {
    i := |xs| - 1;
    if f(xs[i]) == 0 {
      i := Holder(xs[..i], f);
    }
  }

  lemma CallerCanEnd(cfg: Config, actions: seq<Action>, e: EPC, w: nat, c: nat) returns (more: seq<Action>)
    requires Running(Run(cfg, actions), w)
    requires var s := Run(cfg, actions); c < |s.callers| && s.callers[c] in {Reserved(e), Dropping(e)}
    ensures Ends(cfg, actions, more, e, 8 * cfg.queueSize + 8)
  {
    TokensAlways(cfg, actions);
    hide Run, TokenInv;
    var s := Run(cfg, actions);
    var step := CallerStep(c);
    RunMore(cfg, actions, step);
    if s.callers[c] == Dropping(e) {
      OneStepEnds(cfg, actions, step, e, 8 * cfg.queueSize + 8);
      more := [step];
    } else if |s.sh.queue| < cfg.queueSize {
      assert e in s.sh.queue + [e];
      more := SlotCanEnd(cfg, actions + [step], e, w);
      StepThenEnds(cfg, actions, step, more, e, 8 * cfg.queueSize + 7);
      more := [step] + more;
    } else {
      OneStepEnds(cfg, actions + [step], step, e, 8 * cfg.queueSize + 7);
      StepThenEnds(cfg, actions, step, [step], e, 8 * cfg.queueSize + 7);
      more := [step, step];
      assert more == [step] + [step];
    }
  }

  /** From every reachable state with a worker that has not stopped, every reservation can end
      within a bounded number of steps, and without any new call. */
  lemma ReservationCanEnd(cfg: Config, actions: seq<Action>, e: EPC, w: nat) returns (more: seq<Action>)
    requires Running(Run(cfg, actions), w) && e in Run(cfg, actions).sh.queued
    ensures Ends(cfg, actions, more, e, 8 * cfg.queueSize + 8)
  {
    hide Run, Sum, Ends;
    var s := Run(cfg, actions);
    OneHolder(cfg, actions, e);
    if e in s.sh.queue {
      more := SlotCanEnd(cfg, actions, e, w);
      EndsLater(cfg, actions, more, e, 8 * cfg.queueSize + 7);
    } else if Sum(s.callers, CallerToken(e)) > 0 {
      var c := Holder(s.callers, CallerToken(e));
      more := CallerCanEnd(cfg, actions, e, w, c);
    } else {
      var j := Holder(s.workers, WorkerToken(e));
      OneStepEnds(cfg, actions, WorkerStep(j, Submitted), e, 8 * cfg.queueSize + 8);
      more := [WorkerStep(j, Submitted)];
    }
  }

  lemma EndsLater(cfg: Config, actions: seq<Action>, more: seq<Action>, e: EPC, n: nat)
    requires Ends(cfg, actions, more, e, n)
    ensures Ends(cfg, actions, more, e, n + 1)
  {
  }
}
