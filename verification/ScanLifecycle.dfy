/**
 Starting and stopping the reader manager's scan loop, over every interleaving of any number
 of starters, stoppers and loops.  Each critical section, cancellation, channel close and
 wait is one step; a loop is known by its generation, the number of starts before it.
 */
module ScanLifecycle {
  import opened Wrappers

  /** Where a loop stands: scanning, past `finishStopped`, or past closing its done channel. */
  datatype Loop = Scanning | Finished | Closed

  /** Where a call of `Stop` stands; it remembers what it read under the lock. */
  datatype Stopper =
    | Calling
    | Captured(cancel: Option<nat>, done: Option<nat>)
    | Waiting(target: nat)
    | Returned(done: Option<nat>)

  /** The manager's fields; `cancel` and `done` name the generation they belong to. */
  datatype Fields = Fields(
    running: bool, cancel: Option<nat>, done: Option<nat>, statusRunning: bool, statusConnected: bool)

  datatype State = State(
    fields: Fields,
    loops: seq<Loop>,
    cancelled: seq<bool>,       // contexts that have been cancelled, by generation
    closes: seq<nat>,           // how often each done channel was closed
    stoppers: seq<Stopper>)

  datatype Action =
    | Start                     // the critical section of `Start`
    | EndParent(g: nat)         // the caller's own context ends
    | Connect(g: nat)           // a scanning loop reports a connection
    | Disconnect(g: nat)
    | Finish(g: nat)            // `finishStopped`, once the loop has seen its context end
    | CloseDone(g: nat)
    | CallStop
    | Capture(i: nat)           // the critical section of `Stop`
    | Cancel(i: nat)            // `Stop` cancels what it captured and goes on to wait
    | Return(i: nat)            // the done channel it waits for is closed

  // ---- The critical sections -------------------------------------------------------------------

  const IDLE := Fields(false, None, None, false, false)

  /** The fields once generation `g` has been started; it is connected when its loop says so. */
  function Begun(f: Fields, g: nat): Fields {
    Fields(true, Some(g), Some(g), true, f.statusConnected)
  }

  /** The manager's fields under its mutex, one method for each critical section. */
  class Manager {
    var running: bool
    var cancel: Option<nat>
    var done: Option<nat>
    var statusRunning: bool
    var statusConnected: bool

    ghost function Now(): Fields
      reads this
    {
      Fields(running, cancel, done, statusRunning, statusConnected)
    }

    constructor ()
      ensures Now() == IDLE
    {
      running, cancel, done, statusRunning, statusConnected := false, None, None, false, false;
    }

    /** `next` names the context and channel made for a new loop; true when it is to be launched. */
    method Start(next: nat) returns (launch: bool)
      modifies this
      ensures launch == !old(running)
      ensures Now() == if launch then Begun(old(Now()), next) else old(Now())
      ensures launch ==>
                && running && statusRunning && cancel == done == Some(next)
                && statusConnected == old(statusConnected)
    {
      if running {
        return false;
      }
      running := true;
      cancel := Some(next);
      done := Some(next);
      statusRunning := true;
      return true;
    }

    method CaptureForStop() returns (toCancel: Option<nat>, toAwait: Option<nat>)
      modifies this`cancel
      ensures toCancel == old(cancel) && toAwait == done && Now() == old(Now()).(cancel := None)
    {
      toCancel, toAwait := cancel, done;
      cancel := None;
    }

    method SetConnected(connected: bool)
      modifies this`statusConnected
      ensures Now() == old(Now()).(statusConnected := connected)
    {
      statusConnected := connected;
    }

    method FinishStopped()
      modifies this
      ensures Now() == IDLE
      ensures !running && cancel == done == None && !statusRunning && !statusConnected
    {
      running := false;
      cancel := None;
      done := None;
      statusRunning := false;
      statusConnected := false;
    }
  }

  // ---- The protocol ------------------------------------------------------------------------------

  function Init(): State {
    State(IDLE, [], [], [], [])
  }

  function CancelAt(cancelled: seq<bool>, g: nat): seq<bool> {
    if g < |cancelled| then cancelled[g := true] else cancelled
  }

  /** One step; an action that does not apply changes nothing. */
  function Apply(s: State, a: Action): State {
    match a
    case Start =>
      if s.fields.running then s
      else
        var g := |s.loops|;
        s.(fields := Begun(s.fields, g),
           loops := s.loops + [Scanning], cancelled := s.cancelled + [false], closes := s.closes + [0])
    case EndParent(g) => s.(cancelled := CancelAt(s.cancelled, g))
    case Connect(g) =>
      if g < |s.loops| && s.loops[g] == Scanning then s.(fields := s.fields.(statusConnected := true)) else s
    case Disconnect(g) =>
      if g < |s.loops| && s.loops[g] == Scanning then s.(fields := s.fields.(statusConnected := false)) else s
    case Finish(g) =>
      if g < |s.loops| && s.loops[g] == Scanning && g < |s.cancelled| && s.cancelled[g] then
        s.(fields := IDLE, loops := s.loops[g := Finished])
      else s
    case CloseDone(g) =>
      if g < |s.loops| && s.loops[g] == Finished && g < |s.closes| then
        s.(loops := s.loops[g := Closed], closes := s.closes[g := s.closes[g] + 1])
      else s
    case CallStop => s.(stoppers := s.stoppers + [Calling])
    case Capture(i) =>
      if i < |s.stoppers| && s.stoppers[i] == Calling then
        s.(fields := s.fields.(cancel := None),
           stoppers := s.stoppers[i := Captured(s.fields.cancel, s.fields.done)])
      else s
    case Cancel(i) =>
      if i < |s.stoppers| && s.stoppers[i].Captured? then
        var st := s.stoppers[i];
        s.(cancelled := if st.cancel.Some? then CancelAt(s.cancelled, st.cancel.value) else s.cancelled,
           stoppers := s.stoppers[i := if st.done.Some? then Waiting(st.done.value) else Returned(None)])
      else s
    case Return(i) =>
      if i < |s.stoppers| && s.stoppers[i].Waiting? && s.stoppers[i].target < |s.closes|
         && s.closes[s.stoppers[i].target] > 0
      then s.(stoppers := s.stoppers[i := Returned(Some(s.stoppers[i].target))])
      else s
  }

  function Run(actions: seq<Action>): State
    decreases actions
  {
    if actions == [] then Init() else Apply(Run(actions[..|actions| - 1]), actions[|actions| - 1])
  }

  /** The connection flag only goes up when a scanning loop reports it, and only comes down when one
      does or ends. */
  lemma ConnectionReported(s: State, a: Action)
    ensures var (before, after) := (s.fields.statusConnected, Apply(s, a).fields.statusConnected);
            && (!before && after ==> a.Connect? && a.g < |s.loops| && s.loops[a.g] == Scanning)
            && (before && !after ==> (a.Disconnect? || a.Finish?) && a.g < |s.loops| && s.loops[a.g] == Scanning)
  {
  }

  // ---- Invariant ---------------------------------------------------------------------------------

  predicate Shape(s: State) {
    |s.loops| == |s.cancelled| == |s.closes|
  }

  /** `running` holds exactly while the newest loop is scanning, older ones never are, and the
      fields name that loop or nothing. */
  predicate OneLoop(s: State) {
    var n := |s.loops|;
    && (forall g | 0 <= g < n && s.loops[g] == Scanning :: g == n - 1)
    && (s.fields.running <==> n > 0 && s.loops[n - 1] == Scanning)
    && s.fields.statusRunning == s.fields.running
    && (s.fields.statusConnected ==> s.fields.running)
    && s.fields.done == (if s.fields.running then Some(n - 1) else None)
    && (s.fields.cancel.Some? ==> s.fields.cancel == s.fields.done)
  }

  /** A done channel has been closed exactly by the loops that are past closing it. */
  predicate ClosedOnce(s: State)
    requires Shape(s)
  {
    forall g | 0 <= g < |s.loops| :: s.closes[g] == if s.loops[g] == Closed then 1 else 0
  }

  /** What stoppers have captured are loops that were started, and the cancel function of such
      a loop is no longer in the manager's fields. */
  predicate StoppersKnow(s: State) {
    forall i | 0 <= i < |s.stoppers| ::
      match s.stoppers[i]
      case Calling => true
      case Captured(c, d) => (d.Some? ==> d.value < |s.loops| && s.fields.cancel != d) && (c.Some? ==> c == d)
      case Waiting(d) => d < |s.loops| && s.fields.cancel != Some(d)
      case Returned(d) => d.Some? ==> d.value < |s.loops| && s.loops[d.value] == Closed
  }

  /** Nobody waits in vain: a scanning loop that somebody may wait for still has its cancel
      function in place, is cancelled, or is about to be cancelled by the stopper that took
      that function. */
  predicate StopArrives(s: State)
    requires Shape(s)
  {
    s.fields.running ==>
      var g := |s.loops| - 1;
      g >= 0 && (s.fields.cancel == Some(g) || s.cancelled[g] || WillCancel(s.stoppers, g))
  }

  predicate WillCancel(stoppers: seq<Stopper>, g: nat) {
    exists i | 0 <= i < |stoppers| :: stoppers[i].Captured? && stoppers[i].cancel == Some(g)
  }

  predicate LoopEnded(s: State)
    requires Shape(s)
  {
    forall g | 0 <= g < |s.loops| && s.loops[g] != Scanning :: s.cancelled[g]
  }

  predicate Inv(s: State) {
    Shape(s) && OneLoop(s) && ClosedOnce(s) && StoppersKnow(s) && StopArrives(s) && LoopEnded(s)
  }

  lemma FieldsStep(s: State, a: Action)
    requires Inv(s)
    ensures Shape(Apply(s, a)) && OneLoop(Apply(s, a))
  {
    hide StopArrives, StoppersKnow, ClosedOnce, LoopEnded;
  }

  lemma ClosingStep(s: State, a: Action)
    requires Inv(s) && Shape(Apply(s, a))
    ensures ClosedOnce(Apply(s, a)) && LoopEnded(Apply(s, a))
  {
    hide StopArrives, StoppersKnow, OneLoop;
  }

  lemma StoppersStep(s: State, a: Action)
    requires Inv(s)
    ensures StoppersKnow(Apply(s, a))
  {
    hide StopArrives, LoopEnded;
  }

  lemma ArrivalStep(s: State, a: Action)
    requires Inv(s) && Shape(Apply(s, a)) && OneLoop(Apply(s, a))
    ensures StopArrives(Apply(s, a))
  {
    hide StoppersKnow, LoopEnded, ClosedOnce;
    var t := Apply(s, a);
    if t.fields.running && s.fields.running {
      var g := |s.loops| - 1;
      assert g == |t.loops| - 1;
      if WillCancel(s.stoppers, g) {
        var i :| 0 <= i < |s.stoppers| && s.stoppers[i].Captured? && s.stoppers[i].cancel == Some(g);
        if a == Cancel(i) {
          assert t.cancelled[g];
        } else {
          assert t.stoppers[i] == s.stoppers[i];
        }
      } else if a.Capture? && s.fields.cancel == Some(g) && t.fields.cancel != Some(g) {
        assert t.stoppers[a.i].Captured? && t.stoppers[a.i].cancel == Some(g);
      }
    }
  }

  lemma {:induction false} InvAlways(actions: seq<Action>)
    ensures Inv(Run(actions))
    decreases actions
  {
    hide Shape, OneLoop, ClosedOnce, StoppersKnow, StopArrives, LoopEnded, Apply;
    if actions == [] {
      assert Inv(Init()) by { InvInitially(); }
    } else {
      var s, a := Run(actions[..|actions| - 1]), actions[|actions| - 1];
      InvAlways(actions[..|actions| - 1]);
      FieldsStep(s, a);
      ClosingStep(s, a);
      StoppersStep(s, a);
      ArrivalStep(s, a);
    }
  }

  lemma InvInitially()
    ensures Inv(Init())
  {
  }

  // ---- What it means -------------------------------------------------------------------------------

  /** At most one loop is scanning, it is the newest, and `running` says whether there is one. */
  lemma OneLoopAtATime(actions: seq<Action>)
    ensures var s := Run(actions);
            && (forall g, h | 0 <= g < |s.loops| && 0 <= h < |s.loops| ::
                  s.loops[g] == Scanning && s.loops[h] == Scanning ==> g == h)
            && (s.fields.running <==> exists g | 0 <= g < |s.loops| :: s.loops[g] == Scanning)
  {
    hide Run;
    InvAlways(actions);
    var s := Run(actions);
    if s.fields.running {
      assert s.loops[|s.loops| - 1] == Scanning;
    }
  }

  /** A loop that finishes only clears fields of its own generation: nothing newer exists. */
  lemma FinishIsOwn(actions: seq<Action>, g: nat)
    requires var s := Run(actions); g < |s.loops| && s.loops[g] == Scanning
    ensures var f := Run(actions).fields;
            f.running && f.done == Some(g) && (f.cancel == None || f.cancel == Some(g))
            && g == |Run(actions).loops| - 1
  {
    hide Run;
    InvAlways(actions);
  }

  /** No done channel is ever closed twice. */
  lemma NoDoubleClose(actions: seq<Action>, g: nat)
    ensures var s := Run(actions); |s.closes| == |s.loops| && (g < |s.closes| ==> s.closes[g] <= 1)
  {
    hide Run;
    InvAlways(actions);
  }

  /** When a call of `Stop` has returned, the loop it found has finished, its fields have been
      cleared and its channel closed; a call that found none returned at once. */
  lemma StopMeansStopped(actions: seq<Action>, i: nat)
    requires var s := Run(actions); i < |s.stoppers| && s.stoppers[i].Returned?
    ensures var s := Run(actions);
            s.stoppers[i].done.Some? ==>
              && s.stoppers[i].done.value < |s.loops|
              && s.loops[s.stoppers[i].done.value] == Closed
              && s.fields.done != s.stoppers[i].done
  {
    hide Run;
    InvAlways(actions);
  }

  /** No waiting `Stop` is forgotten: the loop it waits for can finish and close now, has been
      cancelled, or is going to be cancelled by the stopper that holds its cancel function. */
  lemma WaitingIsServed(actions: seq<Action>, i: nat)
    requires var s := Run(actions); i < |s.stoppers| && s.stoppers[i].Waiting?
    ensures var s := Run(actions);
            var g := s.stoppers[i].target;
            g < |s.loops| == |s.cancelled| &&
            (s.cancelled[g] || WillCancel(s.stoppers, g))
  {
    hide Run;
    InvAlways(actions);
  }

  lemma Then(actions: seq<Action>, a: Action) returns (longer: seq<Action>)
    ensures longer == actions + [a] && Run(longer) == Apply(Run(actions), a) && Inv(Run(longer))
  {
    longer := actions + [a];
    assert longer[..|actions|] == actions;
    InvAlways(longer);
  }

  /** A call of `Stop` waits for loop `g`. */
  predicate WaitsFor(s: State, i: nat, g: nat) {
    i < |s.stoppers| && s.stoppers[i] == Waiting(g)
  }

  /** After at most `n` more steps of loops, and of callers already in `Stop`, the wait is over. */
  predicate WaitEnds(actions: seq<Action>, more: seq<Action>, i: nat, g: nat, n: nat) {
    && |more| <= n && (forall k | 0 <= k < |more| :: NoNewCall(more[k]))
    && i < |Run(actions + more).stoppers| && Run(actions + more).stoppers[i] == Returned(Some(g))
  }

  predicate NoNewCall(a: Action) {
    a.Cancel? || a.Finish? || a.CloseDone? || a.Return?
  }

  lemma StepThenEnds(actions: seq<Action>, a: Action, rest: seq<Action>, i: nat, g: nat, n: nat)
    requires NoNewCall(a) && WaitEnds(actions + [a], rest, i, g, n)
    ensures WaitEnds(actions, [a] + rest, i, g, n + 1)
  {
    hide Run;
    assert actions + ([a] + rest) == (actions + [a]) + rest;
  }

  lemma ReturnsOnceClosed(actions: seq<Action>, i: nat, g: nat) returns (more: seq<Action>)
    requires var s := Run(actions);
             WaitsFor(s, i, g) && g < |s.closes| && s.closes[g] > 0
    ensures WaitEnds(actions, more, i, g, 1)
  {
    hide Run, Inv;
    var all := Then(actions, Return(i));
    more := [Return(i)];
  }

  lemma ReturnsOnceFinished(actions: seq<Action>, i: nat, g: nat) returns (more: seq<Action>)
    requires var s := Run(actions);
             WaitsFor(s, i, g) && g < |s.loops| && s.loops[g] != Scanning
    ensures WaitEnds(actions, more, i, g, 2)
  {
    InvAlways(actions);
    hide Run, WaitEnds, OneLoop, StoppersKnow, StopArrives, LoopEnded;
    if Run(actions).loops[g] == Closed {
      more := ReturnsOnceClosed(actions, i, g);
      EndsLater(actions, more, i, g, 1);
    } else {
      var all := Then(actions, CloseDone(g));
      more := ReturnsOnceClosed(all, i, g);
      StepThenEnds(actions, CloseDone(g), more, i, g, 1);
      more := [CloseDone(g)] + more;
    }
  }

  lemma EndsLater(actions: seq<Action>, more: seq<Action>, i: nat, g: nat, n: nat)
    requires WaitEnds(actions, more, i, g, n)
    ensures WaitEnds(actions, more, i, g, n + 1)
  {
  }

  lemma ReturnsOnceCancelled(actions: seq<Action>, i: nat, g: nat) returns (more: seq<Action>)
    requires var s := Run(actions);
             WaitsFor(s, i, g) && g < |s.loops| && g < |s.cancelled| && s.cancelled[g]
    ensures WaitEnds(actions, more, i, g, 3)
  {
    hide Run, Inv, WaitEnds;
    if Run(actions).loops[g] != Scanning {
      more := ReturnsOnceFinished(actions, i, g);
      EndsLater(actions, more, i, g, 2);
    } else {
      var all := Then(actions, Finish(g));
      more := ReturnsOnceFinished(all, i, g);
      StepThenEnds(actions, Finish(g), more, i, g, 2);
      more := [Finish(g)] + more;
    }
  }

  lemma CancelReaches(s: State, j: nat, i: nat, g: nat)
    requires j < |s.stoppers| && s.stoppers[j].Captured? && s.stoppers[j].cancel == Some(g)
    requires WaitsFor(s, i, g) && g < |s.loops| && g < |s.cancelled|
    ensures var t := Apply(s, Cancel(j));
            WaitsFor(t, i, g) && |t.loops| == |s.loops| && g < |t.cancelled| && t.cancelled[g]
  {
  }

  /** From every reachable state a waiting `Stop` can still return, by at most four steps and
      without any new call. */
  lemma WaitingCanReturn(actions: seq<Action>, i: nat) returns (more: seq<Action>)
    requires var s := Run(actions); i < |s.stoppers| && s.stoppers[i].Waiting?
    ensures WaitEnds(actions, more, i, Run(actions).stoppers[i].target, 4)
  {
    var s := Run(actions);
    var g := s.stoppers[i].target;
    WaitingIsServed(actions, i);
    hide Run, Apply, Inv, WaitEnds;
    if s.cancelled[g] {
      more := ReturnsOnceCancelled(actions, i, g);
      EndsLater(actions, more, i, g, 3);
    } else {
      var j :| 0 <= j < |s.stoppers| && s.stoppers[j].Captured? && s.stoppers[j].cancel == Some(g);
      var all := Then(actions, Cancel(j));
      CancelReaches(s, j, i, g);
      more := ReturnsOnceCancelled(all, i, g);
      StepThenEnds(actions, Cancel(j), more, i, g, 3);
      more := [Cancel(j)] + more;
    }
  }
}
