/**
 Dialling the connect plan: the part of the terminal client's model that remembers the plan and
 the current attempt, and the messages that start it, advance it and clear it.
 The source's handlers have value receivers: each works on a copy and returns it, and the
 program keeps what the handler returned.
 */
module ConnectWalk {
  import opened Wrappers
  import opened EndpointKey
  import ConnectPlan

  /** `connectQueue`, `connectAttempt`, `connectActionLabel` and `connecting`. */
  datatype Dial = Dial(queue: seq<Endpoint>, attempt: nat, action: string, connecting: bool)

  datatype Message =
    | Begin(action: string, candidates: seq<ConnectPlan.Candidate>, preferred: int, scanPorts: seq<int>)
    | ConnectFinished(failed: bool)
    | Disconnected
    | ReaderLost
    | ProbeTimeout
    | ScanStarted
    | ScanEmpty
    | ScanFailed

  /** A new model and the endpoint to dial, if any. */
  datatype Reaction = Reaction(model: Dial, dial: Option<Endpoint>)

  predicate Valid(m: Dial) {
    m.queue == [] || m.attempt < |m.queue|
  }

  const CLEARED := Dial([], 0, "", false)

  function Started(plan: seq<Endpoint>, action: string): Reaction {
    if plan == [] then Reaction(CLEARED, None) else Reaction(Dial(plan, 0, action, true), Some(plan[0]))
  }

  /** The copy `retryNextConnect` returns. */
  function Retried(m: Dial): Reaction {
    if m.queue == [] then Reaction(m, None)
    else if m.attempt + 1 >= |m.queue| then Reaction(CLEARED, None)
    else Reaction(m.(attempt := m.attempt + 1, connecting := true), Some(m.queue[m.attempt + 1]))
  }

  /** The callers keep the copy only when there was something to dial. */
  function RetriedOrKept(m: Dial): Reaction {
    if Retried(m).dial.Some? then Retried(m) else Reaction(m, None)
  }

  function Idle(m: Dial): Dial {
    m.(connecting := false)
  }

  ghost function Updated(m: Dial, msg: Message): Reaction {
    match msg
    case Begin(action, candidates, preferred, scanPorts) =>
      Started(ConnectPlan.Plan(candidates, preferred, scanPorts), action)
    case ConnectFinished(failed) => if failed then RetriedOrKept(Idle(m)) else Reaction(CLEARED, None)
    case Disconnected => Reaction(CLEARED, None)
    case ReaderLost =>
      if !m.connecting && Retried(m).dial.Some? then Retried(m) else Reaction(Idle(m), None)
    case ProbeTimeout => RetriedOrKept(m)
    case ScanStarted => Reaction(CLEARED.(connecting := m.connecting), None)
    case ScanEmpty => Reaction(CLEARED, None)
    case ScanFailed => Reaction(Idle(m), None)
  }

  method BeginConnectPlan(m: Dial, action: string, candidates: seq<ConnectPlan.Candidate>, preferred: int,
                          scanPorts: seq<int>)
    returns (next: Dial, dial: Option<Endpoint>)
    ensures Reaction(next, dial) == Started(ConnectPlan.Plan(candidates, preferred, scanPorts), action)
  {
    hide ConnectPlan.Plan;
    var plan := ConnectPlan.BuildConnectPlan(candidates, preferred, scanPorts);
    next := m;
    if |plan| == 0 {
      next := next.(queue := []);
      next := next.(attempt := 0);
      next := next.(action := "");
      next := next.(connecting := false);
      return next, None;
    }
    next := next.(queue := plan);
    next := next.(attempt := 0);
    next := next.(action := action);
    next := next.(connecting := true);
    return next, Some(plan[0]);
  }

  method RetryNextConnect(m: Dial) returns (next: Dial, dial: Option<Endpoint>)
    requires Valid(m)
    ensures Reaction(next, dial) == Retried(m)
  {
    next := m;
    if |next.queue| == 0 {
      return next, None;
    }
    var following := next.attempt + 1;
    var total := |next.queue|;
    if following >= total {
      var current := next.queue[next.attempt];
      next := next.(queue := []);
      next := next.(attempt := 0);
      next := next.(action := "");
      next := next.(connecting := false);
      return next, None;
    }
    next := next.(attempt := following);
    var endpoint := next.queue[following];
    next := next.(connecting := true);
    return next, Some(endpoint);
  }

  /** The running program: it owns the current model. */
  class Program {
    var model: Dial

    constructor ()
      ensures model == CLEARED
    {
      model := CLEARED;
    }

    method Update(msg: Message) returns (dial: Option<Endpoint>)
      requires Valid(model)
      modifies this
      ensures Reaction(model, dial) == Updated(old(model), msg) && Valid(model)
    {
      hide ConnectPlan.Plan;
      dial := None;
      var m := model;
      match msg {
        case Begin(action, candidates, preferred, scanPorts) =>
          m, dial := BeginConnectPlan(m, action, candidates, preferred, scanPorts);
        case ConnectFinished(failed) =>
          m := m.(connecting := false);
          if failed {
            var next, endpoint := RetryNextConnect(m);
            if endpoint.Some? {
              m, dial := next, endpoint;
            }
          } else {
            m := m.(queue := [], attempt := 0, action := "");
          }
        case Disconnected =>
          m := m.(queue := [], attempt := 0, action := "");
          m := m.(connecting := false);
        case ReaderLost =>
          if !m.connecting {
            var next, endpoint := RetryNextConnect(m);
            if endpoint.Some? {
              model := next;
              return endpoint;
            }
          }
          m := m.(connecting := false);
        case ProbeTimeout =>
          var next, endpoint := RetryNextConnect(m);
          if endpoint.Some? {
            m, dial := next, endpoint;
          }
        case ScanStarted =>
          m := m.(queue := [], attempt := 0, action := "");
        case ScanEmpty =>
          m := m.(queue := [], attempt := 0, action := "");
          m := m.(connecting := false);
        case ScanFailed =>
          m := m.(connecting := false);
      }
      model := m;
    }
  }

  /** Which message dials: a failure, a timeout, or a loss while nothing else is being dialled, as
      long as the queue goes on.  Afterwards a dial is under way if one was made, or if the message
      was a timeout or a new scan and one was before. */
  lemma WhoDials(m: Dial, msg: Message)
    requires Valid(m) && !msg.Begin?
    ensures var r, more := Updated(m, msg), m.attempt + 1 < |m.queue|;
            && (r.dial.Some? <==> more && (msg == ConnectFinished(true) || msg.ProbeTimeout?
                                           || (msg.ReaderLost? && !m.connecting)))
            && (r.dial.Some? ==> r.dial == Some(m.queue[m.attempt + 1])
                                 && r.model == m.(attempt := m.attempt + 1, connecting := true))
            && (r.dial.None? ==>
                  (r.model.connecting <==> m.connecting && (msg.ProbeTimeout? || msg.ScanStarted?)))
  {
  }

  // ---- Runs --------------------------------------------------------------------------

  ghost function Dialled(dial: Option<Endpoint>): seq<Endpoint> {
    if dial.Some? then [dial.value] else []
  }

  /** The model after the messages, and everything they dialled. */
  ghost function Play(m: Dial, msgs: seq<Message>): (Dial, seq<Endpoint>)
    decreases |msgs|
  {
    if msgs == [] then (m, [])
    else
      var (before, dials) := Play(m, msgs[..|msgs| - 1]);
      var last := Updated(before, msgs[|msgs| - 1]);
      (last.model, dials + Dialled(last.dial))
  }

  /** After `dials` endpoints of `plan`: the queue is cleared, or at the last one dialled. */
  ghost predicate OnPlan(m: Dial, plan: seq<Endpoint>, dials: seq<Endpoint>) {
    && 1 <= |dials| <= |plan| && dials == plan[..|dials|]
    && (m.queue == [] || (m.queue == plan && m.attempt == |dials| - 1))
  }

  lemma MessageKeepsPlan(m: Dial, msg: Message, plan: seq<Endpoint>, dials: seq<Endpoint>)
    requires OnPlan(m, plan, dials) && !msg.Begin?
    ensures OnPlan(Updated(m, msg).model, plan, dials + Dialled(Updated(m, msg).dial))
  {
    var dial := Updated(m, msg).dial;
    if dial.Some? {
      assert dial.value == plan[|dials|];
      assert plan[..|dials| + 1] == plan[..|dials|] + [plan[|dials|]];
    } else {
      assert dials + Dialled(dial) == dials;
    }
  }

  lemma {:induction false} RunKeepsPlan(begin: Message, msgs: seq<Message>, m: Dial)
    requires begin.Begin? && forall msg | msg in msgs :: !msg.Begin?
    requires ConnectPlan.Plan(begin.candidates, begin.preferred, begin.scanPorts) != []
    ensures var plan := ConnectPlan.Plan(begin.candidates, begin.preferred, begin.scanPorts);
            var (last, dials) := Play(Updated(m, begin).model, msgs);
            OnPlan(last, plan, [plan[0]] + dials)
    decreases |msgs|
  {
    hide ConnectPlan.Plan;
    var plan := ConnectPlan.Plan(begin.candidates, begin.preferred, begin.scanPorts);
    var start := Updated(m, begin).model;
    if msgs != [] {
      var n := |msgs| - 1;
      RunKeepsPlan(begin, msgs[..n], m);
      hide Updated, OnPlan;
      var (before, dials) := Play(start, msgs[..n]);
      MessageKeepsPlan(before, msgs[n], plan, [plan[0]] + dials);
      assert [plan[0]] + dials + Dialled(Updated(before, msgs[n]).dial)
          == [plan[0]] + (dials + Dialled(Updated(before, msgs[n]).dial));
    }
  }

  /**
   Until the next plan begins, every run dials a prefix of the plan in order, so no endpoint
   twice, whatever order failures, losses, timeouts and scans come in.
   */
  lemma DialsFollowPlan(begin: Message, msgs: seq<Message>, m: Dial)
    requires begin.Begin? && forall msg | msg in msgs :: !msg.Begin?
    ensures var plan := ConnectPlan.Plan(begin.candidates, begin.preferred, begin.scanPorts);
            var (last, dials) := Play(Updated(m, begin).model, msgs);
            var all := Dialled(Updated(m, begin).dial) + dials;
            && all <= plan && (forall a, b | 0 <= a < b < |all| :: all[a] != all[b])
            && (last.queue == [] || (last.queue == plan && last.attempt == |all| - 1))
  {
    hide ConnectPlan.Plan;
    var plan := ConnectPlan.Plan(begin.candidates, begin.preferred, begin.scanPorts);
    ConnectPlan.PlanExact(begin.candidates, begin.preferred, begin.scanPorts);
    if plan == [] {
      NothingQueued(CLEARED, msgs);
    } else {
      RunKeepsPlan(begin, msgs, m);
    }
  }

  /** With no queue nothing is dialled until the next plan. */
  lemma {:induction false} NothingQueued(m: Dial, msgs: seq<Message>)
    requires m.queue == [] && forall msg | msg in msgs :: !msg.Begin?
    ensures Play(m, msgs).0.queue == [] && Play(m, msgs).1 == []
    decreases |msgs|
  {
    hide ConnectPlan.Plan;
    if msgs != [] {
      NothingQueued(m, msgs[..|msgs| - 1]);
    }
  }

  function Failures(n: nat): seq<Message> {
    seq(n, _ => ConnectFinished(true))
  }

  /** The model after `n` failures of a plan. */
  function AfterFailures(plan: seq<Endpoint>, action: string, n: nat): Dial
    requires plan != []
  {
    Dial(plan, if n < |plan| then n else |plan| - 1, action, n < |plan|)
  }

  lemma OneMoreFailure(plan: seq<Endpoint>, action: string, n: nat)
    requires plan != []
    ensures Updated(AfterFailures(plan, action, n), ConnectFinished(true))
         == Reaction(AfterFailures(plan, action, n + 1), if n + 1 < |plan| then Some(plan[n + 1]) else None)
  {
  }

  lemma {:induction false} FailuresPlayed(plan: seq<Endpoint>, action: string, n: nat)
    requires plan != []
    ensures var (last, dials) := Play(Dial(plan, 0, action, true), Failures(n));
            last == AfterFailures(plan, action, n) && dials == plan[1..if n < |plan| then n + 1 else |plan|]
    decreases n
  {
    hide Updated;
    if n == 0 {
      assert plan[1..1] == [];
    } else {
      FailuresPlayed(plan, action, n - 1);
      assert Failures(n)[..n - 1] == Failures(n - 1) && Failures(n)[n - 1] == ConnectFinished(true);
      OneMoreFailure(plan, action, n - 1);
      if n < |plan| {
        assert plan[1..n + 1] == plan[1..n] + [plan[n]];
      } else {
        assert plan[1..|plan|] + [] == plan[1..|plan|];
      }
    }
  }

  /**
   `n` failed connects in a row dial the first `n + 1` endpoints, and all of them from
   `|plan| - 1` on.  The queue is still there afterwards: the reset that `retryNextConnect`
   makes when the plan is used up is in the copy its callers drop.
   */
  lemma FailuresWalkPlan(begin: Message, n: nat, m: Dial)
    requires begin.Begin?
    requires ConnectPlan.Plan(begin.candidates, begin.preferred, begin.scanPorts) != []
    ensures var plan := ConnectPlan.Plan(begin.candidates, begin.preferred, begin.scanPorts);
            var (last, dials) := Play(Updated(m, begin).model, Failures(n));
            && [plan[0]] + dials == plan[..if n < |plan| then n + 1 else |plan|]
            && last == Dial(plan, if n < |plan| then n else |plan| - 1, begin.action, n < |plan|)
  {
    hide ConnectPlan.Plan, Play;
    var plan := ConnectPlan.Plan(begin.candidates, begin.preferred, begin.scanPorts);
    FailuresPlayed(plan, begin.action, n);
  }

  /** The messages that clear the queue of a plan. */
  predicate Clears(msg: Message) {
    msg == ConnectFinished(false) || msg.Disconnected? || msg.ScanStarted? || msg.ScanEmpty?
  }

  lemma OneMessageClears(m: Dial, msg: Message)
    requires !msg.Begin?
    ensures Updated(m, msg).model.queue == [] <==> m.queue == [] || Clears(msg)
  {
  }

  /** Until the next plan the queue is kept exactly as long as no such message came: losses,
      timeouts and failures never clear it. */
  lemma {:induction false} QueueClearedIff(begin: Message, msgs: seq<Message>, m: Dial)
    requires begin.Begin? && forall msg | msg in msgs :: !msg.Begin?
    requires ConnectPlan.Plan(begin.candidates, begin.preferred, begin.scanPorts) != []
    ensures Play(Updated(m, begin).model, msgs).0.queue == [] <==> exists msg | msg in msgs :: Clears(msg)
    decreases msgs
  {
    hide ConnectPlan.Plan, Clears;
    var start := Updated(m, begin).model;
    assert start.queue != [];
    if msgs != [] {
      var n := |msgs| - 1;
      QueueClearedIff(begin, msgs[..n], m);
      hide Updated;
      OneMessageClears(Play(start, msgs[..n]).0, msgs[n]);
      assert forall msg :: msg in msgs <==> msg in msgs[..n] || msg == msgs[n];
    }
  }

  /** Retrying the returned copies: each retry moves one on, and the last clears everything. */
  ghost function RetriedTimes(m: Dial, n: nat): (Dial, seq<Endpoint>)
    decreases n
  {
    if n == 0 then (m, [])
    else
      var (before, dials) := RetriedTimes(m, n - 1);
      (Retried(before).model, dials + Dialled(Retried(before).dial))
  }

  lemma {:induction false} RetriesWalkQueue(m: Dial, n: nat)
    requires Valid(m) && m.queue != []
    ensures var (last, dials) := RetriedTimes(m, n);
            var left := |m.queue| - 1 - m.attempt;
            && dials == m.queue[m.attempt + 1..][..if n < left then n else left]
            && (last == CLEARED <==> n > left)
            && (0 < n <= left ==> last == m.(attempt := m.attempt + n, connecting := true))
    decreases n
  {
    if n > 0 {
      RetriesWalkQueue(m, n - 1);
      var rest := m.queue[m.attempt + 1..];
      if n <= |rest| {
        assert rest[..n] == rest[..n - 1] + [rest[n - 1]];
      }
    }
  }
}
