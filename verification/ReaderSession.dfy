/**
 The TCP session of the reader client, over every interleaving of any number of connecting and
 disconnecting callers and read loops.  Sessions are numbered in the order they are installed;
 each critical section, dial, channel close and wait is one step.
 */
module ReaderSession {
  import opened Wrappers

  /** A read loop: reading, on its way out after closing so many of its channels, or past the
      critical section that clears the session. */
  datatype Loop = Reading | Leaving(closed: nat) | Gone

  /** A call of `Connect`. */
  datatype Connector = Arriving | Dialing | Dialled | Connected(session: nat) | Refused | DialFailed

  /** A call of `Disconnect`. */
  datatype Disconnector =
    | Calling
    | Captured(target: nat)
    | Waiting(target: nat)
    | Finished(target: nat)         // the session's done channel was closed
    | NothingToDo
    | CloseFailed
    | TimedOut

  /** How often each channel of one session was closed. */
  datatype Closes = Closes(packets: nat, errs: nat, done: nat)

  datatype State = State(
    session: Option<nat>,           // the client's `session` field
    loops: seq<Loop>,
    open: seq<bool>,                // connections this side has not closed
    closes: seq<Closes>,
    connectors: seq<Connector>,
    disconnectors: seq<Disconnector>)

  datatype Action =
    | CallConnect
    | Check(i: nat)                 // the first critical section of `Connect`
    | DialEnds(i: nat, reached: bool)
    | Install(i: nat)               // its second critical section
    | ReadFails(g: nat)
    | CloseNext(g: nat)             // the loop closes packets, errs, then done
    | Clear(g: nat)                 // the loop's own critical section
    | CallDisconnect
    | Look(j: nat)                  // `Disconnect` reads the session
    | CloseConn(j: nat)
    | SeeDone(j: nat)
    | TimeOut(j: nat)

  /** The `session` field under its mutex, one method for each critical section. */
  class Client {
    var session: Option<nat>

    constructor ()
      ensures session == None
    {
      session := None;
    }

    method CheckFree() returns (free: bool)
      ensures free <==> session == None
    {
      free := session == None;
    }

    method Install(s: nat) returns (installed: bool)
      modifies this
      ensures installed == (old(session) == None)
      ensures session == if installed then Some(s) else old(session)
    {
      if session != None {
        return false;
      }
      session := Some(s);
      return true;
    }

    method Clear(s: nat)
      modifies this
      ensures session == if old(session) == Some(s) then None else old(session)
    {
      if session == Some(s) {
        session := None;
      }
    }
  }

  function Cleared(session: Option<nat>, s: nat): Option<nat> {
    if session == Some(s) then None else session
  }

  function CloseAt(c: Closes, k: nat): Closes {
    if k == 0 then c.(packets := c.packets + 1)
    else if k == 1 then c.(errs := c.errs + 1)
    else c.(done := c.done + 1)
  }

  function Init(): State {
    State(None, [], [], [], [], [])
  }

  function ConnectorStep(s: State, i: nat, at: Connector, next: Connector): State {
    if i < |s.connectors| && s.connectors[i] == at then s.(connectors := s.connectors[i := next]) else s
  }

  /** One step; an action that does not apply changes nothing. */
  function Apply(s: State, a: Action): State {
    match a
    case CallConnect => s.(connectors := s.connectors + [Arriving])
    case Check(i) => ConnectorStep(s, i, Arriving, if s.session.Some? then Refused else Dialing)
    case DialEnds(i, reached) => ConnectorStep(s, i, Dialing, if reached then Dialled else DialFailed)
    case Install(i) =>
      if i < |s.connectors| && s.connectors[i] == Dialled then
        if s.session.Some? then s.(connectors := s.connectors[i := Refused])
        else
          s.(session := Some(|s.loops|), loops := s.loops + [Reading], open := s.open + [true],
             closes := s.closes + [Closes(0, 0, 0)], connectors := s.connectors[i := Connected(|s.loops|)])
      else s
    case ReadFails(g) =>
      if g < |s.loops| && s.loops[g] == Reading then s.(loops := s.loops[g := Leaving(0)]) else s
    case CloseNext(g) =>
      if g < |s.loops| && g < |s.closes| && s.loops[g].Leaving? && s.loops[g].closed < 3 then
        s.(loops := s.loops[g := Leaving(s.loops[g].closed + 1)],
           closes := s.closes[g := CloseAt(s.closes[g], s.loops[g].closed)])
      else s
    case Clear(g) =>
      if g < |s.loops| && s.loops[g] == Leaving(3) then
        s.(loops := s.loops[g := Gone], session := Cleared(s.session, g))
      else s
    case CallDisconnect => s.(disconnectors := s.disconnectors + [Calling])
    case Look(j) =>
      if j < |s.disconnectors| && s.disconnectors[j] == Calling then
        s.(disconnectors := s.disconnectors[j :=
             if s.session.Some? then Captured(s.session.value) else NothingToDo])
      else s
    case CloseConn(j) =>
      if j < |s.disconnectors| && s.disconnectors[j].Captured? && s.disconnectors[j].target < |s.open| then
        var g := s.disconnectors[j].target;
        s.(open := s.open[g := false],
           disconnectors := s.disconnectors[j := if s.open[g] then Waiting(g) else CloseFailed])
      else s
    case SeeDone(j) =>
      if j < |s.disconnectors| && s.disconnectors[j].Waiting? && s.disconnectors[j].target < |s.closes|
         && s.closes[s.disconnectors[j].target].done > 0
      then s.(disconnectors := s.disconnectors[j := Finished(s.disconnectors[j].target)])
      else s
    case TimeOut(j) =>
      if j < |s.disconnectors| && s.disconnectors[j].Waiting?
      then s.(disconnectors := s.disconnectors[j := TimedOut])
      else s
  }

  function Run(actions: seq<Action>): State
    decreases actions
  {
    if actions == [] then Init() else Apply(Run(actions[..|actions| - 1]), actions[|actions| - 1])
  }

  // ---- Invariant -----------------------------------------------------------------------

  predicate Shape(s: State) {
    |s.loops| == |s.open| == |s.closes|
  }

  /** The installed session is the newest, and the only one whose loop has not cleared it. */
  predicate OneSession(s: State) {
    forall g | 0 <= g < |s.loops| ::
      && (s.loops[g] != Gone <==> s.session == Some(g))
      && (s.loops[g] != Gone ==> g == |s.loops| - 1)
  }

  predicate SessionExists(s: State) {
    s.session.Some? ==> s.session.value < |s.loops|
  }

  function ClosesAt(l: Loop): Closes {
    var k := if l.Reading? then 0 else if l.Gone? then 3 else l.closed;
    Closes(if k >= 1 then 1 else 0, if k >= 2 then 1 else 0, if k >= 3 then 1 else 0)
  }

  predicate ClosedInOrder(s: State)
    requires Shape(s)
  {
    forall g | 0 <= g < |s.loops| ::
      s.closes[g] == ClosesAt(s.loops[g]) && (s.loops[g].Leaving? ==> s.loops[g].closed <= 3)
  }

  /** Each session was installed by one call. */
  predicate ConnectorsKnow(s: State) {
    && (forall i | 0 <= i < |s.connectors| && s.connectors[i].Connected? :: s.connectors[i].session < |s.loops|)
    && (forall i, k | 0 <= i < k < |s.connectors| && s.connectors[i].Connected? ::
          s.connectors[i] != s.connectors[k])
  }

  predicate DisconnectorsKnow(s: State)
    requires Shape(s)
  {
    forall j | 0 <= j < |s.disconnectors| :: DisconnectorKnows(s, s.disconnectors[j])
  }

  predicate DisconnectorKnows(s: State, d: Disconnector)
    requires Shape(s)
  {
    match d
    case Captured(g) => g < |s.loops|
    case Waiting(g) => g < |s.loops| && !s.open[g]
    case Finished(g) => g < |s.loops| && !s.open[g] && (s.loops[g] == Leaving(3) || s.loops[g] == Gone)
    case _ => true
  }

  predicate Inv(s: State) {
    Shape(s) && OneSession(s) && SessionExists(s) && ClosedInOrder(s) && ConnectorsKnow(s) && DisconnectorsKnow(s)
  }

  lemma SessionStep(s: State, a: Action)
    requires Inv(s)
    ensures Shape(Apply(s, a)) && OneSession(Apply(s, a)) && SessionExists(Apply(s, a))
  {
    hide ConnectorsKnow, DisconnectorsKnow, ClosedInOrder;
  }

  lemma ClosingStep(s: State, a: Action)
    requires Inv(s) && Shape(Apply(s, a))
    ensures ClosedInOrder(Apply(s, a))
  {
    hide ConnectorsKnow, DisconnectorsKnow, OneSession;
  }

  lemma ConnectorsStep(s: State, a: Action)
    requires Inv(s) && Shape(Apply(s, a))
    ensures ConnectorsKnow(Apply(s, a))
  {
    hide OneSession, ClosedInOrder, DisconnectorsKnow;
  }

  lemma DisconnectorsStep(s: State, a: Action)
    requires Inv(s) && Shape(Apply(s, a))
    ensures DisconnectorsKnow(Apply(s, a))
  {
    hide OneSession, ConnectorsKnow;
  }

  lemma {:induction false} InvAlways(actions: seq<Action>)
    ensures Inv(Run(actions))
    decreases actions
  {
    hide Shape, OneSession, SessionExists, ClosedInOrder, ConnectorsKnow, DisconnectorsKnow, Apply;
    if actions == [] {
      InvInitially();
    } else {
      var s, a := Run(actions[..|actions| - 1]), actions[|actions| - 1];
      InvAlways(actions[..|actions| - 1]);
      SessionStep(s, a);
      ClosingStep(s, a);
      ConnectorsStep(s, a);
      DisconnectorsStep(s, a);
    }
  }

  lemma InvInitially()
    ensures Inv(Init())
  {
  }

  // ---- What it means -------------------------------------------------------------------

  /**
   The client counts as connected exactly while some read loop has not cleared its session, that
   loop is the only one, and it clears its own session: the guard of the clearing section never
   fails.
   */
  lemma SessionIffLoop(actions: seq<Action>, g: nat)
    requires g < |Run(actions).loops|
    ensures var s := Run(actions);
            && (s.session == Some(g) <==> s.loops[g] != Gone)
            && (forall h: nat | h < |s.loops| && s.loops[h] != Gone && s.loops[g] != Gone :: h == g)
            && (s.loops[g] == Leaving(3) ==> Cleared(s.session, g) == None)
  {
    hide Run;
    InvAlways(actions);
  }

  /** Every channel of a session is closed at most once, in order, and all of them before the
      session is cleared. */
  lemma ChannelsClosedOnce(actions: seq<Action>, g: nat)
    requires g < |Run(actions).loops|
    ensures var s := Run(actions);
            && g < |s.closes|
            && s.closes[g].done <= s.closes[g].errs <= s.closes[g].packets <= 1
            && (s.session != Some(g) ==> s.closes[g] == Closes(1, 1, 1))
  {
    hide Run;
    InvAlways(actions);
  }

  /** No two calls of `Connect` get the same session. */
  lemma OneOwner(actions: seq<Action>, i: nat, k: nat)
    requires var cs := Run(actions).connectors;
             i < k < |cs| && cs[i].Connected? && cs[k].Connected?
    ensures Run(actions).connectors[i].session != Run(actions).connectors[k].session
  {
    hide Run;
    InvAlways(actions);
  }

  /**
   After a `Disconnect` that saw its session end, with no newer session, the next `Connect` is
   refused at its first check exactly while the old loop has closed its channels but not yet
   cleared the session.
   */
  lemma ReconnectRefusedIff(actions: seq<Action>, j: nat, i: nat)
    requires var s := Run(actions);
             && j < |s.disconnectors| && s.disconnectors[j].Finished?
             && s.disconnectors[j].target == |s.loops| - 1
             && i < |s.connectors| && s.connectors[i] == Arriving
    ensures var s := Run(actions);
            Run(actions + [Check(i)]).connectors[i] == Refused
            <==> s.disconnectors[j].target < |s.loops| && s.loops[s.disconnectors[j].target] == Leaving(3)
  {
    InvAlways(actions);
    hide Run;
    var s := Run(actions);
    RunSnoc(actions, Check(i));
    assert DisconnectorKnows(s, s.disconnectors[j]);
  }

  lemma RunSnoc(actions: seq<Action>, a: Action)
    ensures Run(actions + [a]) == Apply(Run(actions), a)
  {
    assert (actions + [a])[..|actions|] == actions;
  }

  /** One caller connects and looks at its session to close it. */
  lemma ConnectedOnce() returns (actions: seq<Action>)
    ensures Run(actions)
         == State(Some(0), [Reading], [true], [Closes(0, 0, 0)], [Connected(0)], [Captured(0)])
  {
    actions := [];
    assert Run(actions) == Init();
    hide Run;
    actions := Then(actions, CallConnect);
    actions := Then(actions, Check(0));
    actions := Then(actions, DialEnds(0, true));
    assert Run(actions).connectors == [Dialled];
    actions := Then(actions, Install(0));
    actions := Then(actions, CallDisconnect);
    actions := Then(actions, Look(0));
  }

  lemma DisconnectedOnce() returns (actions: seq<Action>)
    ensures Run(actions)
         == State(Some(0), [Leaving(3)], [false], [Closes(1, 1, 1)], [Connected(0)], [Finished(0)])
  {
    hide Run;
    actions := ConnectedOnce();
    actions := Then(actions, CloseConn(0));
    actions := Then(actions, ReadFails(0));
    actions := Then(actions, CloseNext(0));
    assert Run(actions).closes == [Closes(1, 0, 0)];
    actions := Then(actions, CloseNext(0));
    actions := Then(actions, CloseNext(0));
    assert Run(actions).closes == [Closes(1, 1, 1)];
    actions := Then(actions, SeeDone(0));
  }

  /** That window is real: one caller disconnects, then connects again, and is refused. */
  lemma RefusedAfterDisconnect() returns (actions: seq<Action>)
    ensures Run(actions).connectors == [Connected(0), Refused] && Run(actions).disconnectors == [Finished(0)]
  {
    hide Run;
    actions := DisconnectedOnce();
    actions := Then(actions, CallConnect);
    actions := Then(actions, Check(1));
  }

  lemma Then(actions: seq<Action>, a: Action) returns (longer: seq<Action>)
    ensures longer == actions + [a] && Run(longer) == Apply(Run(actions), a)
  {
    longer := actions + [a];
    RunSnoc(actions, a);
  }
}
