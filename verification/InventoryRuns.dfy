/**
 Whole inventory runs.  Cutting the byte stream into packets and polling at any moment, even
 between two tags of one frame, changes nothing but round numbers; and what a run counts
 depends only on the sightings in its frames.
 */
module InventoryRuns {
  import opened Wrappers
  import opened Reader18
  import opened TagPayload
  import opened Inventory
  import Antenna
  import FrameStream
  import HexText

  // ---- What happens under one lock --------------------------------------------------------

  /** Handling a frame is a list of short critical sections and sends; polls fit in between. */
  datatype Op =
    | TakeAddress(address: byte)
    | Record(source: Source, antenna: nat, rssi: nat, epc: seq<byte>)
    | Observe(status: byte)
    | TellInfo
    | TellCount(count: nat)
    | TellError(error: TagError)

  function Perform(s: State, op: Op): State {
    match op
    case TakeAddress(address) => if s.cfg.autoAddress then s.(readerAddr := address) else s
    case Record(source, antenna, rssi, epc) => RecordTag(s, source, antenna, rssi, epc)
    case Observe(status) => ObserveNoTag(s, status)
    case TellInfo => Build(s, ReaderInfo)
    case TellCount(count) => Build(s, CountOnly(count))
    case TellError(error) => Build(s, ParseFailed(error))
  }

  function PerformAll(s: State, ops: seq<Op>): State
    decreases ops
  {
    if ops == [] then s else PerformAll(Perform(s, ops[0]), ops[1..])
  }

  function RecordOps(tags: seq<Tag>): seq<Op>
    decreases tags
  {
    if tags == [] then [] else [Record(FromG2, tags[0].antenna, tags[0].rssi, tags[0].epc)] + RecordOps(tags[1..])
  }

  function InventoryOps(frame: Frame): seq<Op> {
    match TagsOf(frame)
    case Err(e) => if e.Truncated? || e.InvalidLength? then [TellError(e)] else []
    case Ok(tags) =>
      if tags != [] then RecordOps(tags)
      else if frame.status == STATUS_SUCCESS then
        match TagCount(frame)
        case Ok(count) => if count > 0 then [TellCount(count)] else []
        case Err(_) => []
      else [Observe(frame.status)]
  }

  function SingleOps(frame: Frame): seq<Op> {
    match ParseSingle(frame)
    case Err(_) => []
    case Ok(r) =>
      if r.tagCount > 0 && r.epc != [] then [Record(FromSingle, Val(r.antenna), 0, r.epc)]
      else [Observe(frame.status)]
  }

  function CommandOps(frame: Frame): seq<Op> {
    if frame.command == CMD_INVENTORY then InventoryOps(frame)
    else if frame.command == CMD_INVENTORY_SINGLE then SingleOps(frame)
    else if frame.command == CMD_GET_READER_INFO then [TellInfo]
    else []
  }

  function FramesOps(frames: seq<Frame>): seq<Op>
    decreases frames
  {
    if frames == [] then [] else [TakeAddress(frames[0].address)] + CommandOps(frames[0]) + FramesOps(frames[1..])
  }

  lemma {:induction false} PerformConcat(s: State, a: seq<Op>, b: seq<Op>)
    ensures PerformAll(s, a + b) == PerformAll(PerformAll(s, a), b)
    decreases a
  {
    hide Perform;
    if a == [] {
      assert a + b == b;
    } else {
      assert (a + b)[1..] == a[1..] + b;
      PerformConcat(Perform(s, a[0]), a[1..], b);
    }
  }

  lemma {:induction false} RecordOpsRecord(s: State, tags: seq<Tag>)
    ensures PerformAll(s, RecordOps(tags)) == RecordTags(s, tags)
    decreases tags
  {
    hide RecordTag;
    if tags != [] {
      var op := Record(FromG2, tags[0].antenna, tags[0].rssi, tags[0].epc);
      assert RecordOps(tags)[0] == op && RecordOps(tags)[1..] == RecordOps(tags[1..]);
      RecordOpsRecord(Perform(s, op), tags[1..]);
    }
  }

  lemma PerformOne(s: State, op: Op)
    ensures PerformAll(s, [op]) == Perform(s, op) && PerformAll(s, []) == s
  {
    assert [op][1..] == [];
  }

  lemma CommandOpsExact(s: State, frame: Frame)
    ensures frame.command == CMD_INVENTORY ==> PerformAll(s, CommandOps(frame)) == OnInventory(s, frame)
    ensures frame.command == CMD_INVENTORY_SINGLE ==> PerformAll(s, CommandOps(frame)) == OnSingle(s, frame)
    ensures frame.command == CMD_GET_READER_INFO ==> PerformAll(s, CommandOps(frame)) == Build(s, ReaderInfo)
    ensures frame.command !in {CMD_INVENTORY, CMD_INVENTORY_SINGLE, CMD_GET_READER_INFO} ==>
              PerformAll(s, CommandOps(frame)) == s
  {
    hide RecordTag, ObserveNoTag, TagsOf, ParseSingle, RecordTags, RecordOps, PerformAll, Val;
    PerformOne(s, Observe(frame.status));
    PerformOne(s, TellInfo);
    if TagsOf(frame).Ok? {
      RecordOpsRecord(s, TagsOf(frame).value);
    } else {
      PerformOne(s, TellError(TagsOf(frame).error));
    }
    if TagCount(frame).Ok? {
      PerformOne(s, TellCount(TagCount(frame).value));
    }
    if ParseSingle(frame).Ok? {
      var r := ParseSingle(frame).value;
      PerformOne(s, Record(FromSingle, Val(r.antenna), 0, r.epc));
    }
  }

  /** The short steps, taken one after the other, are what the client's methods do. */
  lemma {:induction false} FramesOpsExact(s: State, frames: seq<Frame>)
    ensures PerformAll(s, FramesOps(frames)) == OnFrames(s, frames)
    decreases frames
  {
    hide CommandOps, OnInventory, OnSingle, PerformAll;
    if frames == [] {
      PerformOne(s, TellInfo);
    } else {
      var first := TakeAddress(frames[0].address);
      PerformConcat(s, [first] + CommandOps(frames[0]), FramesOps(frames[1..]));
      PerformConcat(s, [first], CommandOps(frames[0]));
      PerformOne(s, first);
      CommandOpsExact(Perform(s, first), frames[0]);
      FramesOpsExact(OnFrame(s, frames[0]), frames[1..]);
    }
  }

  // ---- Packets and polls ------------------------------------------------------------------

  /** What happens to a running client: the transport queues a packet, the run loop does its next
      short step, or the polling timer fires. */
  datatype Input = Delivered(data: seq<byte>) | Worked | Polled

  /** Queued packets, the parser's buffer, and the steps left of the packet being handled. */
  datatype Client = Client(inbox: seq<seq<byte>>, buffer: seq<byte>, pending: seq<Op>, state: State)

  function Started(s: State): Client {
    Client([], [], [], s)
  }

  predicate Done(c: Client) {
    c.inbox == [] && c.pending == []
  }

  function Work(c: Client): Client {
    if c.pending != [] then c.(pending := c.pending[1..], state := Perform(c.state, c.pending[0]))
    else if c.inbox == [] then c
    else
      var parsed := Parse(Intake(c.buffer, c.inbox[0]));
      c.(inbox := c.inbox[1..], buffer := parsed.remaining, pending := FramesOps(parsed.frames))
  }

  function Step(c: Client, input: Input): Client {
    match input
    case Delivered(data) => c.(inbox := c.inbox + [data])
    case Worked => Work(c)
    case Polled => c.(state := NextRound(c.state))
  }

  function Run(c: Client, inputs: seq<Input>): Client
    decreases inputs
  {
    if inputs == [] then c else Step(Run(c, inputs[..|inputs| - 1]), inputs[|inputs| - 1])
  }

  /** The client once the run loop has worked off everything that was delivered. */
  function Drained(c: Client): Client
    decreases |c.inbox|, |c.pending|
  {
    if Done(c) then c else Drained(Work(c))
  }

  /** All bytes delivered, in order. */
  function Bytes(inputs: seq<Input>): seq<byte>
    decreases inputs
  {
    if inputs == [] then []
    else
      var front := Bytes(inputs[..|inputs| - 1]);
      match inputs[|inputs| - 1]
      case Delivered(data) => front + data
      case _ => front
  }

  function Polls(inputs: seq<Input>): nat
    decreases inputs
  {
    if inputs == [] then 0
    else Polls(inputs[..|inputs| - 1]) + if inputs[|inputs| - 1].Polled? then 1 else 0
  }

  function Unnumbered(e: Event): Event {
    if e.TagSeen? then e.(rounds := 0) else e
  }

  function UnnumberedAll(events: seq<Event>): seq<Event> {
    seq(|events|, k requires 0 <= k < |events| => Unnumbered(events[k]))
  }

  /** The state without round numbers and the rotation index they belong to. */
  function Erase(s: State): State {
    s.(rounds := 0, antIdx := 0, events := UnnumberedAll(s.events))
  }

  lemma UnnumberedAppend(events: seq<Event>, e: Event)
    ensures UnnumberedAll(events + [e]) == UnnumberedAll(events) + [Unnumbered(e)]
  {
  }

  lemma EraseRecord(s: State, source: Source, antenna: nat, rssi: nat, epc: seq<byte>)
    ensures Erase(RecordTag(s, source, antenna, rssi, epc)) == RecordTag(Erase(s), source, antenna, rssi, epc)
    ensures RecordTag(s, source, antenna, rssi, epc).cfg == s.cfg
    ensures RecordTag(s, source, antenna, rssi, epc).rounds == s.rounds
  {
    hide HexText.HexUpper, UnnumberedAll;
    var text := HexText.HexUpper(epc);
    var isNew := text !in s.seen;
    UnnumberedAppend(s.events,
      TagSeen(source, text, antenna, rssi, isNew, s.rounds, if isNew then s.uniqueTags + 1 else s.uniqueTags));
  }

  lemma EraseObserve(s: State, status: byte)
    ensures Erase(ObserveNoTag(s, status)) == ObserveNoTag(Erase(s), status)
    ensures ObserveNoTag(s, status).cfg == s.cfg && ObserveNoTag(s, status).rounds == s.rounds
  {
    hide UnnumberedAll, Flip;
    UnnumberedAppend(s.events, TargetSwitched(Flip(s.target)));
  }

  lemma EraseBuild(s: State, e: Event)
    requires !e.TagSeen?
    ensures Erase(Build(s, e)) == Build(Erase(s), e)
  {
    UnnumberedAppend(s.events, e);
  }

  lemma ErasePerform(s: State, op: Op)
    ensures Erase(Perform(s, op)) == Perform(Erase(s), op)
    ensures Perform(s, op).cfg == s.cfg && Perform(s, op).rounds == s.rounds
  {
    hide RecordTag, ObserveNoTag, UnnumberedAll;
    match op {
      case TakeAddress(_) =>
      case Record(source, antenna, rssi, epc) => EraseRecord(s, source, antenna, rssi, epc);
      case Observe(status) => EraseObserve(s, status);
      case TellInfo => EraseBuild(s, ReaderInfo);
      case TellCount(count) => EraseBuild(s, CountOnly(count));
      case TellError(error) => EraseBuild(s, ParseFailed(error));
    }
  }

  lemma {:induction false} OnFramesConcat(s: State, a: seq<Frame>, b: seq<Frame>)
    ensures OnFrames(s, a + b) == OnFrames(OnFrames(s, a), b)
    decreases a
  {
    hide OnFrame;
    if a == [] {
      assert a + b == b;
    } else {
      assert (a + b)[1..] == a[1..] + b;
      OnFramesConcat(OnFrame(s, a[0]), a[1..], b);
    }
  }

  function Flat(packets: seq<seq<byte>>): seq<byte>
    decreases packets
  {
    if packets == [] then [] else packets[0] + Flat(packets[1..])
  }

  lemma {:induction false} FlatAppend(packets: seq<seq<byte>>, data: seq<byte>)
    ensures Flat(packets + [data]) == Flat(packets) + data
    decreases packets
  {
    if packets == [] {
      assert packets + [data] == [data] && [data][1..] == [];
    } else {
      assert (packets + [data])[1..] == packets[1..] + [data];
      FlatAppend(packets[1..], data);
    }
  }

  /** Packets of a size that never makes the buffer overflow. */
  predicate Small(packets: seq<seq<byte>>) {
    forall k | 0 <= k < |packets| :: |packets[k]| <= 7937
  }

  /** After `consumed` bytes went to the parser: finishing the packet under way leads where one
      parse of them all would. */
  predicate OnTrack(s: State, c: Client, consumed: seq<byte>) {
    && c.buffer == Parse(consumed).remaining
    && PerformAll(Erase(c.state), c.pending) == OnFrames(Erase(s), Parse(consumed).frames)
    && c.state.cfg == s.cfg && Small(c.inbox)
  }

  lemma WorkKeepsTrack(s: State, c: Client, consumed: seq<byte>) returns (more: seq<byte>)
    requires OnTrack(s, c, consumed)
    ensures OnTrack(s, Work(c), more) && more + Flat(Work(c).inbox) == consumed + Flat(c.inbox)
    ensures Work(c).state.rounds == c.state.rounds
  {
    hide Parse, OnFrame, Erase, Perform;
    more := consumed;
    if c.pending != [] {
      ErasePerform(c.state, c.pending[0]);
    } else if c.inbox != [] {
      var data := c.inbox[0];
      more := consumed + data;
      FrameStream.RemainderBounded(consumed);
      FrameStream.ParseAppend(consumed, data);
      var frames := Parse(c.buffer + data).frames;
      FramesOpsExact(Erase(c.state), frames);
      OnFramesConcat(Erase(s), Parse(consumed).frames, frames);
      assert more + Flat(c.inbox[1..]) == consumed + (data + Flat(c.inbox[1..]));
    }
  }

  lemma {:induction false} DrainedKeepsTrack(s: State, c: Client, consumed: seq<byte>)
    requires OnTrack(s, c, consumed)
    ensures Done(Drained(c)) && Drained(c).state.rounds == c.state.rounds
    ensures OnTrack(s, Drained(c), consumed + Flat(c.inbox))
    decreases |c.inbox|, |c.pending|
  {
    hide OnTrack;
    if Done(c) {
      assert consumed + [] == consumed;
    } else {
      var more := WorkKeepsTrack(s, c, consumed);
      DrainedKeepsTrack(s, Work(c), more);
    }
  }

  lemma {:induction false} RunKeepsTrack(s: State, inputs: seq<Input>) returns (consumed: seq<byte>)
    requires NormalizeConfig(s.cfg) == s.cfg
    requires forall k | 0 <= k < |inputs| && inputs[k].Delivered? :: |inputs[k].data| <= 7937
    ensures OnTrack(s, Run(Started(s), inputs), consumed)
    ensures consumed + Flat(Run(Started(s), inputs).inbox) == Bytes(inputs)
    ensures Run(Started(s), inputs).state.rounds == s.rounds + Polls(inputs)
    decreases inputs
  {
    hide Parse, OnFrame, Erase, NormalizeConfig, Work, NextRound;
    if inputs == [] {
      consumed := [];
      ParseNothing();
    } else {
      var front, last := inputs[..|inputs| - 1], inputs[|inputs| - 1];
      consumed := RunKeepsTrack(s, front);
      var before := Run(Started(s), front);
      match last {
        case Polled => EraseRound(before.state);
        case Worked =>
          hide OnTrack;
          consumed := WorkKeepsTrack(s, before, consumed);
        case Delivered(data) => FlatAppend(before.inbox, data);
      }
    }
  }

  /**
   However the delivered bytes are cut into packets, and wherever polls fall between packets,
   frames or single steps, the run ends, once everything delivered is worked off, as one parse of
   all the bytes would: same leftover, same events but for round numbers, same counters, target
   and seen set.
   */
  lemma ChunkInvariance(s: State, inputs: seq<Input>)
    requires NormalizeConfig(s.cfg) == s.cfg
    requires forall k | 0 <= k < |inputs| && inputs[k].Delivered? :: |inputs[k].data| <= 7937
    ensures var ended := Drained(Run(Started(s), inputs));
            var parsed := Parse(Bytes(inputs));
            && Done(ended) && ended.buffer == parsed.remaining
            && Erase(ended.state) == OnFrames(Erase(s), parsed.frames)
            && ended.state.cfg == s.cfg && ended.state.rounds == s.rounds + Polls(inputs)
  {
    hide Parse, OnFrames, Erase, NormalizeConfig, Run, Drained;
    var consumed := RunKeepsTrack(s, inputs);
    DrainedKeepsTrack(s, Run(Started(s), inputs), consumed);
  }

  lemma ParseNothing()
    ensures Parse([]) == Parsed([], [])
  {
  }

  lemma EraseRound(s: State)
    requires NormalizeConfig(s.cfg) == s.cfg
    ensures Erase(NextRound(s)) == Erase(s) && NextRound(s).cfg == s.cfg && NextRound(s).rounds == s.rounds + 1
  {
    hide NormalizeConfig;
  }

  /** The settings a client can work with. */
  predicate Usable(cfg: Config) {
    && cfg.antennaMask != 0 && cfg.scanTime != 0 && cfg.outputPower <= 0x1E
    && cfg.pollInterval > 0 && cfg.singleFallbackEach >= 0 && cfg.noTagABSwitch >= 0
  }

  /** Normalizing makes a configuration usable and leaves exactly the usable ones as they are, so
      it is done once and a client's configuration stays the same. */
  lemma NormalizedUsable(cfg: Config)
    ensures Usable(NormalizeConfig(cfg))
    ensures NormalizeConfig(cfg) == cfg <==> Usable(cfg)
  {
  }

  function Distance(a: int, b: int): nat {
    if a < b then b - a else a - b
  }

  /** Normalizing moves each number no further than to the nearest usable one, except that a
      polling interval that is not positive becomes 40 ms, and it changes nothing else. */
  lemma NormalizedNearest(cfg: Config, u: Config)
    requires Usable(u)
    ensures var n := NormalizeConfig(cfg);
            && Distance(Val(n.antennaMask), Val(cfg.antennaMask)) <= Distance(Val(u.antennaMask), Val(cfg.antennaMask))
            && Distance(Val(n.scanTime), Val(cfg.scanTime)) <= Distance(Val(u.scanTime), Val(cfg.scanTime))
            && Distance(Val(n.outputPower), Val(cfg.outputPower)) <= Distance(Val(u.outputPower), Val(cfg.outputPower))
            && Distance(n.singleFallbackEach, cfg.singleFallbackEach)
               <= Distance(u.singleFallbackEach, cfg.singleFallbackEach)
            && Distance(n.noTagABSwitch, cfg.noTagABSwitch) <= Distance(u.noTagABSwitch, cfg.noTagABSwitch)
            && n.pollInterval == (if cfg.pollInterval <= 0 then 40_000_000 else cfg.pollInterval)
            && n == cfg.(antennaMask := n.antennaMask, scanTime := n.scanTime, outputPower := n.outputPower,
                         singleFallbackEach := n.singleFallbackEach, noTagABSwitch := n.noTagABSwitch,
                         pollInterval := n.pollInterval)
  {
    LeastPositive(u.antennaMask);
    LeastPositive(u.scanTime);
    Powers(cfg.outputPower, u.outputPower);
  }

  lemma LeastPositive(b: byte)
    ensures Val(0x00) == 0 && Val(0x01) == 1 && (b != 0x00 ==> Val(b) >= 1)
  {
    if b != 0x00 && Val(b) == 0 { ByteEqual(b, 0x00); }
  }

  lemma Powers(p: byte, u: byte)
    ensures Val(0x1E) == 30 && (p > 0x1E <==> Val(p) > 30) && (u <= 0x1E <==> Val(u) <= 30)
  {
  }

  // ---- Antennas of a run ------------------------------------------------------------------

  /** The antenna the next round asks for. */
  function NextAntenna(s: State): nat {
    Antenna.Pick(NormalizeConfig(s.cfg).antennaMask, s.antIdx)
  }

  /** The antennas a run has asked for, one for each poll. */
  function Asked(c: Client, inputs: seq<Input>): seq<nat>
    decreases inputs
  {
    if inputs == [] then []
    else
      var front := inputs[..|inputs| - 1];
      Asked(c, front) + if inputs[|inputs| - 1].Polled? then [NextAntenna(Run(c, front).state)] else []
  }

  /** Handling packets leaves the rotation alone. */
  lemma PerformKeepsRotation(s: State, op: Op)
    ensures Perform(s, op).antIdx == s.antIdx && Perform(s, op).rounds == s.rounds && Perform(s, op).cfg == s.cfg
  {
    hide RecordTag, ObserveNoTag;
    match op {
      case Record(source, antenna, rssi, epc) => RecordKeepsRotation(s, source, antenna, rssi, epc);
      case Observe(status) => ObserveKeepsRotation(s, status);
      case _ =>
    }
  }

  lemma RecordKeepsRotation(s: State, source: Source, antenna: nat, rssi: nat, epc: seq<byte>)
    ensures var t := RecordTag(s, source, antenna, rssi, epc);
            t.antIdx == s.antIdx && t.rounds == s.rounds && t.cfg == s.cfg
  {
    hide HexText.HexUpper;
  }

  lemma ObserveKeepsRotation(s: State, status: byte)
    ensures var t := ObserveNoTag(s, status); t.antIdx == s.antIdx && t.rounds == s.rounds && t.cfg == s.cfg
  {
    hide IsNoTagStatus, Flip;
  }

  lemma WorkKeepsRotation(c: Client)
    ensures Work(c).state.antIdx == c.state.antIdx && Work(c).state.rounds == c.state.rounds
    ensures Work(c).state.cfg == c.state.cfg
  {
    hide Perform, Parse, FramesOps;
    if c.pending != [] {
      PerformKeepsRotation(c.state, c.pending[0]);
    }
  }

  lemma {:induction false} AskedIsThreaded(s: State, inputs: seq<Input>)
    requires NormalizeConfig(s.cfg) == s.cfg
    ensures Asked(Started(s), inputs) == Antenna.Threaded(s.cfg.antennaMask, s.antIdx, Polls(inputs))
    ensures var t := Run(Started(s), inputs).state;
            t.cfg == s.cfg && t.antIdx == Antenna.IndexAfter(s.cfg.antennaMask, s.antIdx, Polls(inputs))
    decreases inputs
  {
    hide NormalizeConfig, Work, Antenna.Pick;
    if inputs != [] {
      var front := inputs[..|inputs| - 1];
      AskedIsThreaded(s, front);
      WorkKeepsRotation(Run(Started(s), front));
    }
  }

  /** Over any run with whole turns of polls, whatever packets come in between, each enabled
      antenna is asked for equally often and no disabled one at all. */
  lemma PollsFair(s: State, inputs: seq<Input>, turns: nat, x: nat)
    requires NormalizeConfig(s.cfg) == s.cfg && x < 8
    requires Polls(inputs) == turns * |Antenna.EnabledSet(s.cfg.antennaMask)|
    ensures Antenna.Count(Asked(Started(s), inputs), x)
         == if Antenna.Enabled(s.cfg.antennaMask, x) then turns else 0
  {
    NormalizedUsable(s.cfg);
    assert Antenna.Used(s.cfg.antennaMask) == s.cfg.antennaMask;
    hide NormalizeConfig, Antenna.Enabled, Antenna.Used, Antenna.Threaded, Antenna.Count, Antenna.EnabledSet, Asked, Usable;
    AskedIsThreaded(s, inputs);
    Antenna.CallsFair(s.cfg.antennaMask, s.antIdx, turns, x);
  }

  /** Over any run at all, no enabled antenna is asked for more than once above its share of the
      polls, none less than it, and no disabled one at all. */
  lemma PollsEven(s: State, inputs: seq<Input>, x: nat)
    requires NormalizeConfig(s.cfg) == s.cfg && x < 8
    ensures |Antenna.EnabledSet(s.cfg.antennaMask)| > 0
    ensures var share := Polls(inputs) / |Antenna.EnabledSet(s.cfg.antennaMask)|;
            var polls := Antenna.Count(Asked(Started(s), inputs), x);
            if Antenna.Enabled(s.cfg.antennaMask, x) then share <= polls <= share + 1 else polls == 0
  {
    NormalizedUsable(s.cfg);
    assert Antenna.Used(s.cfg.antennaMask) == s.cfg.antennaMask;
    hide NormalizeConfig, Antenna.Enabled, Antenna.Used, Antenna.Threaded, Antenna.Count, Antenna.EnabledSet, Asked, Usable;
    AskedIsThreaded(s, inputs);
    Antenna.CallsEven(s.cfg.antennaMask, s.antIdx, Polls(inputs), x);
  }

  // ---- Sightings --------------------------------------------------------------------------

  /** One tag as one response reported it. */
  datatype Read = Read(source: Source, antenna: nat, rssi: nat, epc: seq<byte>)

  /** What a frame tells about tags in the field. */
  datatype Sighting = Sighted(read: Read) | NothingThere

  function ReadOf(tag: Tag): Read {
    Read(FromG2, tag.antenna, tag.rssi, tag.epc)
  }

  function SightedAll(tags: seq<Tag>): (sights: seq<Sighting>)
    ensures |sights| == |tags| && forall k | 0 <= k < |tags| :: sights[k] == Sighted(ReadOf(tags[k]))
  {
    seq(|tags|, k requires 0 <= k < |tags| => Sighted(ReadOf(tags[k])))
  }

  /** The statuses that say no tag was there, as the protocol numbers them. */
  predicate SaysNoTag(status: byte) {
    status in {0x01, 0x02, 0x03, 0x04, 0xFB}
  }

  function SightingsOf(frame: Frame): seq<Sighting> {
    if frame.command == 0x01 then
      match TagsOf(frame)
      case Err(_) => []
      case Ok(tags) =>
        if tags != [] then SightedAll(tags)
        else if SaysNoTag(frame.status) then [NothingThere]
        else []
    else if frame.command == 0x0F then
      match ParseSingle(frame)
      case Err(_) => []
      case Ok(r) =>
        if r.tagCount > 0 && r.epc != [] then [Sighted(Read(FromSingle, Val(r.antenna), 0, r.epc))]
        else if SaysNoTag(frame.status) then [NothingThere]
        else []
    else []
  }

  function Sightings(frames: seq<Frame>): seq<Sighting>
    decreases frames
  {
    if frames == [] then [] else SightingsOf(frames[0]) + Sightings(frames[1..])
  }

  /** The effect of one sighting, ignoring everything that is not counted. */
  function See(s: State, sight: Sighting): State {
    match sight
    case Sighted(r) => RecordTag(s, r.source, r.antenna, r.rssi, r.epc)
    case NothingThere => ObserveNoTag(s, STATUS_NO_TAG)
  }

  function SeeAll(s: State, sights: seq<Sighting>): State
    decreases sights
  {
    if sights == [] then s else SeeAll(See(s, sights[0]), sights[1..])
  }

  /** The events that depend on sightings alone. */
  predicate Counts(e: Event) {
    e.TagSeen? || e.TargetSwitched?
  }

  function Counted(events: seq<Event>): seq<Event>
    decreases events
  {
    if events == [] then []
    else
      var front, e := Counted(events[..|events| - 1]), events[|events| - 1];
      if Counts(e) then front + [e] else front
  }

  /** Two states that count the same. */
  predicate SameCounts(s: State, t: State) {
    && s.cfg == t.cfg && s.seen == t.seen && s.uniqueTags == t.uniqueTags && s.noTagHit == t.noTagHit
    && s.target == t.target && s.rounds == t.rounds && s.lastTag == t.lastTag && Counted(s.events) == Counted(t.events)
  }

  lemma CountedAppend(events: seq<Event>, e: Event)
    ensures Counted(events + [e]) == if Counts(e) then Counted(events) + [e] else Counted(events)
  {
    assert (events + [e])[..|events|] == events;
  }

  lemma SeeRecord(s: State, t: State, source: Source, antenna: nat, rssi: nat, epc: seq<byte>)
    requires SameCounts(s, t)
    ensures SameCounts(RecordTag(s, source, antenna, rssi, epc), See(t, Sighted(Read(source, antenna, rssi, epc))))
  {
    hide HexText.HexUpper, Counted;
    var text := HexText.HexUpper(epc);
    var isNew := text !in s.seen;
    var unique := if isNew then s.uniqueTags + 1 else s.uniqueTags;
    CountedAppend(s.events, TagSeen(source, text, antenna, rssi, isNew, s.rounds, unique));
    CountedAppend(t.events, TagSeen(source, text, antenna, rssi, isNew, s.rounds, unique));
  }

  lemma SeeNothing(s: State, t: State, status: byte)
    requires SameCounts(s, t) && IsNoTagStatus(status)
    ensures SameCounts(ObserveNoTag(s, status), See(t, NothingThere))
  {
    hide Counted, Flip;
    CountedAppend(s.events, TargetSwitched(Flip(s.target)));
    CountedAppend(t.events, TargetSwitched(Flip(s.target)));
  }

  lemma SeeBuild(s: State, t: State, e: Event)
    requires SameCounts(s, t) && !Counts(e)
    ensures SameCounts(Build(s, e), t)
  {
    hide Counted;
    CountedAppend(s.events, e);
  }

  lemma {:induction false} SeeRecords(s: State, t: State, tags: seq<Tag>)
    requires SameCounts(s, t)
    ensures SameCounts(RecordTags(s, tags), SeeAll(t, SightedAll(tags)))
    decreases tags
  {
    hide SameCounts, RecordTag, See;
    if tags != [] {
      var sights := SightedAll(tags);
      SeeRecord(s, t, FromG2, tags[0].antenna, tags[0].rssi, tags[0].epc);
      SeeRecords(RecordTag(s, FromG2, tags[0].antenna, tags[0].rssi, tags[0].epc), See(t, sights[0]), tags[1..]);
      assert sights[1..] == SightedAll(tags[1..]);
    }
  }

  lemma SeeOne(t: State, sight: Sighting)
    ensures SeeAll(t, [sight]) == See(t, sight)
    ensures SeeAll(t, []) == t
  {
    assert [sight][1..] == [];
  }

  lemma SeeInventory(s: State, t: State, frame: Frame)
    requires SameCounts(s, t) && frame.command == CMD_INVENTORY
    ensures SameCounts(OnInventory(s, frame), SeeAll(t, SightingsOf(frame)))
  {
    hide SameCounts, RecordTags, ObserveNoTag, TagsOf, See, SeeAll;
    hide IsNoTagStatus, SaysNoTag;
    NoTagStatuses(frame.status);
    SeeOne(t, NothingThere);
    match TagsOf(frame) {
      case Err(e) => SeeBuild(s, t, ParseFailed(e));
      case Ok(tags) =>
        if tags != [] {
          SeeRecords(s, t, tags);
        } else if frame.status == STATUS_SUCCESS {
          if TagCount(frame).Ok? { SeeBuild(s, t, CountOnly(TagCount(frame).value)); }
        } else if SaysNoTag(frame.status) {
          SeeNothing(s, t, frame.status);
        } else {
          ObserveIgnored(s, frame.status);
        }
    }
  }

  lemma ObserveIgnored(s: State, status: byte)
    requires !IsNoTagStatus(status)
    ensures ObserveNoTag(s, status) == s
  {
  }

  lemma NoTagStatuses(status: byte)
    ensures IsNoTagStatus(status) <==> SaysNoTag(status)
    ensures !SaysNoTag(STATUS_SUCCESS)
  {
  }

  lemma SeeFrame(s: State, t: State, frame: Frame)
    requires SameCounts(s, t)
    ensures SameCounts(OnFrame(s, frame), SeeAll(t, SightingsOf(frame)))
  {
    hide OnInventory, RecordTag, ObserveNoTag, ParseSingle, See, SeeAll;
    hide IsNoTagStatus, SaysNoTag, Val;
    NoTagStatuses(frame.status);
    var u := if s.cfg.autoAddress then s.(readerAddr := frame.address) else s;
    assert SameCounts(u, t);
    hide SameCounts;
    SeeOne(t, NothingThere);
    if frame.command == CMD_INVENTORY {
      SeeInventory(u, t, frame);
    } else if frame.command == CMD_INVENTORY_SINGLE {
      if ParseSingle(frame).Ok? {
        var r := ParseSingle(frame).value;
        if r.tagCount > 0 && r.epc != [] {
          SeeOne(t, Sighted(Read(FromSingle, Val(r.antenna), 0, r.epc)));
          SeeRecord(u, t, FromSingle, Val(r.antenna), 0, r.epc);
        } else if SaysNoTag(frame.status) {
          SeeNothing(u, t, frame.status);
        } else {
          ObserveIgnored(u, frame.status);
        }
      }
    } else {
      SeeBuild(u, t, ReaderInfo);
    }
  }

  lemma {:induction false} SeeAllConcat(t: State, a: seq<Sighting>, b: seq<Sighting>)
    ensures SeeAll(t, a + b) == SeeAll(SeeAll(t, a), b)
    decreases a
  {
    hide See;
    if a == [] {
      assert a + b == b;
    } else {
      assert (a + b)[1..] == a[1..] + b;
      SeeAllConcat(See(t, a[0]), a[1..], b);
    }
  }

  /** A run counts as the plain sequence of its sightings does. */
  lemma {:induction false} SeeFrames(s: State, t: State, frames: seq<Frame>)
    requires SameCounts(s, t)
    ensures SameCounts(OnFrames(s, frames), SeeAll(t, Sightings(frames)))
    decreases frames
  {
    hide SameCounts, OnFrame, See, SightingsOf;
    if frames != [] {
      SeeFrame(s, t, frames[0]);
      SeeFrames(OnFrame(s, frames[0]), SeeAll(t, SightingsOf(frames[0])), frames[1..]);
      SeeAllConcat(t, SightingsOf(frames[0]), Sightings(frames[1..]));
    }
  }
}
