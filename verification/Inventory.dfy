/**
 One inventory run of the SDK client: packets are buffered and cut into frames, frames are
 folded into the seen set, the counters and the A/B target, and events are built in order.

 `State` and the functions on it say what each step does; the class performs the steps on
 its fields.
 */
module Inventory {
  import opened Wrappers
  import opened Reader18
  import opened TagPayload
  import Antenna
  import HexText

  datatype Config = Config(
    readerAddress: byte, autoAddress: bool, qValue: byte, session: byte, target: byte,
    antennaMask: byte, scanTime: byte, pollInterval: int, outputPower: byte,
    noTagABSwitch: int, singleFallbackEach: int)

  /** Durations are in nanoseconds. */
  const MILLISECOND := 1_000_000
  const DEFAULT_POLL := 40 * MILLISECOND

  function NormalizeConfig(cfg: Config): Config {
    cfg.(
      antennaMask := if cfg.antennaMask == 0 then 0x01 else cfg.antennaMask,
      scanTime := if cfg.scanTime == 0 then 0x01 else cfg.scanTime,
      outputPower := if cfg.outputPower > 0x1E then 0x1E else cfg.outputPower,
      pollInterval := if cfg.pollInterval <= 0 then DEFAULT_POLL else cfg.pollInterval,
      singleFallbackEach := if cfg.singleFallbackEach < 0 then 0 else cfg.singleFallbackEach,
      noTagABSwitch := if cfg.noTagABSwitch < 0 then 0 else cfg.noTagABSwitch)
  }

  /** The polling period: the least one the setting, the reader's scan time and the timer allow. */
  function EffectiveInterval(cfg: Config): (interval: int)
    ensures cfg.pollInterval <= interval && Val(cfg.scanTime) * 100_000_000 <= interval && 40_000_000 <= interval
    ensures interval in {cfg.pollInterval, Val(cfg.scanTime) * 100_000_000, 40_000_000}
  {
    var scan := 100 * Val(cfg.scanTime) * MILLISECOND;
    var least := if scan < DEFAULT_POLL then DEFAULT_POLL else scan;
    if cfg.pollInterval > least then cfg.pollInterval else least
  }

  datatype Source = FromG2 | FromSingle

  /** What the client builds for its channels, in order. */
  datatype Event =
    | TagSeen(source: Source, epc: string, antenna: nat, rssi: nat, isNew: bool, rounds: nat, uniqueTags: nat)
    | ReaderInfo
    | CountOnly(count: nat)
    | TargetSwitched(target: byte)
    | ParseFailed(error: TagError)

  datatype State = State(
    cfg: Config, seen: set<string>, uniqueTags: nat, noTagHit: nat, target: byte,
    readerAddr: byte, lastTag: string, rounds: nat, antIdx: int, events: seq<Event>)

  // ---- One step on the state --------------------------------------------------------

  function RecordTag(s: State, source: Source, antenna: nat, rssi: nat, epc: seq<byte>): State {
    var text := HexText.HexUpper(epc);
    if text == "" then s
    else
      var isNew := text !in s.seen;
      var unique := if isNew then s.uniqueTags + 1 else s.uniqueTags;
      s.(noTagHit := 0, seen := s.seen + {text}, uniqueTags := unique, lastTag := text,
         events := s.events + [TagSeen(source, text, antenna, rssi, isNew, s.rounds, unique)])
  }

  function RecordTags(s: State, tags: seq<Tag>): State
    decreases tags
  {
    if tags == [] then s
    else RecordTags(RecordTag(s, FromG2, tags[0].antenna, tags[0].rssi, tags[0].epc), tags[1..])
  }

  predicate IsNoTagStatus(status: byte) {
    status == STATUS_NO_TAG || status == STATUS_NO_TAG_OR_TIMEOUT || status == 0x02 || status == 0x03 || status == 0x04
  }

  /** A/B switching is configured. */
  predicate Switching(cfg: Config) {
    cfg.session > 1 && cfg.noTagABSwitch > 0
  }

  function Flip(target: byte): byte { target ^ 0x01 }

  function ObserveNoTag(s: State, status: byte): State {
    if !IsNoTagStatus(status) then s
    else if Switching(s.cfg) && s.noTagHit + 1 >= s.cfg.noTagABSwitch then
      s.(noTagHit := 0, target := Flip(s.target), events := s.events + [TargetSwitched(Flip(s.target))])
    else s.(noTagHit := s.noTagHit + 1)
  }

  function Build(s: State, event: Event): State {
    s.(events := s.events + [event])
  }

  function OnInventory(s: State, frame: Frame): State {
    match TagsOf(frame)
    case Err(e) => if e.Truncated? || e.InvalidLength? then Build(s, ParseFailed(e)) else s
    case Ok(tags) =>
      if tags != [] then RecordTags(s, tags)
      else if frame.status == STATUS_SUCCESS then
        match TagCount(frame)
        case Ok(count) => if count > 0 then Build(s, CountOnly(count)) else s
        case Err(_) => s
      else ObserveNoTag(s, frame.status)
  }

  /** A successful response without tags is reported by its first byte, whatever it stands for. */
  lemma CountOnlyIff(s: State, frame: Frame, n: nat)
    requires frame.command == CMD_INVENTORY && frame.status == STATUS_SUCCESS && TagsOf(frame) == Ok([])
    ensures OnInventory(s, frame) == Build(s, CountOnly(n)) <==>
            n > 0 && frame.data != [] && Val(frame.data[0]) == n
    ensures OnInventory(s, frame) == s <==> frame.data == [] || Val(frame.data[0]) == 0
  {
    hide TagsOf, Val;
    assert forall e :: |Build(s, e).events| == |s.events| + 1;
    assert forall e :: Build(s, e).events[|s.events|] == e;
  }

  function OnSingle(s: State, frame: Frame): State {
    match ParseSingle(frame)
    case Err(_) => s
    case Ok(r) =>
      if r.tagCount > 0 && r.epc != [] then RecordTag(s, FromSingle, Val(r.antenna), 0, r.epc)
      else ObserveNoTag(s, frame.status)
  }

  function OnFrame(s: State, frame: Frame): State {
    var t := if s.cfg.autoAddress then s.(readerAddr := frame.address) else s;
    if frame.command == CMD_INVENTORY then OnInventory(t, frame)
    else if frame.command == CMD_INVENTORY_SINGLE then OnSingle(t, frame)
    else if frame.command == CMD_GET_READER_INFO then Build(t, ReaderInfo)
    else t
  }

  function OnFrames(s: State, frames: seq<Frame>): State
    decreases frames
  {
    if frames == [] then s else OnFrames(OnFrame(s, frames[0]), frames[1..])
  }

  /** The buffer after one more packet; past 8192 bytes only the last 4096 are kept. */
  function Intake(buffer: seq<byte>, data: seq<byte>): seq<byte> {
    var all := buffer + data;
    if |all| > 8192 then all[|all| - 4096..] else all
  }

  /** Only the oldest bytes are ever dropped: none up to 8192, and then all but the last 4096. */
  lemma IntakeKeepsNewest(buffer: seq<byte>, data: seq<byte>) returns (cut: nat)
    ensures cut <= |buffer + data| && Intake(buffer, data) == (buffer + data)[cut..]
    ensures if |buffer| + |data| <= 8192 then cut == 0 else |Intake(buffer, data)| == 4096
    ensures |data| >= 8193 ==> Intake(buffer, data) == data[|data| - 4096..]
  {
    var all := buffer + data;
    cut := if |all| > 8192 then |all| - 4096 else 0;
    if |data| >= 8193 {
      assert all[|all| - 4096..] == data[|data| - 4096..];
    }
  }

  /** The state after one more polling round. */
  function NextRound(s: State): State {
    var cfg := NormalizeConfig(s.cfg);
    s.(cfg := cfg, rounds := s.rounds + 1, antIdx := (Antenna.Pick(cfg.antennaMask, s.antIdx) + 1) % 8)
  }

  /** The inventory command of the round that leaves `s` behind; `antenna` is what it asks for. */
  function RoundPacket(s: State, antenna: nat): seq<byte>
    requires antenna < 8
  {
    Packet(s.readerAddr, CMD_INVENTORY,
           InventoryG2Payload(s.cfg.qValue, s.cfg.session, 0, 0, s.target,
                              Antenna.AntennaByte(antenna), s.cfg.scanTime))
  }

  /** Rounds that also send a single-tag command. */
  predicate WithSingle(s: State) {
    s.cfg.singleFallbackEach > 0 && s.rounds % s.cfg.singleFallbackEach == 0
  }

  /** The state a run starts from. */
  function Reset(s: State): State {
    State(s.cfg, {}, 0, 0, s.cfg.target, if s.readerAddr == 0 then s.cfg.readerAddress else s.readerAddr, "", 0, 0, [])
  }

  // ---- The client --------------------------------------------------------------------

  /** How a call of `StartInventory` ends. */
  datatype Start = Running | NotConnected | AlreadyRunning | NotConfigured

  class InventoryClient {
    var cfg: Config
    var inventoryOn: bool
    var seen: set<string>
    var parserBuffer: seq<byte>
    var rounds: nat
    var uniqueTags: nat
    var noTagHit: nat
    var antIdx: int
    var readerAddr: byte
    var targetValue: byte
    var lastTagEPC: string
    ghost var events: seq<Event>

    ghost function Snapshot(): State
      reads this
    {
      State(cfg, seen, uniqueTags, noTagHit, targetValue, readerAddr, lastTagEPC, rounds, antIdx, events)
    }

    constructor (config: Config)
      ensures cfg == NormalizeConfig(config) && !inventoryOn && parserBuffer == []
      ensures Snapshot() == State(cfg, {}, 0, 0, cfg.target, cfg.readerAddress, "", 0, 0, [])
    {
      var normal := NormalizeConfig(config);
      cfg, inventoryOn, seen, parserBuffer := normal, false, {}, [];
      rounds, uniqueTags, noTagHit, antIdx := 0, 0, 0, 0;
      readerAddr, targetValue, lastTagEPC, events := normal.readerAddress, normal.target, "", [];
    }

    method ClearCounters()
      modifies `rounds, `uniqueTags, `noTagHit, `antIdx
      ensures rounds == uniqueTags == noTagHit == 0 && antIdx == 0
    {
      rounds := 0;
      uniqueTags := 0;
      noTagHit := 0;
      antIdx := 0;
    }

    /** Resets the state for a run.  A reader that refuses its configuration ends the run again,
        but the reset stays. */
    method StartInventory(connected: bool, configured: bool) returns (result: Start)
      modifies this
      ensures result == if !connected then NotConnected
                        else if old(inventoryOn) then AlreadyRunning
                        else if !configured then NotConfigured
                        else Running
      ensures result.NotConnected? || result.AlreadyRunning? ==>
                Snapshot() == old(Snapshot()) && parserBuffer == old(parserBuffer) && inventoryOn == old(inventoryOn)
      ensures result.NotConfigured? || result.Running? ==>
                parserBuffer == [] && Snapshot() == Reset(old(Snapshot())) && inventoryOn == result.Running?
      ensures result.Running? ==>
                && targetValue == cfg.target && cfg == old(cfg) && seen == {} && events == [] && lastTagEPC == ""
                && rounds == uniqueTags == noTagHit == 0 && antIdx == 0
                && readerAddr == if old(readerAddr) == 0x00 then cfg.readerAddress else old(readerAddr)
    {
      if !connected {
        return NotConnected;
      }
      if inventoryOn {
        return AlreadyRunning;
      }
      inventoryOn := true;
      ResetRun();
      if !configured {
        inventoryOn := false;
        return NotConfigured;
      }
      return Running;
    }

    method ResetRun()
      modifies `seen, `parserBuffer, `rounds, `uniqueTags, `noTagHit, `antIdx, `lastTagEPC, `targetValue, `readerAddr, `events
      ensures parserBuffer == [] && Snapshot() == Reset(old(Snapshot()))
    {
      seen := {};
      parserBuffer := [];
      ClearCounters();
      lastTagEPC := "";
      targetValue := cfg.target;
      if readerAddr == 0 {
        readerAddr := cfg.readerAddress;
      }
      events := [];
    }

    method RecordOne(source: Source, antenna: nat, rssi: nat, epc: seq<byte>)
      modifies this
      ensures Snapshot() == RecordTag(old(Snapshot()), source, antenna, rssi, epc)
      ensures parserBuffer == old(parserBuffer) && inventoryOn == old(inventoryOn)
      ensures var text := HexText.HexUpper(epc);
              text != "" ==>
                && seen == old(seen) + {text} && noTagHit == 0 && lastTagEPC == text
                && uniqueTags == old(uniqueTags) + (if text in old(seen) then 0 else 1)
                && events == old(events)
                           + [TagSeen(source, text, antenna, rssi, text !in old(seen), rounds, uniqueTags)]
    {
      hide HexText.HexUpper;
      var epcText := HexText.HexUpper(epc);
      if epcText == "" {
        return;
      }
      noTagHit := 0;
      var known := epcText in seen;
      if !known {
        seen := seen + {epcText};
        uniqueTags := uniqueTags + 1;
      } else {
        assert seen + {epcText} == seen;
      }
      lastTagEPC := epcText;
      events := events + [TagSeen(source, epcText, antenna, rssi, !known, rounds, uniqueTags)];
    }

    method ObserveEmpty(status: byte)
      modifies this
      ensures Snapshot() == ObserveNoTag(old(Snapshot()), status)
      ensures parserBuffer == old(parserBuffer) && inventoryOn == old(inventoryOn)
      ensures status !in {0x01, 0x02, 0x03, 0x04, 0xFB} ==> Snapshot() == old(Snapshot())
      ensures status in {0x01, 0x02, 0x03, 0x04, 0xFB} ==>
                if cfg.session >= 2 && 1 <= cfg.noTagABSwitch <= old(noTagHit) + 1 then
                  && noTagHit == 0 && targetValue == old(targetValue) ^ 0x01
                  && events == old(events) + [TargetSwitched(targetValue)]
                else noTagHit == old(noTagHit) + 1 && targetValue == old(targetValue) && events == old(events)
    {
      if !IsNoTagStatus(status) {
        return;
      }
      noTagHit := noTagHit + 1;
      if cfg.session > 1 && cfg.noTagABSwitch > 0 && noTagHit >= cfg.noTagABSwitch {
        targetValue := targetValue ^ 0x01;
        noTagHit := 0;
        events := events + [TargetSwitched(targetValue)];
      }
    }

    method HandleInventoryFrame(frame: Frame)
      modifies this
      ensures Snapshot() == OnInventory(old(Snapshot()), frame)
      ensures parserBuffer == old(parserBuffer) && inventoryOn == old(inventoryOn)
    {
      hide RecordTag, ObserveNoTag, TagsOf;
      var result := ParseInventoryG2Tags(frame);
      if result.Err? {
        if result.error.Truncated? || result.error.InvalidLength? {
          events := events + [ParseFailed(result.error)];
        }
        return;
      }
      var tags := result.value;
      if |tags| > 0 {
        for k := 0 to |tags|
          invariant parserBuffer == old(parserBuffer) && inventoryOn == old(inventoryOn)
          invariant RecordTags(Snapshot(), tags[k..]) == RecordTags(old(Snapshot()), tags)
        {
          assert tags[k..][1..] == tags[k + 1..];
          RecordOne(FromG2, tags[k].antenna, tags[k].rssi, tags[k].epc);
        }
        return;
      }
      if frame.status == STATUS_SUCCESS {
        var count := TagCount(frame);
        if count.Ok? && count.value > 0 {
          events := events + [CountOnly(count.value)];
        }
        return;
      }
      ObserveEmpty(frame.status);
    }

    method HandleInventorySingleFrame(frame: Frame)
      modifies this
      ensures Snapshot() == OnSingle(old(Snapshot()), frame)
      ensures parserBuffer == old(parserBuffer) && inventoryOn == old(inventoryOn)
    {
      hide RecordTag, ObserveNoTag, ParseSingle;
      var result := ParseSingle(frame);
      if result.Err? {
        return;
      }
      if result.value.tagCount > 0 && |result.value.epc| > 0 {
        RecordOne(FromSingle, Val(result.value.antenna), 0, result.value.epc);
        return;
      }
      ObserveEmpty(frame.status);
    }

    method ConsumeFrame(frame: Frame)
      modifies this
      ensures Snapshot() == OnFrame(old(Snapshot()), frame)
      ensures parserBuffer == old(parserBuffer) && inventoryOn == old(inventoryOn)
    {
      hide OnInventory, OnSingle;
      if cfg.autoAddress {
        readerAddr := frame.address;
      }
      if frame.command == CMD_INVENTORY {
        HandleInventoryFrame(frame);
      } else if frame.command == CMD_INVENTORY_SINGLE {
        HandleInventorySingleFrame(frame);
      } else if frame.command == CMD_GET_READER_INFO {
        events := events + [ReaderInfo];
      }
    }

    method ConsumePacket(data: seq<byte>)
      modifies this
      ensures var parsed := Parse(Intake(old(parserBuffer), data));
              parserBuffer == parsed.remaining && Snapshot() == OnFrames(old(Snapshot()), parsed.frames)
      ensures inventoryOn == old(inventoryOn)
    {
      hide OnFrame, Parse;
      parserBuffer := parserBuffer + data;
      if |parserBuffer| > 8192 {
        parserBuffer := parserBuffer[|parserBuffer| - 4096..];
      }
      var frames, remaining := ParseFrames(parserBuffer);
      assert Parsed(frames, remaining) == Parse(Intake(old(parserBuffer), data));
      parserBuffer := remaining;
      for k := 0 to |frames|
        invariant parserBuffer == remaining && inventoryOn == old(inventoryOn)
        invariant OnFrames(Snapshot(), frames[k..]) == OnFrames(old(Snapshot()), frames)
      {
        assert frames[k..][1..] == frames[k + 1..];
        ConsumeFrame(frames[k]);
      }
    }

    /** One polling round: the inventory command for the next antenna and, every so often,
        a single-tag command as well. */
    method NextInventoryCommand()
      returns (ok: bool, inventory: seq<byte>, single: Option<seq<byte>>, interval: int)
      modifies this
      ensures ok == old(inventoryOn) && inventoryOn == old(inventoryOn) && parserBuffer == old(parserBuffer)
      ensures !ok ==> Snapshot() == old(Snapshot())
      ensures ok ==> Snapshot() == NextRound(old(Snapshot())) && VerifyPacket(inventory)
      ensures ok ==> inventory == RoundPacket(Snapshot(), Antenna.Pick(cfg.antennaMask, old(antIdx)))
      ensures single == if ok && WithSingle(Snapshot()) then Some(Packet(readerAddr, CMD_INVENTORY_SINGLE, [])) else None
      ensures interval == if ok then EffectiveInterval(cfg) else 0
    {
      hide Packet, VerifyPacket, Antenna.AntennaByte, Antenna.Pick;
      if !inventoryOn {
        return false, [], None, 0;
      }
      cfg := NormalizeConfig(cfg);
      rounds := rounds + 1;
      var antenna, nextIdx := Antenna.NextInventoryAntenna(cfg.antennaMask, antIdx);
      antIdx := nextIdx;
      inventory := BuildCommand(readerAddr, CMD_INVENTORY,
        InventoryG2Payload(cfg.qValue, cfg.session, 0x00, 0x00, targetValue, antenna, cfg.scanTime));
      single := None;
      if cfg.singleFallbackEach > 0 && rounds % cfg.singleFallbackEach == 0 {
        var command := BuildCommand(readerAddr, CMD_INVENTORY_SINGLE, []);
        single := Some(command);
      }
      interval := EffectiveInterval(cfg);
      ok := true;
    }
  }
}
