/**
 What a run reports besides tags and target switches, and the reader address it answers to:
 both follow from the frames alone.
 */
module InventoryReports {
  import opened Wrappers
  import opened Reader18
  import opened TagPayload
  import opened Inventory
  import opened InventoryRuns
  import HexText

  /** The other events, in order. */
  function Others(events: seq<Event>): seq<Event>
    decreases events
  {
    if events == [] then []
    else
      var front, e := Others(events[..|events| - 1]), events[|events| - 1];
      if Counts(e) then front else front + [e]
  }

  /** What one frame makes the client say: reader information, a count without tags, or a list cut
      short or with a bad length.  A missing RSSI byte is passed over in silence. */
  function Told(frame: Frame): seq<Event> {
    if frame.command == 0x21 then [ReaderInfo]
    else if frame.command != 0x01 then []
    else
      match TagsOf(frame)
      case Err(e) => if e.MissingRssi? then [] else [ParseFailed(e)]
      case Ok(tags) =>
        if tags == [] && frame.status == 0x00 && frame.data != [] && Val(frame.data[0]) > 0
        then [CountOnly(Val(frame.data[0]))] else []
  }

  function ToldAll(frames: seq<Frame>): seq<Event>
    decreases frames
  {
    if frames == [] then [] else Told(frames[0]) + ToldAll(frames[1..])
  }

  lemma OthersAppend(events: seq<Event>, e: Event)
    ensures Others(events + [e]) == if Counts(e) then Others(events) else Others(events) + [e]
  {
    assert (events + [e])[..|events|] == events;
  }

  lemma RecordSilent(s: State, source: Source, antenna: nat, rssi: nat, epc: seq<byte>)
    ensures Others(RecordTag(s, source, antenna, rssi, epc).events) == Others(s.events)
  {
    hide HexText.HexUpper, Others;
    var text := HexText.HexUpper(epc);
    var isNew := text !in s.seen;
    OthersAppend(s.events,
      TagSeen(source, text, antenna, rssi, isNew, s.rounds, if isNew then s.uniqueTags + 1 else s.uniqueTags));
  }

  lemma {:induction false} RecordsSilent(s: State, tags: seq<Tag>)
    ensures Others(RecordTags(s, tags).events) == Others(s.events)
    decreases tags
  {
    hide RecordTag, Others;
    if tags != [] {
      RecordSilent(s, FromG2, tags[0].antenna, tags[0].rssi, tags[0].epc);
      RecordsSilent(RecordTag(s, FromG2, tags[0].antenna, tags[0].rssi, tags[0].epc), tags[1..]);
    }
  }

  lemma ObserveSilent(s: State, status: byte)
    ensures Others(ObserveNoTag(s, status).events) == Others(s.events)
  {
    hide Others, Flip;
    OthersAppend(s.events, TargetSwitched(Flip(s.target)));
  }

  lemma {:induction false} TagsFault(frame: Frame)
    ensures frame.command == CMD_INVENTORY && TagsOf(frame).Err? ==> !TagsOf(frame).error.NotInventory?
  {
    hide Val, AntennaId, DecodeTags;
    if frame.command == CMD_INVENTORY && |frame.data| >= 2 && Val(frame.data[1]) > 0 && TagsOf(frame).Err? {
      FaultIsFirst(frame.data, 2, 0, Val(frame.data[1]), AntennaId(frame.data[0]));
    }
  }

  lemma InventoryTells(s: State, frame: Frame)
    requires frame.command == CMD_INVENTORY
    ensures Others(OnInventory(s, frame).events) == Others(s.events) + Told(frame)
  {
    hide Others, TagsOf, RecordTags, ObserveNoTag, Val;
    TagsFault(frame);
    assert Others(s.events) + [] == Others(s.events);
    match TagsOf(frame) {
      case Err(e) => OthersAppend(s.events, ParseFailed(e));
      case Ok(tags) =>
        RecordsSilent(s, tags);
        ObserveSilent(s, frame.status);
        if TagCount(frame).Ok? { OthersAppend(s.events, CountOnly(TagCount(frame).value)); }
    }
  }

  lemma FrameTells(s: State, frame: Frame)
    ensures Others(OnFrame(s, frame).events) == Others(s.events) + Told(frame)
  {
    hide Others, OnInventory, RecordTag, ObserveNoTag, ParseSingle, Told;
    var t := if s.cfg.autoAddress then s.(readerAddr := frame.address) else s;
    ToldElsewhere(frame);
    if frame.command == CMD_INVENTORY {
      InventoryTells(t, frame);
    } else if frame.command == CMD_INVENTORY_SINGLE {
      ObserveSilent(t, frame.status);
      if ParseSingle(frame).Ok? {
        var r := ParseSingle(frame).value;
        RecordSilent(t, FromSingle, Val(r.antenna), 0, r.epc);
      }
    } else {
      OthersAppend(t.events, ReaderInfo);
    }
  }

  lemma ToldElsewhere(frame: Frame)
    ensures frame.command == CMD_GET_READER_INFO ==> Told(frame) == [ReaderInfo]
    ensures frame.command !in {CMD_GET_READER_INFO, CMD_INVENTORY} ==> Told(frame) == []
  {
  }

  lemma {:induction false} FramesTell(s: State, frames: seq<Frame>)
    ensures Others(OnFrames(s, frames).events) == Others(s.events) + ToldAll(frames)
    decreases frames
  {
    hide Others, OnFrame, Told;
    if frames != [] {
      FrameTells(s, frames[0]);
      FramesTell(OnFrame(s, frames[0]), frames[1..]);
      assert (Others(s.events) + Told(frames[0])) + ToldAll(frames[1..])
          == Others(s.events) + (Told(frames[0]) + ToldAll(frames[1..]));
    }
  }

  // ---- The reader's address -----------------------------------------------------------------

  /** The address after these frames: that of the last one, if it is to be taken over. */
  function AddressAfter(s: State, frames: seq<Frame>): byte {
    if s.cfg.autoAddress && frames != [] then frames[|frames| - 1].address else s.readerAddr
  }

  lemma {:induction false} RecordsKeepAddress(s: State, tags: seq<Tag>)
    ensures RecordTags(s, tags).readerAddr == s.readerAddr && RecordTags(s, tags).cfg == s.cfg
    decreases tags
  {
    hide HexText.HexUpper;
    if tags != [] {
      RecordsKeepAddress(RecordTag(s, FromG2, tags[0].antenna, tags[0].rssi, tags[0].epc), tags[1..]);
    }
  }

  lemma FrameAddress(s: State, frame: Frame)
    ensures OnFrame(s, frame).readerAddr == AddressAfter(s, [frame]) && OnFrame(s, frame).cfg == s.cfg
  {
    hide TagsOf, RecordTags, ParseSingle, HexText.HexUpper, Flip, Val;
    if TagsOf(frame).Ok? {
      var t := if s.cfg.autoAddress then s.(readerAddr := frame.address) else s;
      RecordsKeepAddress(t, TagsOf(frame).value);
    }
  }

  lemma {:induction false} FramesAddress(s: State, frames: seq<Frame>)
    ensures OnFrames(s, frames).readerAddr == AddressAfter(s, frames) && OnFrames(s, frames).cfg == s.cfg
    decreases frames
  {
    hide OnFrame;
    if frames != [] {
      FrameAddress(s, frames[0]);
      FramesAddress(OnFrame(s, frames[0]), frames[1..]);
    }
  }

  // ---- Whole runs ---------------------------------------------------------------------------

  lemma {:induction false} OthersUnnumbered(events: seq<Event>)
    ensures Others(UnnumberedAll(events)) == Others(events)
    decreases events
  {
    if events != [] {
      var n := |events| - 1;
      OthersUnnumbered(events[..n]);
      UnnumberedAppend(events[..n], events[n]);
      assert events == events[..n] + [events[n]];
      OthersAppend(UnnumberedAll(events[..n]), Unnumbered(events[n]));
    }
  }

  /** However its bytes are cut into packets and wherever polls fall, a run reports what the frames
      of all its bytes tell, in their order, and answers to the address of the last of them. */
  lemma RunReports(s: State, inputs: seq<Input>)
    requires NormalizeConfig(s.cfg) == s.cfg
    requires forall k | 0 <= k < |inputs| && inputs[k].Delivered? :: |inputs[k].data| <= 7937
    ensures var ended, frames := Drained(Run(Started(s), inputs)).state, Parse(Bytes(inputs)).frames;
            && Others(ended.events) == Others(s.events) + ToldAll(frames)
            && ended.readerAddr == AddressAfter(s, frames)
  {
    hide NormalizeConfig, Drained, Run, Parse, OnFrames, Others, ToldAll, UnnumberedAll;
    var frames := Parse(Bytes(inputs)).frames;
    ChunkInvariance(s, inputs);
    FramesTell(Erase(s), frames);
    FramesAddress(Erase(s), frames);
    OthersUnnumbered(s.events);
    OthersUnnumbered(Drained(Run(Started(s), inputs)).state.events);
  }
}
