/**
 Tag lists inside inventory responses.  A 0x01 response carries an antenna mask, a count
 and that many records of length, EPC and RSSI; a 0x0F response carries one EPC.
 */
module TagPayload {
  import opened Wrappers
  import opened Reader18
  import Antenna

  datatype Tag = Tag(antenna: nat, epc: seq<byte>, rssi: nat)

  /** Why a tag list was refused, and at which record. */
  datatype TagError = NotInventory | Truncated(at: nat) | InvalidLength(at: nat) | MissingRssi(at: nat)

  function AntennaId(mask: byte): nat {
    match Val(mask)
    case 1 => 1
    case 2 => 2
    case 4 => 3
    case 8 => 4
    case 16 => 5
    case 32 => 6
    case 64 => 7
    case 128 => 8
    case other => other + 1
  }

  /** A mask with one antenna is numbered from 1, any other one by its value plus 1. */
  lemma AntennaIdExact(mask: byte)
    ensures forall i: nat | i < 8 && mask == Antenna.Only(i) :: AntennaId(mask) == i + 1
    ensures (forall i: nat | i < 8 :: mask != Antenna.Only(i)) ==> AntennaId(mask) == Val(mask) + 1
  {
    forall i: nat | i < 8 && mask == Antenna.Only(i)
      ensures AntennaId(mask) == i + 1
    {
      assert i == 0 || i == 1 || i == 2 || i == 3 || i == 4 || i == 5 || i == 6 || i == 7;
    }
    if forall i: nat | i < 8 :: mask != Antenna.Only(i) {
      hide Antenna.Only;
      OnlyValues();
      assert mask != Antenna.Only(0) && mask != Antenna.Only(1) && mask != Antenna.Only(2) && mask != Antenna.Only(3);
      assert mask != Antenna.Only(4) && mask != Antenna.Only(5) && mask != Antenna.Only(6) && mask != Antenna.Only(7);
    }
  }

  lemma OnlyValues()
    ensures Antenna.Only(0) == 1 && Antenna.Only(1) == 2 && Antenna.Only(2) == 4 && Antenna.Only(3) == 8
    ensures Antenna.Only(4) == 16 && Antenna.Only(5) == 32 && Antenna.Only(6) == 64 && Antenna.Only(7) == 128
  {
  }

  // ---- Decoding ----------------------------------------------------------------------

  /** Offset just after the EPC of the record at `cursor`, where its RSSI byte belongs. */
  function EpcEnd(data: seq<byte>, cursor: nat): nat
    requires cursor < |data|
  {
    cursor + 1 + Val(data[cursor])
  }

  predicate Complete(data: seq<byte>, cursor: nat) {
    cursor < |data| && Val(data[cursor]) > 0 && EpcEnd(data, cursor) < |data|
  }

  function Record(data: seq<byte>, cursor: nat, antenna: nat): Tag
    requires Complete(data, cursor)
  {
    Tag(antenna, data[cursor + 1..EpcEnd(data, cursor)], Val(data[EpcEnd(data, cursor)]))
  }

  /** Records `i` to `n` of a list, the first of them at `cursor`. */
  function DecodeTags(data: seq<byte>, cursor: nat, i: nat, n: nat, antenna: nat): Result<seq<Tag>, TagError>
    requires i <= n
    decreases n - i
  {
    if i == n then Ok([])
    else if cursor >= |data| then Err(Truncated(i))
    else if Val(data[cursor]) <= 0 || EpcEnd(data, cursor) > |data| then Err(InvalidLength(i))
    else if EpcEnd(data, cursor) >= |data| then Err(MissingRssi(i))
    else Prepend([Record(data, cursor, antenna)], DecodeTags(data, EpcEnd(data, cursor) + 1, i + 1, n, antenna))
  }

  function Prepend(tags: seq<Tag>, rest: Result<seq<Tag>, TagError>): Result<seq<Tag>, TagError> {
    match rest
    case Ok(more) => Ok(tags + more)
    case Err(e) => Err(e)
  }

  function TagsOf(frame: Frame): Result<seq<Tag>, TagError> {
    if frame.command != CMD_INVENTORY then Err(NotInventory)
    else if |frame.data| < 2 || Val(frame.data[1]) == 0 then Ok([])
    else DecodeTags(frame.data, 2, 0, Val(frame.data[1]), AntennaId(frame.data[0]))
  }

  method ParseInventoryG2Tags(frame: Frame) returns (result: Result<seq<Tag>, TagError>)
    ensures result == TagsOf(frame)
  {
    hide Val, AntennaId;
    if frame.command != CMD_INVENTORY {
      return Err(NotInventory);
    }
    var data := frame.data;
    if |data| < 2 {
      return Ok([]);
    }
    var tagNum := Val(data[1]);
    if tagNum <= 0 {
      return Ok([]);
    }
    var antenna := AntennaId(data[0]);
    var cursor := 2;
    var tags: seq<Tag> := [];
    PrependNone(DecodeTags(data, cursor, 0, tagNum, antenna));
    for i := 0 to tagNum
      invariant cursor >= 2
      invariant TagsOf(frame) == Prepend(tags, DecodeTags(data, cursor, i, tagNum, antenna))
    {
      ghost var from := cursor;
      if cursor >= |data| {
        return Err(Truncated(i));
      }
      var epcLen := Val(data[cursor]);
      cursor := cursor + 1;
      if epcLen <= 0 || cursor + epcLen > |data| {
        return Err(InvalidLength(i));
      }
      var epc := data[cursor..cursor + epcLen];
      cursor := cursor + epcLen;
      if cursor >= |data| {
        return Err(MissingRssi(i));
      }
      var rssi := Val(data[cursor]);
      cursor := cursor + 1;
      var tag := Tag(antenna, epc, rssi);
      assert tag == Record(data, from, antenna) && cursor == EpcEnd(data, from) + 1;
      PrependTwice(tags, [tag], DecodeTags(data, cursor, i + 1, tagNum, antenna));
      tags := tags + [tag];
    }
    assert tags + [] == tags;
    return Ok(tags);
  }

  lemma PrependNone(rest: Result<seq<Tag>, TagError>)
    ensures Prepend([], rest) == rest
  {
    if rest.Ok? {
      assert [] + rest.value == rest.value;
    }
  }

  lemma PrependTwice(a: seq<Tag>, b: seq<Tag>, rest: Result<seq<Tag>, TagError>)
    ensures Prepend(a, Prepend(b, rest)) == Prepend(a + b, rest)
  {
    if rest.Ok? {
      assert a + (b + rest.value) == (a + b) + rest.value;
    }
  }

  // ---- Encoding and round trip ---------------------------------------------------------

  predicate Encodable(tag: Tag) {
    1 <= |tag.epc| <= 255 && tag.rssi < 256
  }

  function EncodeTag(tag: Tag): seq<byte>
    requires Encodable(tag)
  {
    [Narrow(|tag.epc|)] + tag.epc + [Narrow(tag.rssi)]
  }

  function EncodeTags(tags: seq<Tag>): seq<byte>
    requires forall k | 0 <= k < |tags| :: Encodable(tags[k])
    decreases tags
  {
    if tags == [] then [] else EncodeTag(tags[0]) + EncodeTags(tags[1..])
  }

  /** Every tag can be encoded and was read by the given antenna. */
  predicate AllFrom(tags: seq<Tag>, antenna: nat) {
    forall k | 0 <= k < |tags| :: Encodable(tags[k]) && tags[k].antenna == antenna
  }

  /** The data at `cursor` goes on with these bytes. */
  predicate At(data: seq<byte>, cursor: nat, bytes: seq<byte>) {
    cursor <= |data| && bytes <= data[cursor..]
  }

  lemma AtConcat(data: seq<byte>, cursor: nat, a: seq<byte>, b: seq<byte>)
    ensures At(data, cursor, a + b) <==> At(data, cursor, a) && At(data, cursor + |a|, b)
  {
    if At(data, cursor, a) && At(data, cursor + |a|, b) {
      assert data[cursor..] == a + data[cursor + |a|..];
    }
    if At(data, cursor, a + b) {
      assert data[cursor..][..|a|] == a;
      assert data[cursor + |a|..][..|b|] == b;
    }
  }

  /** A complete record is the encoding of its tag, and the other way round. */
  lemma RecordIffEncoded(data: seq<byte>, cursor: nat, tag: Tag)
    requires Encodable(tag)
    ensures At(data, cursor, EncodeTag(tag)) <==> Complete(data, cursor) && Record(data, cursor, tag.antenna) == tag
    ensures At(data, cursor, EncodeTag(tag)) ==> EpcEnd(data, cursor) + 1 == cursor + |EncodeTag(tag)|
  {
    hide Val, Narrow;
    var code := EncodeTag(tag);
    if At(data, cursor, code) {
      assert forall k | 0 <= k < |code| :: data[cursor + k] == code[k];
      assert data[cursor] == code[0];
      assert data[cursor + 1..EpcEnd(data, cursor)] == code[1..|tag.epc| + 1];
      assert data[EpcEnd(data, cursor)] == code[|tag.epc| + 1];
    }
    if Complete(data, cursor) && Record(data, cursor, tag.antenna) == tag {
      ByteEqual(Narrow(|tag.epc|), data[cursor]);
      ByteEqual(Narrow(tag.rssi), data[EpcEnd(data, cursor)]);
      assert data[cursor..EpcEnd(data, cursor) + 1] == code;
    }
  }

  lemma RecordEncodable(data: seq<byte>, cursor: nat, antenna: nat)
    requires Complete(data, cursor)
    ensures Encodable(Record(data, cursor, antenna))
  {
    hide Val;
  }

  /** Decoding an encoded list, followed by anything, returns that list. */
  lemma {:induction false} DecodeEncoded(data: seq<byte>, cursor: nat, tags: seq<Tag>, i: nat, antenna: nat)
    requires AllFrom(tags, antenna) && At(data, cursor, EncodeTags(tags))
    ensures DecodeTags(data, cursor, i, i + |tags|, antenna) == Ok(tags)
    decreases tags
  {
    hide Val, At, EncodeTag, Record, Encodable;
    if tags != [] {
      AtConcat(data, cursor, EncodeTag(tags[0]), EncodeTags(tags[1..]));
      RecordIffEncoded(data, cursor, tags[0]);
      DecodeEncoded(data, EpcEnd(data, cursor) + 1, tags[1..], i + 1, antenna);
      assert tags == [tags[0]] + tags[1..];
    }
  }

  /** A successful decode consumed exactly the encoding of its result. */
  lemma {:induction false} DecodedIsEncoded(data: seq<byte>, cursor: nat, i: nat, n: nat, antenna: nat)
    requires i <= n && cursor <= |data| && DecodeTags(data, cursor, i, n, antenna).Ok?
    ensures var tags := DecodeTags(data, cursor, i, n, antenna).value;
            |tags| == n - i && AllFrom(tags, antenna) && At(data, cursor, EncodeTags(tags))
    decreases n - i
  {
    hide Val, EncodeTag, Encodable;
    if i == n {
      assert [] <= data[cursor..];
    } else {
      var tag, next := Record(data, cursor, antenna), EpcEnd(data, cursor) + 1;
      DecodedIsEncoded(data, next, i + 1, n, antenna);
      RecordEncodable(data, cursor, antenna);
      DecodedCons(data, cursor, tag, DecodeTags(data, next, i + 1, n, antenna).value);
    }
  }

  lemma DecodedCons(data: seq<byte>, cursor: nat, tag: Tag, rest: seq<Tag>)
    requires Complete(data, cursor) && Encodable(tag) && Record(data, cursor, tag.antenna) == tag
    requires AllFrom(rest, tag.antenna) && At(data, EpcEnd(data, cursor) + 1, EncodeTags(rest))
    ensures AllFrom([tag] + rest, tag.antenna)
    ensures EncodeTags([tag] + rest) == EncodeTag(tag) + EncodeTags(rest)
    ensures |EncodeTag(tag)| == EpcEnd(data, cursor) + 1 - cursor
    ensures At(data, cursor, EncodeTags([tag] + rest))
  {
    hide Val, At, EncodeTag, Record, Encodable;
    assert ([tag] + rest)[1..] == rest;
    RecordIffEncoded(data, cursor, tag);
    AtConcat(data, cursor, EncodeTag(tag), EncodeTags(rest));
  }

  /** A non-empty list decodes from a response exactly when the data is a mask, the list's
      count and its encoding, with whatever follows ignored. */
  lemma TagListRoundTrip(frame: Frame, tags: seq<Tag>)
    requires frame.command == CMD_INVENTORY && tags != []
    ensures TagsOf(frame) == Ok(tags) <==>
            && |frame.data| >= 2 && Val(frame.data[1]) == |tags|
            && AllFrom(tags, AntennaId(frame.data[0]))
            && At(frame.data, 2, EncodeTags(tags))
  {
    hide Val, At, AntennaId, Encodable, DecodeTags, EncodeTags;
    var data := frame.data;
    if |data| >= 2 && Val(data[1]) == |tags| {
      var antenna := AntennaId(data[0]);
      if AllFrom(tags, antenna) && At(data, 2, EncodeTags(tags)) {
        DecodeEncoded(data, 2, tags, 0, antenna);
      }
    }
    if TagsOf(frame) == Ok(tags) {
      DecodedIsEncoded(data, 2, 0, Val(data[1]), AntennaId(data[0]));
    }
  }

  /** A response with one record, byte by byte. */
  lemma OneTagOnWire(frame: Frame, mask: byte, count: byte, length: byte, epc: seq<byte>, rssi: byte)
    requires frame.command == 0x01 && frame.data == [mask, count, length] + epc + [rssi]
    requires Val(count) == 1 && Val(length) == |epc| > 0
    ensures TagsOf(frame) == Ok([Tag(AntennaId(mask), epc, Val(rssi))])
  {
    hide Val, AntennaId, DecodeTags;
    var data, antenna := frame.data, AntennaId(mask);
    assert data[3..|data| - 1] == epc && data[|data| - 1] == rssi;
    assert Complete(data, 2) && Record(data, 2, antenna) == Tag(antenna, epc, Val(rssi));
    DecodeLast(data, 2, 0, antenna);
  }

  /** Decoding a list of one record. */
  lemma DecodeLast(data: seq<byte>, cursor: nat, i: nat, antenna: nat)
    requires Complete(data, cursor)
    ensures DecodeTags(data, cursor, i, i + 1, antenna) == Ok([Record(data, cursor, antenna)])
  {
    hide Val, Record;
    var tag, next := Record(data, cursor, antenna), EpcEnd(data, cursor) + 1;
    assert DecodeTags(data, next, i + 1, i + 1, antenna) == Ok([]);
    assert [tag] + [] == [tag];
  }

  predicate Faulty(data: seq<byte>, at: nat, e: TagError) {
    match e
    case Truncated(_) => at == |data|
    case InvalidLength(_) => at < |data| && (Val(data[at]) == 0 || EpcEnd(data, at) > |data|)
    case MissingRssi(_) => at < |data| && Val(data[at]) != 0 && EpcEnd(data, at) == |data|
    case NotInventory => false
  }

  /** The error names the first bad record: the records before it decode, and where it
      should start the stated fault is there. */
  lemma {:induction false} FaultIsFirst(data: seq<byte>, cursor: nat, i: nat, n: nat, antenna: nat)
    requires i <= n && cursor <= |data| && DecodeTags(data, cursor, i, n, antenna).Err?
    ensures var e := DecodeTags(data, cursor, i, n, antenna).error;
            && !e.NotInventory? && i <= e.at < n && DecodeTags(data, cursor, i, e.at, antenna).Ok?
            && (var good := DecodeTags(data, cursor, i, e.at, antenna).value;
                AllFrom(good, antenna) && Faulty(data, cursor + |EncodeTags(good)|, e))
    decreases n - i
  {
    hide Val, EncodeTag, Encodable;
    if !Complete(data, cursor) {
      assert DecodeTags(data, cursor, i, n, antenna).error.at == i;
      assert DecodeTags(data, cursor, i, i, antenna) == Ok([]);
      assert AllFrom([], antenna) && |EncodeTags([])| == 0;
    } else {
      var tag, next := Record(data, cursor, antenna), EpcEnd(data, cursor) + 1;
      FaultIsFirst(data, next, i + 1, n, antenna);
      assert tag.antenna == antenna;
      var e := DecodeTags(data, cursor, i, n, antenna).error;
      RecordEncodable(data, cursor, antenna);
      DecodedIsEncoded(data, next, i + 1, e.at, antenna);
      DecodedCons(data, cursor, tag, DecodeTags(data, next, i + 1, e.at, antenna).value);
    }
  }

  // ---- Counts and single results -------------------------------------------------------

  /** The tag count a response claims; none unless it reports success. */
  function TagCount(frame: Frame): Result<nat, TagError> {
    if frame.command != CMD_INVENTORY then Err(NotInventory)
    else if frame.status != STATUS_SUCCESS || frame.data == [] then Ok(0)
    else Ok(Val(frame.data[0]))
  }

  datatype SingleResult = SingleResult(antenna: byte, tagCount: nat, epc: seq<byte>)

  datatype SingleError = NotSingle | BadStatus | TooShort | BadEpcLength

  function ParseSingle(frame: Frame): Result<SingleResult, SingleError> {
    if frame.command != CMD_INVENTORY_SINGLE then Err(NotSingle)
    else if frame.status != STATUS_NO_TAG && frame.status != STATUS_SUCCESS then Err(BadStatus)
    else if |frame.data| < 3 then Err(TooShort)
    else if |frame.data| < 3 + Val(frame.data[2]) then Err(BadEpcLength)
    else Ok(SingleResult(frame.data[0], Val(frame.data[1]), frame.data[3..3 + Val(frame.data[2])]))
  }

  /** A single result is decoded exactly from its own encoding. */
  lemma SingleRoundTrip(frame: Frame, r: SingleResult)
    ensures ParseSingle(frame) == Ok(r) <==>
            && frame.command == CMD_INVENTORY_SINGLE
            && (frame.status == STATUS_NO_TAG || frame.status == STATUS_SUCCESS)
            && r.tagCount < 256 && |r.epc| < 256
            && At(frame.data, 0, EncodeSingle(r))
  {
    hide Val, Narrow, ParseSingle, At;
    if r.tagCount < 256 && |r.epc| < 256 && At(frame.data, 0, EncodeSingle(r)) {
      SingleDecoded(frame, r);
    }
    if ParseSingle(frame) == Ok(r) {
      SingleEncoded(frame, r);
    }
  }

  /** A single result, byte by byte. */
  lemma SingleOnWire(frame: Frame, antenna: byte, count: byte, length: byte, epc: seq<byte>)
    requires frame.command == 0x0F && frame.status in {0x00, 0x01}
    requires frame.data == [antenna, count, length] + epc && Val(length) == |epc|
    ensures ParseSingle(frame) == Ok(SingleResult(antenna, Val(count), epc))
  {
    hide Val;
    assert frame.data[3..3 + |epc|] == epc;
  }

  function EncodeSingle(r: SingleResult): seq<byte>
    requires r.tagCount < 256 && |r.epc| < 256
  {
    [r.antenna, Narrow(r.tagCount), Narrow(|r.epc|)] + r.epc
  }

  lemma SingleDecoded(frame: Frame, r: SingleResult)
    requires r.tagCount < 256 && |r.epc| < 256 && At(frame.data, 0, EncodeSingle(r))
    ensures frame.command == CMD_INVENTORY_SINGLE
            && (frame.status == STATUS_NO_TAG || frame.status == STATUS_SUCCESS)
            ==> ParseSingle(frame) == Ok(r)
  {
    hide Val, Narrow;
    var data, code := frame.data, EncodeSingle(r);
    assert data[0..] == data;
    assert forall k | 0 <= k < |code| :: data[k] == code[k];
    assert data[3..3 + |r.epc|] == r.epc;
  }

  lemma SingleEncoded(frame: Frame, r: SingleResult)
    requires ParseSingle(frame) == Ok(r)
    ensures frame.command == CMD_INVENTORY_SINGLE
    ensures frame.status == STATUS_NO_TAG || frame.status == STATUS_SUCCESS
    ensures r.tagCount < 256 && |r.epc| < 256 && At(frame.data, 0, EncodeSingle(r))
  {
    hide Val, Narrow;
    var data := frame.data;
    ByteEqual(Narrow(r.tagCount), data[1]);
    ByteEqual(Narrow(|r.epc|), data[2]);
    assert EncodeSingle(r) == data[..3 + |r.epc|];
    assert data[0..] == data;
  }
}
