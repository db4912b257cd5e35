/**
 Wire packets of the Reader18 protocol and the greedy frame parser.

 A packet is Len, Adr, Cmd, payload, CRC low, CRC high, where Len counts everything
 after itself.
 */
module Reader18 {
  import opened Wrappers
  import opened Crc16

  const CMD_INVENTORY: byte := 0x01
  const CMD_INVENTORY_SINGLE: byte := 0x0F
  const CMD_GET_READER_INFO: byte := 0x21
  const STATUS_SUCCESS: byte := 0x00
  const STATUS_NO_TAG: byte := 0x01
  const STATUS_NO_TAG_OR_TIMEOUT: byte := 0xFB

  datatype Frame = Frame(
    length: byte,
    address: byte,
    command: byte,
    status: byte,
    data: seq<byte>,
    raw: seq<byte>,
    crcValid: bool)

  // ---- Building and checking one packet ------------------------------------------

  /** The length byte is narrowed to eight bits, so it wraps for long payloads. */
  function LengthByte(payload: seq<byte>): byte {
    Narrow((|payload| + 4) % 256)
  }

  function Body(address: byte, command: byte, payload: seq<byte>): seq<byte> {
    [LengthByte(payload), address, command] + payload
  }

  function Trailer(crc: bv16): seq<byte> {
    [LowByte(crc), HighByte(crc)]
  }

  function Packet(address: byte, command: byte, payload: seq<byte>): seq<byte> {
    Body(address, command, payload) + Trailer(Crc(Body(address, command, payload)))
  }

  /** Where each byte of a packet stands. */
  lemma PacketLayout(address: byte, command: byte, payload: seq<byte>)
    requires |payload| <= 251
    ensures var packet := Packet(address, command, payload);
            && |packet| == |payload| + 5 && Val(packet[0]) == |payload| + 4
            && packet[1] == address && packet[2] == command && packet[3..|packet| - 2] == payload
            && Crc(packet) == 0
  {
    hide Crc, LowByte, HighByte;
    var body := Body(address, command, payload);
    ClosedByTrailer(body);
    Framed(LengthByte(payload), address, command, payload, Trailer(Crc(body)));
    assert Val(LengthByte(payload)) == |payload| + 4;
    hide LengthByte, Trailer;
  }

  lemma Framed(a: byte, b: byte, c: byte, payload: seq<byte>, trailer: seq<byte>)
    requires |trailer| == 2
    ensures var p := [a, b, c] + payload + trailer;
            && |p| == |payload| + 5 && p[0] == a && p[1] == b && p[2] == c && p[3..|p| - 2] == payload
  {
  }

  lemma ClosedByTrailer(body: seq<byte>)
    ensures Crc(body + Trailer(Crc(body))) == 0
  {
    hide Absorb, LowByte, HighByte;
    var c := Crc(body);
    RegisterConcat(INIT, body, Trailer(c));
    RegisterPair(c, LowByte(c), HighByte(c));
    TrailerZero(c, LowByte(c), HighByte(c));
  }

  method BuildCommand(address: byte, command: byte, payload: seq<byte>) returns (packet: seq<byte>)
    ensures packet == Packet(address, command, payload)
    ensures VerifyPacket(packet) <==> 1 <= |payload| <= 251
  {
    var length := Narrow((|payload| + 4) % 256);
    packet := [length, address, command];
    packet := packet + payload;
    var crc := Compute(packet);
    packet := packet + [LowByte(crc), HighByte(crc)];
    PacketVerifies(address, command, payload);
  }

  /** Payload `Q, Session, Target, Antenna, ScanTime`, or with the two TID bytes between
      session and target when a TID length is given. */
  function InventoryG2Payload(qValue: byte, session: byte, tidAddr: byte, tidLen: byte,
                              target: byte, antenna: byte, scanTime: byte): seq<byte>
  {
    if tidLen == 0 then [qValue, session, target, antenna, scanTime]
    else [qValue, session, tidAddr, tidLen, target, antenna, scanTime]
  }

  /** Five parameters of one byte each; the TID address and length come third and fourth if at all. */
  lemma InventoryG2Layout(qValue: byte, session: byte, tidAddr: byte, tidLen: byte,
                          target: byte, antenna: byte, scanTime: byte)
    ensures var p := InventoryG2Payload(qValue, session, tidAddr, tidLen, target, antenna, scanTime);
            && |p| == (if tidLen == 0x00 then 5 else 7)
            && p[0] == qValue && p[1] == session
            && p[|p| - 3] == target && p[|p| - 2] == antenna && p[|p| - 1] == scanTime
            && (tidLen != 0x00 ==> p[2] == tidAddr && p[3] == tidLen)
  {
  }

  predicate VerifyPacket(packet: seq<byte>) {
    if |packet| < 6 then false
    else if Val(packet[0]) + 1 != |packet| then false
    else
      var crc := Crc(packet[..|packet| - 2]);
      LowByte(crc) == packet[|packet| - 2] && HighByte(crc) == packet[|packet| - 1]
  }

  /** A packet is accepted exactly when its length is right and the register is zero after
      the whole packet, trailer included. */
  lemma VerifyIffResidueZero(packet: seq<byte>)
    ensures VerifyPacket(packet) <==>
            |packet| >= 6 && Val(packet[0]) + 1 == |packet| && Crc(packet) == 0
  {
    hide Absorb, LowByte, HighByte;
    if |packet| >= 6 {
      var body, lo, hi := packet[..|packet| - 2], packet[|packet| - 2], packet[|packet| - 1];
      assert packet == body + [lo, hi];
      RegisterConcat(INIT, body, [lo, hi]);
      RegisterPair(Crc(body), lo, hi);
      TrailerZero(Crc(body), lo, hi);
    }
  }

  /** A built packet verifies exactly when its payload has 1 to 251 bytes: an empty payload
      gives five bytes, and from 252 on the length byte has wrapped. */
  lemma PacketVerifies(address: byte, command: byte, payload: seq<byte>)
    ensures VerifyPacket(Packet(address, command, payload)) <==> 1 <= |payload| <= 251
    ensures |Packet(address, command, payload)| == |payload| + 5
  {
    hide Crc, LowByte, HighByte;
    var packet := Packet(address, command, payload);
    var body := Body(address, command, payload);
    assert packet[..|packet| - 2] == body;
    assert Val(packet[0]) == (|payload| + 4) % 256;
  }

  // ---- Parsing a stream ----------------------------------------------------------

  function Decode(raw: seq<byte>): Frame
    requires |raw| >= 6
  {
    Frame(raw[0], raw[1], raw[2], raw[3], raw[4..|raw| - 2], raw, true)
  }

  datatype Parsed = Parsed(frames: seq<Frame>, remaining: seq<byte>)

  /** What the first byte of a buffer claims about the packet it heads. */
  function Total(buf: seq<byte>): nat
    requires buf != []
  {
    Val(buf[0]) + 1
  }

  /** The greedy parse: emit the packet at the front, or drop one byte, or stop and wait. */
  function Parse(buf: seq<byte>): Parsed
    decreases |buf|
  {
    if |buf| < 6 then Parsed([], buf)
    else if Total(buf) < 6 then Parse(buf[1..])
    else if Total(buf) > |buf| then Parsed([], buf)
    else if !VerifyPacket(buf[..Total(buf)]) then Parse(buf[1..])
    else
      var rest := Parse(buf[Total(buf)..]);
      Parsed([Decode(buf[..Total(buf)])] + rest.frames, rest.remaining)
  }

  /** One turn of the parsing loop. */
  lemma ParseStep(buf: seq<byte>)
    ensures |buf| < 6 ==> Parse(buf) == Parsed([], buf)
    ensures |buf| >= 6 && Total(buf) < 6 ==> Parse(buf) == Parse(buf[1..])
    ensures |buf| >= 6 && Total(buf) >= 6 && Total(buf) > |buf| ==> Parse(buf) == Parsed([], buf)
    ensures |buf| >= 6 && 6 <= Total(buf) <= |buf| ==>
              var raw, rest := buf[..Total(buf)], Parse(buf[Total(buf)..]);
              Parse(buf) == if VerifyPacket(raw) then Parsed([Decode(raw)] + rest.frames, rest.remaining)
                            else Parse(buf[1..])
  {
    hide VerifyPacket, Decode, Total;
  }

  method ParseFrames(stream: seq<byte>) returns (frames: seq<Frame>, remaining: seq<byte>)
    ensures Parsed(frames, remaining) == Parse(stream)
  {
    hide VerifyPacket, Decode, Parse, Val;
    if |stream| == 0 {
      ParseStep(stream);
      return [], [];
    }
    var buf := stream;
    frames := [];
    while |buf| > 0
      invariant Parsed(frames + Parse(buf).frames, Parse(buf).remaining) == Parse(stream)
      decreases |buf|
    {
      ParseStep(buf);
      if |buf| < 6 {
        break;
      }
      var total := Val(buf[0]) + 1;
      if total < 6 {
        buf := buf[1..];
        continue;
      }
      if total > |buf| {
        break;
      }
      var raw := buf[..total];
      if !VerifyPacket(raw) {
        buf := buf[1..];
        continue;
      }
      var dataEnd := total - 2;
      var data := raw[4..dataEnd];
      ghost var before := frames;
      var frame := Frame(raw[0], raw[1], raw[2], raw[3], data, raw, true);
      assert frame == Decode(raw) by { DecodeFields(raw); }
      frames := frames + [frame];
      assert before + ([frame] + Parse(buf[total..]).frames) == frames + Parse(buf[total..]).frames;
      buf := buf[total..];
    }
    ParseStep(buf);
    remaining := buf;
    assert frames + [] == frames;
  }

  lemma DecodeFields(raw: seq<byte>)
    requires |raw| >= 6
    ensures Decode(raw) == Frame(raw[0], raw[1], raw[2], raw[3], raw[4..|raw| - 2], raw, true)
  {
  }
}
