/**
 What the greedy frame parser does to a whole stream: chunks may be cut anywhere, the
 bytes kept back are bounded, the emitted frames are the one greedy tiling of the stream,
 no valid packet is silently lost, and built packets come back out.
 */
module FrameStream {
  import opened Wrappers
  import opened Reader18

  // ---- Chunks ----------------------------------------------------------------------

  /** Parsing can stop anywhere and resume with what was left over. */
  lemma {:induction false} ParseAppend(a: seq<byte>, b: seq<byte>)
    ensures Parse(a + b).frames == Parse(a).frames + Parse(Parse(a).remaining + b).frames
    ensures Parse(a + b).remaining == Parse(Parse(a).remaining + b).remaining
    decreases |a|
  {
    hide VerifyPacket, Decode;
    if |a| < 6 || (Total(a) >= 6 && Total(a) > |a|) {
      assert Parse(a) == Parsed([], a);
    } else if Total(a) < 6 || !VerifyPacket(a[..Total(a)]) {
      assert (a + b)[1..] == a[1..] + b;
      assert Total(a) >= 6 ==> (a + b)[..Total(a)] == a[..Total(a)];
      ParseAppend(a[1..], b);
    } else {
      var t := Total(a);
      assert (a + b)[..t] == a[..t] && (a + b)[t..] == a[t..] + b;
      ParseAppend(a[t..], b);
    }
  }

  /** At most 255 bytes are ever kept back. */
  lemma {:induction false} RemainderBounded(buf: seq<byte>)
    ensures |Parse(buf).remaining| <= 255
    decreases |buf|
  {
    hide VerifyPacket, Decode;
    if |buf| < 6 || (Total(buf) >= 6 && Total(buf) > |buf|) {
    } else if Total(buf) < 6 || !VerifyPacket(buf[..Total(buf)]) {
      RemainderBounded(buf[1..]);
    } else {
      RemainderBounded(buf[Total(buf)..]);
    }
  }

  // ---- The greedy tiling -------------------------------------------------------------

  function PacketEnd(stream: seq<byte>, p: nat): nat
    requires p < |stream|
  {
    p + Val(stream[p]) + 1
  }

  /** A complete valid packet starts at `p`. */
  predicate Heads(stream: seq<byte>, p: nat): (heads: bool)
    ensures heads ==> p < |stream| && p + 6 <= PacketEnd(stream, p) <= |stream|
  {
    p < |stream| && PacketEnd(stream, p) <= |stream| && VerifyPacket(stream[p..PacketEnd(stream, p)])
  }

  /** What starts at `p` cannot be judged yet. */
  predicate Waiting(stream: seq<byte>, p: nat) {
    p <= |stream| &&
    (|stream| - p < 6 || (Val(stream[p]) + 1 >= 6 && PacketEnd(stream, p) > |stream|))
  }

  predicate Covered(stream: seq<byte>, starts: seq<nat>, p: nat) {
    exists k | 0 <= k < |starts| :: starts[k] < |stream| && starts[k] <= p < PacketEnd(stream, starts[k])
  }

  /** `starts` are the offsets of disjoint valid packets in order; every other byte before
      `end` heads no valid packet and is fully judged; at `end` the parser has to wait. */
  ghost predicate GreedyTiling(stream: seq<byte>, from: nat, starts: seq<nat>, end: nat) {
    && from <= end && Waiting(stream, end)
    && (forall k | 0 <= k < |starts| :: from <= starts[k] && Heads(stream, starts[k]))
    && (forall k | 0 < k < |starts| :: PacketEnd(stream, starts[k - 1]) <= starts[k])
    && (starts != [] ==> PacketEnd(stream, starts[|starts| - 1]) <= end)
    && (forall p | from <= p < end ::
          Covered(stream, starts, p) || (!Heads(stream, p) && !Waiting(stream, p)))
  }

  function Starts(stream: seq<byte>, from: nat): seq<nat>
    requires from <= |stream|
    decreases |stream| - from
  {
    if Waiting(stream, from) then []
    else if Heads(stream, from) then [from] + Starts(stream, PacketEnd(stream, from))
    else Starts(stream, from + 1)
  }

  function End(stream: seq<byte>, from: nat): nat
    requires from <= |stream|
    decreases |stream| - from
  {
    if Waiting(stream, from) then from
    else if Heads(stream, from) then End(stream, PacketEnd(stream, from))
    else End(stream, from + 1)
  }

  function Cut(stream: seq<byte>, start: nat): Frame
    requires Heads(stream, start)
  {
    Decode(stream[start..PacketEnd(stream, start)])
  }

  lemma {:induction false} TilingHolds(stream: seq<byte>, from: nat)
    requires from <= |stream|
    ensures GreedyTiling(stream, from, Starts(stream, from), End(stream, from))
    decreases |stream| - from
  {
    hide VerifyPacket, GreedyTiling;
    if Waiting(stream, from) {
      TilingEmpty(stream, from);
    } else if Heads(stream, from) {
      TilingHolds(stream, PacketEnd(stream, from));
      TilingCons(stream, from, Starts(stream, PacketEnd(stream, from)), End(stream, from));
    } else {
      TilingHolds(stream, from + 1);
      TilingSkip(stream, from, Starts(stream, from + 1), End(stream, from));
    }
  }

  lemma TilingEmpty(stream: seq<byte>, from: nat)
    requires Waiting(stream, from)
    ensures GreedyTiling(stream, from, [], from)
  {
  }

  lemma TilingSkip(stream: seq<byte>, from: nat, rest: seq<nat>, end: nat)
    requires !Heads(stream, from) && !Waiting(stream, from)
    requires GreedyTiling(stream, from + 1, rest, end)
    ensures GreedyTiling(stream, from, rest, end)
  {
    hide VerifyPacket, Covered, Heads, Waiting;
  }

  lemma TilingCons(stream: seq<byte>, from: nat, rest: seq<nat>, end: nat)
    requires Heads(stream, from) && GreedyTiling(stream, PacketEnd(stream, from), rest, end)
    ensures GreedyTiling(stream, from, [from] + rest, end)
  {
    hide VerifyPacket, Covered, Heads, Waiting, PacketEnd;
    var starts := [from] + rest;
    CoverCons(stream, from, rest);
    assert forall k | 0 < k < |starts| :: starts[k] == rest[k - 1];
    assert starts[|starts| - 1] == if rest == [] then from else rest[|rest| - 1];
  }

  lemma CoverCons(stream: seq<byte>, start: nat, rest: seq<nat>)
    requires start < |stream|
    ensures forall p: nat :: Covered(stream, [start] + rest, p) <==>
              start <= p < PacketEnd(stream, start) || Covered(stream, rest, p)
  {
    var starts := [start] + rest;
    forall p: nat | Covered(stream, rest, p) ensures Covered(stream, starts, p) {
      var k :| 0 <= k < |rest| && rest[k] < |stream| && rest[k] <= p < PacketEnd(stream, rest[k]);
      assert starts[k + 1] == rest[k];
    }
    forall p: nat | start <= p < PacketEnd(stream, start) ensures Covered(stream, starts, p) {
      assert starts[0] == start;
    }
  }

  /** There is only one greedy tiling, so the predicate says all there is to say. */
  lemma {:induction false} TilingUnique(stream: seq<byte>, from: nat, starts: seq<nat>, end: nat)
    requires from <= |stream| && GreedyTiling(stream, from, starts, end)
    ensures starts == Starts(stream, from) && end == End(stream, from)
    decreases |stream| - from
  {
    hide VerifyPacket, Covered;
    FirstStart(stream, from, starts, end);
    if Waiting(stream, from) {
      assert starts == [];
    } else if Heads(stream, from) {
      TilingUncons(stream, from, starts, end);
      TilingUnique(stream, PacketEnd(stream, from), starts[1..], end);
      assert starts == [from] + starts[1..];
    } else {
      TilingUnique(stream, from + 1, starts, end);
    }
  }

  /** A tiling of a waiting position is empty; one of a packet's first byte begins with that
      packet; any other one leaves that byte out. */
  lemma FirstStart(stream: seq<byte>, from: nat, starts: seq<nat>, end: nat)
    requires from <= |stream| && GreedyTiling(stream, from, starts, end)
    ensures Waiting(stream, from) ==> starts == [] && end == from
    ensures Heads(stream, from) ==> starts != [] && starts[0] == from
    ensures !Waiting(stream, from) && !Heads(stream, from) ==>
              from < end && forall k | 0 <= k < |starts| :: from < starts[k]
  {
    hide VerifyPacket;
    if starts != [] {
      StartsAfter(stream, from, starts, end);
    }
    if from < end && Covered(stream, starts, from) {
      var k :| 0 <= k < |starts| && starts[k] < |stream| && starts[k] <= from < PacketEnd(stream, starts[k]);
      assert starts[k] == from;
    }
  }

  lemma TilingUncons(stream: seq<byte>, from: nat, starts: seq<nat>, end: nat)
    requires GreedyTiling(stream, from, starts, end) && starts != [] && starts[0] == from
    ensures GreedyTiling(stream, PacketEnd(stream, from), starts[1..], end)
  {
    hide VerifyPacket, Covered;
    StartsAfter(stream, from, starts, end);
    CoverCons(stream, from, starts[1..]);
    assert starts == [from] + starts[1..];
    forall k | 0 < k < |starts[1..]| ensures PacketEnd(stream, starts[1..][k - 1]) <= starts[1..][k] {
      assert starts[1..][k - 1] == starts[k] && starts[1..][k] == starts[k + 1];
      assert PacketEnd(stream, starts[k + 1 - 1]) <= starts[k + 1];
    }
  }

  /** The packets after the first one start where it ends or later. */
  lemma StartsAfter(stream: seq<byte>, from: nat, starts: seq<nat>, end: nat)
    requires GreedyTiling(stream, from, starts, end) && starts != []
    ensures forall k | 0 < k < |starts| :: PacketEnd(stream, starts[0]) <= starts[k]
    ensures PacketEnd(stream, starts[0]) <= end
  {
    hide VerifyPacket, Waiting, Covered;
    var first := PacketEnd(stream, starts[0]);
    for k := 1 to |starts|
      invariant forall i | 0 < i < k :: first <= starts[i]
    {
      assert Heads(stream, starts[k - 1]);
    }
  }

  /** The parser's frames are the packets of the tiling and its remainder is the rest. */
  lemma ParseIsTiling(stream: seq<byte>)
    ensures GreedyTiling(stream, 0, Starts(stream, 0), End(stream, 0))
    ensures Parse(stream).remaining == stream[End(stream, 0)..]
    ensures |Parse(stream).frames| == |Starts(stream, 0)|
    ensures forall k | 0 <= k < |Starts(stream, 0)| ::
              Parse(stream).frames[k] == Cut(stream, Starts(stream, 0)[k])
  {
    hide Parse, Starts, End, Heads, Waiting;
    TilingHolds(stream, 0);
    ParseFollowsStarts(stream, 0);
    assert stream[0..] == stream;
  }

  /** One step of the parser, in terms of stream offsets. */
  lemma ParseStep(stream: seq<byte>, from: nat)
    requires from <= |stream|
    ensures Waiting(stream, from) ==> Parse(stream[from..]) == Parsed([], stream[from..])
    ensures !Waiting(stream, from) && Heads(stream, from) ==>
              var rest := Parse(stream[PacketEnd(stream, from)..]);
              Parse(stream[from..]) == Parsed([Cut(stream, from)] + rest.frames, rest.remaining)
    ensures !Waiting(stream, from) && !Heads(stream, from) ==>
              from < |stream| && Parse(stream[from..]) == Parse(stream[from + 1..])
  {
    hide VerifyPacket, Decode;
    var buf := stream[from..];
    if !Waiting(stream, from) {
      assert buf[1..] == stream[from + 1..];
      assert PacketEnd(stream, from) <= |stream| ==> buf[..Total(buf)] == stream[from..PacketEnd(stream, from)];
      assert PacketEnd(stream, from) <= |stream| ==> buf[Total(buf)..] == stream[PacketEnd(stream, from)..];
    }
  }

  lemma {:induction false} ParseFollowsStarts(stream: seq<byte>, from: nat)
    requires from <= |stream|
    ensures End(stream, from) <= |stream|
    ensures forall k | 0 <= k < |Starts(stream, from)| :: Heads(stream, Starts(stream, from)[k])
    ensures Parse(stream[from..]).remaining == stream[End(stream, from)..]
    ensures |Parse(stream[from..]).frames| == |Starts(stream, from)|
    ensures forall k | 0 <= k < |Starts(stream, from)| ::
              Parse(stream[from..]).frames[k] == Cut(stream, Starts(stream, from)[k])
    decreases |stream| - from
  {
    hide VerifyPacket, Decode, Parse, Cut, Waiting;
    ParseStep(stream, from);
    if !Waiting(stream, from) {
      ParseFollowsStarts(stream, if Heads(stream, from) then PacketEnd(stream, from) else from + 1);
    }
  }

  lemma VerifiedLength(packet: seq<byte>)
    requires VerifyPacket(packet)
    ensures |packet| >= 6 && Total(packet) == |packet|
  {
  }

  // ---- Noise -----------------------------------------------------------------------------

  /** The parser drops the byte at `p` and looks at the next one. */
  predicate Inert(stream: seq<byte>, p: nat) {
    !Heads(stream, p) && !Waiting(stream, p)
  }

  lemma {:induction false} InertSkipped(stream: seq<byte>, from: nat, n: nat)
    requires from <= n <= |stream| && forall p: nat | from <= p < n :: Inert(stream, p)
    ensures Starts(stream, from) == Starts(stream, n) && End(stream, from) == End(stream, n)
    decreases n - from
  {
    hide Heads, Waiting;
    if from < n {
      assert Inert(stream, from);
      InertSkipped(stream, from + 1, n);
    }
  }

  /** The bytes from `from` to `n` hide nothing exactly when each of them is inert: then, and only
      then, the parser finds the same packets and stops at the same place as if it began at `n`. */
  lemma NoiseHidesNothingIff(stream: seq<byte>, from: nat, n: nat)
    requires from <= n <= |stream|
    ensures (forall p: nat | from <= p < n :: Inert(stream, p)) <==>
            Starts(stream, from) == Starts(stream, n) && End(stream, from) == End(stream, n)
  {
    hide Starts, End, Heads, Waiting, PacketEnd;
    if Starts(stream, from) == Starts(stream, n) && End(stream, from) == End(stream, n) {
      TilingHolds(stream, from);
      TilingHolds(stream, n);
      forall p: nat | from <= p < n
        ensures Inert(stream, p)
      {
        assert !Covered(stream, Starts(stream, n), p);
      }
    } else if forall p: nat | from <= p < n :: Inert(stream, p) {
      InertSkipped(stream, from, n);
    }
  }

  /** Inert noise in front of a stream changes neither its frames nor its remainder. */
  lemma InertNoiseDropped(noise: seq<byte>, rest: seq<byte>)
    requires forall p: nat | p < |noise| :: Inert(noise + rest, p)
    ensures Parse(noise + rest) == Parse(rest)
  {
    hide Starts, End, Heads, Waiting, Parse, Inert, Cut;
    var stream := noise + rest;
    InertSkipped(stream, 0, |noise|);
    ParseFollowsStarts(stream, 0);
    ParseFollowsStarts(stream, |noise|);
    assert stream[0..] == stream && stream[|noise|..] == rest;
    assert Parse(stream).frames == Parse(rest).frames;
  }

  /** Bounded delay: once 256 bytes from its start have arrived, a valid packet has either
      been emitted or was overlapped by an emitted frame that starts before it. */
  lemma NoPacketLost(stream: seq<byte>, p: nat)
    requires Heads(stream, p) && p + 256 <= |stream|
    ensures var starts := Starts(stream, 0);
            exists k | 0 <= k < |starts| ::
              && Heads(stream, starts[k])
              && (starts[k] == p || starts[k] < p < PacketEnd(stream, starts[k]))
              && k < |Parse(stream).frames| && Parse(stream).frames[k] == Cut(stream, starts[k])
  {
    hide VerifyPacket, Decode;
    ParseIsTiling(stream);
    RemainderBounded(stream);
    var starts := Starts(stream, 0);
    assert Covered(stream, starts, p);
    var k :| 0 <= k < |starts| && starts[k] < |stream| && starts[k] <= p < PacketEnd(stream, starts[k]);
    assert Heads(stream, starts[k]);
  }

  // ---- Round trip --------------------------------------------------------------------

  /** One response on the wire: a status byte followed by data. */
  datatype Response = Response(address: byte, command: byte, status: byte, data: seq<byte>)

  function Wire(r: Response): seq<byte> {
    Packet(r.address, r.command, [r.status] + r.data)
  }

  function WireAll(rs: seq<Response>): seq<byte>
    decreases rs
  {
    if rs == [] then [] else Wire(rs[0]) + WireAll(rs[1..])
  }

  predicate Carries(f: Frame, r: Response) {
    && f.address == r.address && f.command == r.command && f.status == r.status
    && f.data == r.data && f.raw == Wire(r) && Val(f.length) + 1 == |f.raw| && f.crcValid
  }

  lemma ParsePacketFirst(packet: seq<byte>, rest: seq<byte>)
    requires VerifyPacket(packet)
    ensures Parse(packet + rest) == Parsed([Decode(packet)] + Parse(rest).frames, Parse(rest).remaining)
  {
    hide Decode;
    VerifiedLength(packet);
    var buf := packet + rest;
    assert buf[..Total(buf)] == packet && buf[Total(buf)..] == rest;
  }

  lemma PacketFields(address: byte, command: byte, payload: seq<byte>)
    ensures var packet := Packet(address, command, payload);
            && |packet| == |payload| + 5 && packet[1] == address && packet[2] == command
            && packet[3..|payload| + 3] == payload
  {
    hide LengthByte;
  }

  lemma DecodeWire(r: Response)
    requires |r.data| <= 250
    ensures VerifyPacket(Wire(r)) && Carries(Decode(Wire(r)), r)
  {
    hide VerifyPacket;
    var payload := [r.status] + r.data;
    PacketVerifies(r.address, r.command, payload);
    VerifiedLength(Wire(r));
    PacketFields(r.address, r.command, payload);
    assert Wire(r)[3..|payload| + 3] == payload;
  }

  lemma {:induction false} WireAllParses(rs: seq<Response>)
    requires forall r | r in rs :: |r.data| <= 250
    ensures |Parse(WireAll(rs)).frames| == |rs| && Parse(WireAll(rs)).remaining == []
    ensures forall k | 0 <= k < |rs| :: Carries(Parse(WireAll(rs)).frames[k], rs[k])
    decreases rs
  {
    hide Wire, VerifyPacket, Carries, Decode;
    if rs != [] {
      DecodeWire(rs[0]);
      VerifiedLength(Wire(rs[0]));
      ParsePacketFirst(Wire(rs[0]), WireAll(rs[1..]));
      WireAllParses(rs[1..]);
    }
  }

  /** Bytes of value at most four cannot start a packet and are dropped. */
  lemma {:induction false} NoiseDropped(noise: seq<byte>, rest: seq<byte>)
    requires forall b | b in noise :: Val(b) <= 4
    requires |rest| >= 6
    ensures Parse(noise + rest) == Parse(rest)
    decreases noise
  {
    hide VerifyPacket, Decode;
    if noise == [] {
      assert noise + rest == rest;
    } else {
      assert (noise + rest)[0] in noise;
      assert (noise + rest)[1..] == noise[1..] + rest;
      assert forall b | b in noise[1..] :: b in noise;
      NoiseDropped(noise[1..], rest);
    }
  }

  /** Responses written one after another, possibly after such noise, parse back to exactly
      those responses with nothing left over. */
  lemma StreamRoundTrip(noise: seq<byte>, rs: seq<Response>)
    requires rs != [] && forall r | r in rs :: |r.data| <= 250
    requires forall b | b in noise :: Val(b) <= 4
    ensures var parsed := Parse(noise + WireAll(rs));
            && |parsed.frames| == |rs| && parsed.remaining == []
            && forall k | 0 <= k < |rs| :: Carries(parsed.frames[k], rs[k])
  {
    hide Wire, VerifyPacket, Carries, Decode;
    DecodeWire(rs[0]);
    VerifiedLength(Wire(rs[0]));
    NoiseDropped(noise, WireAll(rs));
    WireAllParses(rs);
  }

  /** The same after any inert noise. */
  lemma StreamRoundTripAfterNoise(noise: seq<byte>, rs: seq<Response>)
    requires forall r | r in rs :: |r.data| <= 250
    requires forall p: nat | p < |noise| :: Inert(noise + WireAll(rs), p)
    ensures var parsed := Parse(noise + WireAll(rs));
            && |parsed.frames| == |rs| && parsed.remaining == []
            && forall k | 0 <= k < |rs| :: Carries(parsed.frames[k], rs[k])
  {
    hide Parse, WireAll, Inert, Carries;
    InertNoiseDropped(noise, WireAll(rs));
    WireAllParses(rs);
  }
}
