/**
 What the packet check detects.  A corrupted packet is the sent one exclusive-or an error
 pattern of the same length; the register being linear, only the pattern matters.  Bits are
 in the order the register consumes them: least significant bit of each byte first.
 */
module CrcErrors {
  import opened Wrappers
  import opened Crc16
  import opened Reader18

  function XorBytes(a: seq<byte>, b: seq<byte>): seq<byte>
    requires |a| == |b|
  {
    seq(|a|, i requires 0 <= i < |a| => a[i] ^ b[i])
  }

  lemma {:induction false} RegisterLinear(c: bv16, d: bv16, a: seq<byte>, b: seq<byte>)
    requires |a| == |b|
    ensures Register(Xor(c, d), XorBytes(a, b)) == Xor(Register(c, a), Register(d, b))
    decreases a
  {
    hide Xor, Absorb;
    if a != [] {
      AbsorbLinear(c, d, a[0], b[0]);
      assert XorBytes(a, b)[1..] == XorBytes(a[1..], b[1..]);
      RegisterLinear(Absorb(c, a[0]), Absorb(d, b[0]), a[1..], b[1..]);
    }
  }

  // ---- The register one bit at a time ---------------------------------------------

  /** The lowest `n` bits of a word, least significant first. */
  function BitsOf(v: bv16, n: nat): (bits: seq<bool>)
    ensures |bits| == n
    decreases n
  {
    if n == 0 then [] else [v & 1 != 0] + BitsOf(v >> 1, n - 1)
  }

  function Bits(data: seq<byte>): (bits: seq<bool>)
    ensures |bits| == 8 * |data|
    decreases data
  {
    if data == [] then [] else BitsOf(data[0] as bv16, 8) + Bits(data[1..])
  }

  function Unit(bit: bool): bv16 { if bit then 1 else 0 }

  function Up(p: bv16): bv16 { p << 1 }

  function Feed(c: bv16, bits: seq<bool>): bv16
    decreases bits
  {
    if bits == [] then c else Feed(Shift(Xor(c, Unit(bits[0]))), bits[1..])
  }

  /** The bits as a word, the first one least significant. */
  function Pack(bits: seq<bool>): bv16
    decreases bits
  {
    if bits == [] then 0 else Xor(Unit(bits[0]), Up(Pack(bits[1..])))
  }

  /** The bits of a word above its lowest `n`. */
  function Above(n: nat): bv16
    requires n <= 16
  {
    [0xFFFF, 0xFFFE, 0xFFFC, 0xFFF8, 0xFFF0, 0xFFE0, 0xFFC0, 0xFF80, 0xFF00,
     0xFE00, 0xFC00, 0xF800, 0xF000, 0xE000, 0xC000, 0x8000, 0x0000][n]
  }

  predicate Apart(p: bv16, q: bv16) { p & q == 0 }

  /** A word that needs at most `n` bits. */
  predicate Fits(p: bv16, n: nat)
    requires n <= 16
  {
    Apart(p, Above(n))
  }

  lemma AboveStep(n: nat)
    requires n < 16
    ensures Above(n + 1) == Up(Above(n))
    ensures forall p :: Apart(p, Above(n)) ==> Apart(p, 0x8000)
  {
    assert Above(n) & 0x8000 == 0x8000;
    forall p | Apart(p, Above(n)) ensures Apart(p, 0x8000) {
      TopBit(p, Above(n));
    }
  }

  lemma TopBit(p: bv16, above: bv16)
    requires Apart(p, above) && above & 0x8000 == 0x8000
    ensures Apart(p, 0x8000)
  {
    assert p & 0x8000 == (p & above) & 0x8000;
  }

  /** A word with room can take one more bit at the bottom without losing any. */
  lemma PackStep(bit: bool, p: bv16, n: nat)
    requires n < 16 && Fits(p, n)
    ensures Fits(Xor(Unit(bit), Up(p)), n + 1)
    ensures Shift(Up(p)) == p
    ensures Xor(Unit(bit), Up(p)) == 0 <==> !bit && p == 0
  {
    hide Above, Apart, Xor, Up, Unit, Shift;
    AboveStep(n);
    ShiftBack(p);
    UpApart(bit, p, Above(n));
    UpZero(bit, p);
  }

  lemma ShiftBack(p: bv16)
    requires Apart(p, 0x8000)
    ensures Shift(Up(p)) == p
  {
    assert (p << 1) >> 1 == p & 0x7FFF;
    assert p == (p & 0x7FFF) | (p & 0x8000);
  }

  lemma UpApart(bit: bool, p: bv16, above: bv16)
    requires Apart(p, above)
    ensures Apart(Xor(Unit(bit), Up(p)), Up(above))
  {
    if bit {
      assert (1 ^ (p << 1)) & (above << 1) == (p & above) << 1;
    } else {
      assert (0 ^ (p << 1)) & (above << 1) == (p & above) << 1;
    }
  }

  lemma UpZero(bit: bool, p: bv16)
    requires Apart(p, 0x8000)
    ensures Xor(Unit(bit), Up(p)) == 0 <==> !bit && p == 0
  {
    if bit {
      assert (1 ^ (p << 1)) & 1 == 1;
    } else {
      assert 0 ^ (p << 1) == p << 1;
      ShiftBack(p);
    }
  }

  lemma NothingFits()
    ensures Fits(0, 0)
    ensures forall p :: Fits(p, 0) ==> p == 0
  {
    forall p | Fits(p, 0) ensures p == 0 { assert p & 0xFFFF == p; }
  }

  lemma {:induction false} PackFits(bits: seq<bool>)
    requires |bits| <= 16
    ensures Fits(Pack(bits), |bits|)
    ensures Pack(bits) == 0 <==> true !in bits
    decreases bits
  {
    hide Xor, Up, Fits, Unit, Shift;
    if bits == [] {
      NothingFits();
    } else {
      PackFits(bits[1..]);
      PackStep(bits[0], Pack(bits[1..]), |bits| - 1);
      assert bits == [bits[0]] + bits[1..];
    }
  }

  lemma {:induction false} FeedIsShifts(c: bv16, bits: seq<bool>)
    requires |bits| <= 16
    ensures Feed(c, bits) == ShiftN(Xor(c, Pack(bits)), |bits|)
    decreases bits
  {
    hide Xor, Up, Fits, Unit, Shift;
    if bits == [] {
      XorCancel(c, 0);
    } else {
      var u, p := Unit(bits[0]), Pack(bits[1..]);
      PackFits(bits[1..]);
      PackStep(bits[0], p, |bits| - 1);
      XorAssoc(c, u, Up(p));
      ShiftLinear(Xor(c, u), Up(p));
      FeedIsShifts(Shift(Xor(c, u)), bits[1..]);
    }
  }

  lemma Halve(v: bv16, n: nat)
    requires 0 < n <= 16 && Fits(v, n)
    ensures Fits(v >> 1, n - 1)
    ensures v == Xor(Unit(v & 1 != 0), Up(v >> 1))
  {
    hide Above, Apart, Xor, Up, Unit;
    AboveStep(n - 1);
    HalveApart(v, Above(n - 1));
    HalveJoin(v);
  }

  lemma HalveApart(v: bv16, above: bv16)
    requires Apart(v, Up(above))
    ensures Apart(v >> 1, above)
  {
    assert (v >> 1) & above == (v & (above << 1)) >> 1;
  }

  lemma HalveJoin(v: bv16)
    ensures v == Xor(Unit(v & 1 != 0), Up(v >> 1))
  {
    assert v == (v & 1) ^ ((v >> 1) << 1);
    assert v & 1 == 0 || v & 1 == 1;
  }

  lemma {:induction false} PackBits(v: bv16, n: nat)
    requires n <= 16 && Fits(v, n)
    ensures Pack(BitsOf(v, n)) == v
    decreases n
  {
    hide Xor, Up, Fits, Unit;
    if n == 0 {
      NothingFits();
    } else {
      Halve(v, n);
      assert BitsOf(v, n)[1..] == BitsOf(v >> 1, n - 1);
      PackBits(v >> 1, n - 1);
    }
  }

  lemma ByteFits(b: byte)
    ensures Fits(b as bv16, 8)
  {
  }

  lemma {:induction false} FeedConcat(c: bv16, a: seq<bool>, b: seq<bool>)
    ensures Feed(c, a + b) == Feed(Feed(c, a), b)
    decreases a
  {
    hide Shift, Xor, Unit;
    if a == [] {
      assert a + b == b;
    } else {
      assert (a + b)[1..] == a[1..] + b;
      FeedConcat(Shift(Xor(c, Unit(a[0]))), a[1..], b);
    }
  }

  /** Byte by byte or bit by bit, the register ends the same. */
  lemma {:induction false} RegisterIsFeed(c: bv16, data: seq<byte>)
    ensures Register(c, data) == Feed(c, Bits(data))
    decreases data
  {
    hide BitsOf, Pack, Feed, Fits, Xor, ShiftN;
    if data == [] {
      assert Bits(data) == [];
      FeedEmpty(c);
    } else {
      var bits := BitsOf(data[0] as bv16, 8);
      ByteFits(data[0]);
      PackBits(data[0] as bv16, 8);
      FeedIsShifts(c, bits);
      FeedConcat(c, bits, Bits(data[1..]));
      RegisterIsFeed(Absorb(c, data[0]), data[1..]);
    }
  }

  lemma FeedEmpty(c: bv16)
    ensures Feed(c, []) == c
  {
  }

  // ---- Error patterns the register cannot miss ------------------------------------

  lemma {:induction false} FeedZeros(c: bv16, bits: seq<bool>)
    requires true !in bits
    ensures Feed(c, bits) == ShiftN(c, |bits|)
    decreases bits
  {
    hide Xor, Shift;
    if bits != [] {
      assert bits[0] in bits;
      XorCancel(c, 0);
      FeedZeros(Shift(c), bits[1..]);
    }
  }

  /** All the flipped bits lie in one window of sixteen, and there is one. */
  predicate Burst(bits: seq<bool>, at: nat) {
    && (exists i | 0 <= i < |bits| :: bits[i])
    && (forall i | 0 <= i < |bits| && bits[i] :: at <= i < at + 16)
  }

  /** Where the window of a burst ends. */
  lemma BurstWindow(bits: seq<bool>, at: nat) returns (end: nat)
    requires Burst(bits, at)
    ensures at <= end <= |bits| && end <= at + 16
    ensures bits == bits[..at] + (bits[at..end] + bits[end..])
    ensures true !in bits[..at] && true in bits[at..end] && true !in bits[end..]
  {
    var i :| 0 <= i < |bits| && bits[i];
    end := if at + 16 <= |bits| then at + 16 else |bits|;
    assert bits[at..end][i - at] == true;
  }

  lemma BurstDetected(bits: seq<bool>, at: nat)
    requires Burst(bits, at)
    ensures Feed(0, bits) != 0
  {
    hide Feed;
    var end := BurstWindow(bits, at);
    hide Burst;
    var pre, window, post := bits[..at], bits[at..end], bits[end..];
    FeedConcat(0, pre, window + post);
    FeedConcat(0, window, post);
    FeedQuiet(0, pre);
    FeedWindow(window);
    FeedQuiet(Feed(0, window), post);
  }

  /** Without flipped bits the register stays zero or stays non-zero. */
  lemma FeedQuiet(c: bv16, bits: seq<bool>)
    requires true !in bits
    ensures Feed(c, bits) == 0 <==> c == 0
  {
    hide Feed, ShiftN;
    FeedZeros(c, bits);
    ShiftNZero(c, |bits|);
  }

  lemma FeedWindow(bits: seq<bool>)
    requires |bits| <= 16 && true in bits
    ensures Feed(0, bits) != 0
  {
    hide Feed, Pack, ShiftN, Xor, Fits;
    FeedIsShifts(0, bits);
    XorCancel(Pack(bits), 0);
    PackFits(bits);
    ShiftNZero(Pack(bits), |bits|);
  }

  function Half(c: bv16): bv16 { c >> 1 }

  /** Exclusive-or of the lowest `n` register bits. */
  function ParityOf(c: bv16, n: nat): bool
    decreases n
  {
    if n == 0 then false else (c & 1 != 0) != ParityOf(Half(c), n - 1)
  }

  predicate Parity(c: bv16) { ParityOf(c, 16) }

  function OddCount(bits: seq<bool>): bool
    decreases bits
  {
    if bits == [] then false else bits[0] != OddCount(bits[1..])
  }

  lemma {:induction false} ParityLinear(a: bv16, b: bv16, n: nat)
    ensures ParityOf(Xor(a, b), n) == (ParityOf(a, n) != ParityOf(b, n))
    decreases n
  {
    hide Xor, Half;
    if n > 0 {
      XorHalves(a, b);
      ParityLinear(Half(a), Half(b), n - 1);
    }
  }

  lemma XorHalves(a: bv16, b: bv16)
    ensures Half(Xor(a, b)) == Xor(Half(a), Half(b))
    ensures Xor(a, b) & 1 != 0 <==> (a & 1 != 0) != (b & 1 != 0)
  {
    hide Xor, Half;
    HalfXor(a, b);
    LowBitXor(a, b);
    XorCancel(a & 1, b & 1);
  }

  lemma HalfXor(a: bv16, b: bv16)
    ensures Half(Xor(a, b)) == Xor(Half(a), Half(b))
  {
  }

  lemma LowBitXor(a: bv16, b: bv16)
    ensures Xor(a, b) & 1 == Xor(a & 1, b & 1)
    ensures (a & 1 == 0 || a & 1 == 1) && (b & 1 == 0 || b & 1 == 1)
  {
  }

  lemma {:induction false} ParityExtra(c: bv16, n: nat)
    requires n < 16 && Fits(c, n)
    ensures ParityOf(c, n + 1) == ParityOf(c, n)
    decreases n
  {
    hide Fits;
    if n == 0 {
      NothingFits();
    } else {
      Halve(c, n);
      ParityExtra(Half(c), n - 1);
    }
  }

  lemma ParityConstants()
    ensures Parity(POLY) && !Parity(0) && Parity(1)
  {
    assert ParityOf(0x8, 4) && !ParityOf(0, 4);
    assert !ParityOf(0x84, 8) && !ParityOf(0, 8);
    assert !ParityOf(0x840, 12) && !ParityOf(0, 12);
  }

  lemma ParityFlip(c: bv16)
    ensures Parity(Xor(c, 1)) == !Parity(c)
    ensures Parity(Xor(c, 0)) == Parity(c)
  {
    hide ParityOf, Xor;
    ParityLinear(c, 1, 16);
    ParityLinear(c, 0, 16);
    ParityConstants();
  }

  /** The generator has a root at one, so a shift keeps the register's parity. */
  lemma ParityShift(c: bv16)
    ensures Parity(Shift(c)) == Parity(c)
  {
    hide ParityOf, Xor, Shift, Half;
    ParityHalf(c);
    ShiftCases(c);
    ParityLinear(Half(c), POLY, 16);
    ParityConstants();
  }

  lemma ParityHalf(c: bv16)
    ensures Parity(c) == ((c & 1 != 0) != Parity(Half(c)))
  {
    hide Fits, Above;
    assert Fits(c, 16) by { EverythingFits(c); }
    Halve(c, 16);
    ParityExtra(Half(c), 15);
  }

  lemma EverythingFits(c: bv16)
    ensures Fits(c, 16)
  {
    assert c & 0 == 0;
  }

  lemma ShiftCases(c: bv16)
    ensures Shift(c) == if c & 1 != 0 then Xor(Half(c), POLY) else Half(c)
  {
  }

  lemma {:induction false} ParityFeed(c: bv16, bits: seq<bool>)
    ensures Parity(Feed(c, bits)) == (Parity(c) != OddCount(bits))
    decreases bits
  {
    hide Parity, Shift, Xor;
    if bits != [] {
      ParityFlip(c);
      ParityShift(Xor(c, Unit(bits[0])));
      ParityFeed(Shift(Xor(c, Unit(bits[0]))), bits[1..]);
    }
  }

  // ---- Corrupted packets -----------------------------------------------------------

  /** The exact condition for a corruption of the same length to go unnoticed: the length
      byte is intact and the difference alone leaves a zero register. */
  lemma CorruptionAcceptedIff(packet: seq<byte>, received: seq<byte>)
    requires VerifyPacket(packet) && |received| == |packet|
    ensures VerifyPacket(received) <==>
            received[0] == packet[0] && Register(0, XorBytes(packet, received)) == 0
  {
    hide Register, Xor;
    var zero := Register(0, XorBytes(packet, received));
    VerifyIffResidueZero(packet);
    VerifyIffResidueZero(received);
    XorCancel(INIT, INIT);
    RegisterLinear(INIT, INIT, packet, received);
    XorCancel(Crc(packet), Crc(received));
    if Val(received[0]) == Val(packet[0]) {
      ByteEqual(received[0], packet[0]);
    }
  }

  /** A packet corrupted within sixteen consecutive bits is rejected, whatever its length. */
  lemma BurstRejected(packet: seq<byte>, received: seq<byte>, at: nat)
    requires VerifyPacket(packet) && |received| == |packet|
    requires Burst(Bits(XorBytes(packet, received)), at)
    ensures !VerifyPacket(received)
  {
    hide VerifyPacket, XorBytes, Bits;
    CorruptionAcceptedIff(packet, received);
    RegisterIsFeed(0, XorBytes(packet, received));
    BurstDetected(Bits(XorBytes(packet, received)), at);
  }

  /** A packet with an odd number of flipped bits is rejected, wherever they are. */
  lemma OddFlipsRejected(packet: seq<byte>, received: seq<byte>)
    requires VerifyPacket(packet) && |received| == |packet|
    requires OddCount(Bits(XorBytes(packet, received)))
    ensures !VerifyPacket(received)
  {
    hide VerifyPacket, XorBytes, Bits, Feed, OddCount, Parity;
    CorruptionAcceptedIff(packet, received);
    RegisterIsFeed(0, XorBytes(packet, received));
    ParityFeed(0, Bits(XorBytes(packet, received)));
    ParityConstants();
  }
}
