/**
 The CRC detects every one, two or three flipped bits of a packet.  Shifting is multiplication by `x` modulo
 the generator, and `x` has order 32767, far more than the 2048 bits of the longest packet.  The
 order follows from three powers of `x`, which repeated squaring gives in a few steps.
 */
module CrcDistance {
  import opened Wrappers
  import opened Crc16
  import opened CrcErrors
  import opened Division
  import opened Reader18

  // ---- Products of registers -----------------------------------------------------------

  /** The polynomial one: the register is reflected, so its constant term is the top bit. */
  const ONE: bv16 := 0x8000

  /** The power `x` to the `n`. */
  function Power(n: nat): bv16 {
    ShiftN(ONE, n)
  }

  function Chosen(bit: bv16, t: bv16): bv16 { if bit != 0 then t else 0 }

  /** One digit of a product by Horner's rule. */
  function Digit(r: bv16, bit: bv16, t: bv16): bv16 {
    Xor(Shift(r), Chosen(bit, t))
  }

  /** Bits 0 to 3 as numbers. */
  function Bit0(c: bv16): bv16 { c & 1 }
  function Bit1(c: bv16): bv16 { (c >> 1) & 1 }
  function Bit2(c: bv16): bv16 { (c >> 2) & 1 }
  function Bit3(c: bv16): bv16 { (c >> 3) & 1 }

  function FourDigits(r: bv16, c: bv16, t: bv16): bv16 {
    Digit(Digit(Digit(Digit(r, Bit0(c), t), Bit1(c), t), Bit2(c), t), Bit3(c), t)
  }

  function Down(c: bv16): bv16 { c >> 4 }

  function Horner(r: bv16, c: bv16, t: bv16, k: nat): bv16
    decreases k
  {
    if k == 0 then r else Horner(FourDigits(r, c, t), Down(c), t, k - 1)
  }

  function Times(c: bv16, t: bv16): bv16 {
    Horner(0, c, t, 4)
  }

  lemma DigitShifts(r: bv16, bit: bv16, t: bv16, n: nat)
    ensures Digit(ShiftN(r, n), bit, ShiftN(t, n)) == ShiftN(Digit(r, bit, t), n)
  {
    hide Shift, Xor;
    ShiftNAdd(r, n, 1);
    assert ShiftN(ShiftN(r, n), 1) == Shift(ShiftN(r, n));
    ShiftNZero(0, n);
    ShiftNLinear(Shift(r), Chosen(bit, t), n);
  }

  lemma {:induction false} HornerShifts(r: bv16, c: bv16, t: bv16, k: nat, n: nat)
    ensures Horner(ShiftN(r, n), c, ShiftN(t, n), k) == ShiftN(Horner(r, c, t, k), n)
    decreases k
  {
    hide Digit, ShiftN, Down, Bit0, Bit1, Bit2, Bit3;
    if k > 0 {
      var a := Digit(r, Bit0(c), t);
      var b := Digit(a, Bit1(c), t);
      var d := Digit(b, Bit2(c), t);
      DigitShifts(r, Bit0(c), t, n);
      DigitShifts(a, Bit1(c), t, n);
      DigitShifts(b, Bit2(c), t, n);
      DigitShifts(d, Bit3(c), t, n);
      HornerShifts(FourDigits(r, c, t), Down(c), t, k - 1, n);
    }
  }

  /** The low four bits of `c` shifted in at the top of `r`. */
  function Slide(r: bv16, c: bv16): bv16 { (r >> 4) ^ ((c & 0xF) << 12) }

  predicate Room(r: bv16) { r & 0xF == 0 }

  /** One bit shifted in at the top. */
  function Push(r: bv16, bit: bv16): bv16 { (r >> 1) ^ (bit << 15) }

  lemma ShiftEven(r: bv16)
    requires r & 1 == 0
    ensures Shift(r) == r >> 1
  {
  }

  lemma ChosenOne(bit: bv16)
    requires bit <= 1
    ensures Chosen(bit, ONE) == bit << 15
  {
  }

  lemma DigitOne(r: bv16, bit: bv16)
    requires r & 1 == 0 && bit <= 1
    ensures Digit(r, bit, ONE) == Push(r, bit)
  {
    ShiftEven(r);
    ChosenOne(bit);
    hide Shift, Chosen;
  }

  /** Four bits pushed, and that each found a free one at the bottom. */
  lemma FourPushed(r: bv16, c: bv16)
    requires Room(r)
    ensures var r1 := Push(r, Bit0(c));
            var r2 := Push(r1, Bit1(c));
            var r3 := Push(r2, Bit2(c));
            && r & 1 == 0 && r1 & 1 == 0 && r2 & 1 == 0 && r3 & 1 == 0
            && Push(r3, Bit3(c)) == Slide(r, c)
  {
  }

  lemma BitsSmall(c: bv16)
    ensures Bit0(c) <= 1 && Bit1(c) <= 1 && Bit2(c) <= 1 && Bit3(c) <= 1
  {
  }

  /** While the low four bits are zero, four digits of a product with one shift them in. */
  lemma FourDigitsOne(r: bv16, c: bv16)
    requires Room(r)
    ensures FourDigits(r, c, ONE) == Slide(r, c)
  {
    hide Digit, Push, Slide, Bit0, Bit1, Bit2, Bit3;
    FourPushed(r, c);
    BitsSmall(c);
    var r1 := Push(r, Bit0(c));
    var r2 := Push(r1, Bit1(c));
    DigitOne(r, Bit0(c));
    DigitOne(r1, Bit1(c));
    DigitOne(r2, Bit2(c));
    DigitOne(Push(r2, Bit2(c)), Bit3(c));
  }

  lemma SlidFourTimes(c: bv16)
    ensures var c2, c3, c4 := Down(c), Down(Down(c)), Down(Down(Down(c)));
            var r1 := Slide(0, c);
            var r2 := Slide(r1, c2);
            var r3 := Slide(r2, c3);
            Room(0) && Room(r1) && Room(r2) && Room(r3) && Slide(r3, c4) == c
  {
  }

  lemma TimesOne(c: bv16)
    ensures Times(c, ONE) == c
  {
    hide FourDigits, Slide, Down, Room;
    SlidFourTimes(c);
    var c2, c3, c4 := Down(c), Down(Down(c)), Down(Down(Down(c)));
    var r1 := Slide(0, c);
    var r2 := Slide(r1, c2);
    var r3 := Slide(r2, c3);
    FourDigitsOne(0, c);
    FourDigitsOne(r1, c2);
    FourDigitsOne(r2, c3);
    FourDigitsOne(r3, c4);
    assert Horner(r3, c4, ONE, 1) == c;
    assert Horner(r2, c3, ONE, 2) == c;
    assert Horner(r1, c2, ONE, 3) == c;
  }

  /** Shifting `n` times is multiplying by the power. */
  lemma ShiftIsTimes(c: bv16, n: nat)
    ensures ShiftN(c, n) == Times(c, Power(n))
  {
    hide Horner, ShiftN;
    TimesOne(c);
    HornerShifts(0, c, ONE, 4, n);
    ShiftNZero(0, n);
  }

  /** A product from its four partial results. */
  lemma Product(c: bv16, t: bv16, r1: bv16, r2: bv16, r3: bv16, u: bv16)
    requires FourDigits(0, c, t) == r1 && FourDigits(r1, Down(c), t) == r2
    requires FourDigits(r2, Down(Down(c)), t) == r3 && FourDigits(r3, Down(Down(Down(c))), t) == u
    ensures Times(c, t) == u
  {
    hide FourDigits, Down;
    assert Horner(r3, Down(Down(Down(c))), t, 1) == u;
    assert Horner(r2, Down(Down(c)), t, 2) == u;
    assert Horner(r1, Down(c), t, 3) == u;
  }

  /** Squaring doubles the exponent; one more shift makes it odd. */
  lemma Squared(n: nat, t: bv16, r1: bv16, r2: bv16, r3: bv16, u: bv16)
    requires Power(n) == t
    requires FourDigits(0, t, t) == r1 && FourDigits(r1, Down(t), t) == r2
    requires FourDigits(r2, Down(Down(t)), t) == r3 && FourDigits(r3, Down(Down(Down(t))), t) == u
    ensures Power(2 * n) == u && Power(2 * n + 1) == Shift(u)
  {
    hide Shift, Horner, FourDigits, Down, Times;
    Product(t, t, r1, r2, r3, u);
    ShiftNAdd(ONE, n, n);
    ShiftIsTimes(t, n);
    ShiftNAdd(ONE, 2 * n, 1);
    assert ShiftN(u, 1) == Shift(u);
  }

  // ---- Three powers --------------------------------------------------------------------

  lemma FirstPowers()
    ensures Power(1) == 0x4000 && Power(3) == 0x1000 && Power(15) == 0x0001 && Power(16) == 0x8408
  {
    assert Power(4) == 0x0800;
    ShiftNAdd(ONE, 4, 4);
    assert Power(8) == 0x0080;
    ShiftNAdd(ONE, 8, 4);
    assert Power(12) == 0x0008;
    ShiftNAdd(ONE, 12, 3);
    ShiftNAdd(ONE, 12, 4);
  }

  lemma Power217()
    ensures Power(217) == 0xC712
  {
    hide ShiftN, Horner;
    FirstPowers();
    Squared(3, 0x1000, 0x0000, 0x0000, 0x0000, 0x0200);
    Squared(6, 0x0200, 0x0000, 0x0000, 0x0080, 0x0008);
    Squared(13, 0x0004, 0x0002, 0x2102, 0x2312, 0x2333);
    Squared(27, 0x9591, 0x33B0, 0xA51A, 0x522B, 0x1688);
    Squared(54, 0x1688, 0x1688, 0x93E8, 0x83D0, 0x0AEC);
    Squared(108, 0x0AEC, 0x0F9A, 0xA8D2, 0x23D8, 0x8635);
  }

  lemma Power1057()
    ensures Power(1057) == 0xF54F
  {
    hide ShiftN, Horner;
    FirstPowers();
    Squared(16, 0x8408, 0x8408, 0x8C48, 0xCEC8, 0x0CEC);
    Squared(33, 0x0676, 0x86AE, 0xAF08, 0x0856, 0x6383);
    Squared(66, 0x6383, 0xB19A, 0xCD90, 0xBD43, 0x5172);
    Squared(132, 0x5172, 0x9054, 0xBBC6, 0x2090, 0x629A);
    Squared(264, 0x629A, 0xFE34, 0x612A, 0x3FB6, 0xCD1E);
    Squared(528, 0xCD1E, 0x1CDE, 0x396C, 0xB1A4, 0xE28F);
  }

  lemma Power1023()
    ensures Power(1023) == 0x46D8
  {
    hide ShiftN, Horner;
    FirstPowers();
    Squared(15, 0x0001, 0x2102, 0x2312, 0x2333, 0x33B0);
    Squared(31, 0x19D8, 0x19D8, 0x939A, 0xB6D0, 0x0856);
    Squared(63, 0x042B, 0xA0AE, 0x2A02, 0xA5BF, 0xFDD4);
    Squared(127, 0x7EEA, 0xE558, 0x5070, 0xDF2A, 0x41E6);
    Squared(255, 0x20F3, 0xA928, 0x9330, 0x0933, 0xFF20);
    Squared(511, 0x7F90, 0x0000, 0x7062, 0x764A, 0x8DB0);
  }

  lemma Power32767()
    ensures Power(32767) == ONE
  {
    hide ShiftN, Horner;
    Power1023();
    Squared(1023, 0x46D8, 0x46D8, 0xED0A, 0x9900, 0x2AFC);
    Squared(2047, 0x157E, 0x9E96, 0x25A4, 0x8E42, 0xED45);
    Squared(4095, 0xF2AA, 0x4A08, 0xCAA0, 0xB408, 0xE044);
    Squared(8191, 0x7022, 0x9800, 0x9180, 0x0918, 0x6888);
    Squared(16383, 0x3444, 0x1A22, 0x3A82, 0x3888, 0x0811);
  }

  // ---- The order of a shift ------------------------------------------------------------

  /** Shifting `n` times changes nothing. */
  predicate Cycle(n: nat) {
    Power(n) == ONE
  }

  lemma {:induction false} CycleMod(n: nat, e: nat)
    requires e > 0 && Cycle(e)
    ensures Cycle(n) <==> Cycle(n % e)
    decreases n
  {
    hide ShiftN;
    if n >= e {
      ShiftNAdd(ONE, e, n - e);
      CycleMod(n - e, e);
      RemainderStep(n, e);
    }
  }

  /** The shortest cycle up to a given one; its multiples are all the cycles. */
  lemma {:induction false} ShortestCycle(d: nat) returns (e: nat)
    requires d > 0 && Cycle(d)
    ensures 0 < e <= d && Cycle(e) && forall n: nat :: Cycle(n) <==> n % e == 0
    decreases d
  {
    hide Cycle;
    if m: nat :| 0 < m < d && Cycle(m) {
      e := ShortestCycle(m);
    } else {
      e := d;
      NoShiftIsCycle();
      forall n: nat
        ensures Cycle(n) <==> n % e == 0
      {
        CycleMod(n, e);
      }
    }
  }

  lemma NoShiftIsCycle()
    ensures Cycle(0)
  {
  }

  /** The small divisors of 32767. */
  predicate Known(k: nat)
    requires k > 0
  {
    32767 % k == 0 ==> k in {1, 7, 31, 151}
  }

  predicate AllKnown(n: nat)
    decreases n
  {
    n == 0 || (Known(n) && AllKnown(n - 1))
  }

  lemma {:induction false} AllKnownMeans(n: nat, k: nat)
    requires 0 < k <= n && AllKnown(n)
    ensures Known(k)
    decreases n
  {
    hide Known;
    if k < n {
      AllKnownMeans(n - 1, k);
    }
  }

  lemma KnownUpTo60()
    ensures AllKnown(60)
  {
    assert AllKnown(8);
    assert AllKnown(16);
    assert AllKnown(24);
    assert AllKnown(32);
    assert AllKnown(40);
    assert AllKnown(48);
    assert AllKnown(56);
    assert AllKnown(60);
  }

  lemma KnownUpTo120()
    ensures AllKnown(120)
  {
    KnownUpTo60();
    assert AllKnown(68);
    assert AllKnown(76);
    assert AllKnown(84);
    assert AllKnown(92);
    assert AllKnown(100);
    assert AllKnown(108);
    assert AllKnown(116);
    assert AllKnown(120);
  }

  lemma KnownUpTo181()
    ensures AllKnown(181)
  {
    KnownUpTo120();
    assert AllKnown(128);
    assert AllKnown(136);
    assert AllKnown(144);
    assert AllKnown(152);
    assert AllKnown(160);
    assert AllKnown(168);
    assert AllKnown(176);
    assert AllKnown(181);
  }

  lemma Cofactor(e: nat) returns (q: nat)
    requires 0 < e && 32767 % e == 0
    ensures e * q == 32767 && q > 0 && 32767 % q == 0
  {
    q := 32767 / e;
    assert 32767 == q * e;
    Quotient(32767, q, e, 0);
  }

  lemma ShortDivisor(e: nat)
    requires 0 < e < 2048 && 32767 % e == 0
    ensures 217 % e == 0 || 1057 % e == 0
  {
    hide AllKnown;
    if e < 182 {
      KnownUpTo181();
      AllKnownMeans(181, e);
    } else {
      var q := Cofactor(e);
      assert q < 182 by {
        assert q >= 182 ==> e * q >= 182 * 182;
      }
      KnownUpTo181();
      AllKnownMeans(181, q);
      assert q > 15 by {
        assert q <= 15 ==> e * q <= 2047 * 15;
      }
    }
  }

  /** Shorter than the longest packet, no number of shifts brings a register back. */
  lemma NoShortCycle(d: nat)
    requires 0 < d < 2048
    ensures !Cycle(d)
  {
    if Cycle(d) {
      var e := ShortestCycle(d);
      Power32767();
      Power217();
      Power1057();
      assert Cycle(32767) && !Cycle(217) && !Cycle(1057);
      ShortDivisor(e);
    }
  }

  lemma ShiftInjective(a: bv16, b: bv16, n: nat)
    requires ShiftN(a, n) == ShiftN(b, n)
    ensures a == b
  {
    hide Xor, ShiftN;
    ShiftNLinear(a, b, n);
    XorCancel(ShiftN(a, n), ShiftN(b, n));
    ShiftNZero(Xor(a, b), n);
    XorCancel(a, b);
  }

  /** The same for the register that one flipped bit leaves. */
  lemma OneBitMoves(d: nat)
    requires 0 < d < 2048
    ensures ShiftN(1, d) != 1
  {
    hide ShiftN;
    FirstPowers();
    NoShortCycle(d);
    if ShiftN(1, d) == 1 {
      ShiftNAdd(ONE, 15, d);
      ShiftNAdd(ONE, d, 15);
      assert d + 15 == 15 + d;
      ShiftInjective(Power(d), ONE, 15);
      assert false;
    }
  }

  // ---- Few flipped bits ----------------------------------------------------------------

  function FlipCount(bits: seq<bool>): nat
    decreases bits
  {
    if bits == [] then 0 else (if bits[0] then 1 else 0) + FlipCount(bits[1..])
  }

  lemma {:induction false} OddFlips(bits: seq<bool>)
    ensures OddCount(bits) <==> FlipCount(bits) % 2 == 1
    decreases bits
  {
    if bits != [] {
      OddFlips(bits[1..]);
    }
  }

  lemma {:induction false} NoFlips(bits: seq<bool>)
    ensures FlipCount(bits) == 0 <==> true !in bits
    decreases bits
  {
    if bits != [] {
      NoFlips(bits[1..]);
      assert true in bits <==> bits[0] || true in bits[1..];
    }
  }

  /** The part before the first flipped bit, and the part after it. */
  lemma {:induction false} FirstFlip(bits: seq<bool>) returns (pre: seq<bool>, post: seq<bool>)
    requires FlipCount(bits) > 0
    ensures bits == pre + [true] + post && true !in pre && FlipCount(post) == FlipCount(bits) - 1
    decreases bits
  {
    if bits[0] {
      pre, post := [], bits[1..];
    } else {
      pre, post := FirstFlip(bits[1..]);
      pre := [false] + pre;
      assert bits == [bits[0]] + bits[1..];
    }
  }

  lemma FeedFlip(c: bv16, post: seq<bool>)
    ensures Feed(c, [true] + post) == Feed(Shift(Xor(c, 1)), post)
  {
    assert ([true] + post)[1..] == post;
  }

  lemma TwoFlipsDetected(bits: seq<bool>)
    requires FlipCount(bits) == 2 && |bits| <= 2048
    ensures Feed(0, bits) != 0
  {
    hide Feed, ShiftN, Shift, Xor, FlipCount;
    var pre, rest := FirstFlip(bits);
    var mid, post := FirstFlip(rest);
    NoFlips(post);
    var d := |mid| + 1;
    assert bits == pre + ([true] + (mid + ([true] + post))) by {
      assert rest == mid + ([true] + post);
    }
    FeedConcat(0, pre, [true] + (mid + ([true] + post)));
    FeedQuiet(0, pre);
    XorCancel(1, 0);
    FeedFlip(0, mid + ([true] + post));
    FeedConcat(Shift(1), mid, [true] + post);
    FeedZeros(Shift(1), mid);
    FirstShift(|mid|);
    FeedFlip(ShiftN(1, d), post);
    OneBitMoves(d);
    XorCancel(ShiftN(1, d), 1);
    ShiftZero(Xor(ShiftN(1, d), 1));
    FeedQuiet(Shift(Xor(ShiftN(1, d), 1)), post);
  }

  lemma FirstShift(n: nat)
    ensures ShiftN(Shift(1), n) == ShiftN(1, n + 1)
  {
  }

  lemma DifferenceLength(a: seq<byte>, b: seq<byte>)
    requires |a| == |b|
    ensures |XorBytes(a, b)| == |a|
  {
  }

  /** A packet with one, two or three flipped bits is rejected, wherever they are. */
  lemma FewFlipsRejected(packet: seq<byte>, received: seq<byte>)
    requires VerifyPacket(packet) && |received| == |packet|
    requires 1 <= FlipCount(Bits(XorBytes(packet, received))) <= 3
    ensures !VerifyPacket(received)
  {
    hide XorBytes, Bits, Feed, OddCount, FlipCount, Crc;
    var bits := Bits(XorBytes(packet, received));
    OddFlips(bits);
    if OddCount(bits) {
      OddFlipsRejected(packet, received);
    } else {
      CorruptionAcceptedIff(packet, received);
      RegisterIsFeed(0, XorBytes(packet, received));
      DifferenceLength(packet, received);
      TwoFlipsDetected(bits);
    }
  }

  // ---- Four flipped bits ---------------------------------------------------------------

  lemma {:induction false} FlipsConcat(a: seq<bool>, b: seq<bool>)
    ensures FlipCount(a + b) == FlipCount(a) + FlipCount(b)
    decreases a
  {
    if a == [] {
      assert a + b == b;
    } else {
      assert (a + b)[1..] == a[1..] + b;
      FlipsConcat(a[1..], b);
    }
  }

  /** Flipped bits, byte by byte. */
  function FlipsIn(data: seq<byte>): nat
    decreases data
  {
    if data == [] then 0 else FlipCount(BitsOf(data[0] as bv16, 8)) + FlipsIn(data[1..])
  }

  lemma {:induction false} FlipsByByte(data: seq<byte>)
    ensures FlipCount(Bits(data)) == FlipsIn(data)
    decreases data
  {
    hide BitsOf;
    if data != [] {
      hide FlipCount;
      FlipsByByte(data[1..]);
      FlipsConcat(BitsOf(data[0] as bv16, 8), Bits(data[1..]));
    }
  }

  lemma {:induction false} FlipsInConcat(a: seq<byte>, b: seq<byte>)
    ensures FlipsIn(a + b) == FlipsIn(a) + FlipsIn(b)
    decreases a
  {
    hide BitsOf, FlipCount;
    if a == [] {
      assert a + b == b;
    } else {
      assert (a + b)[1..] == a[1..] + b;
      FlipsInConcat(a[1..], b);
    }
  }

  lemma {:induction false} NothingFlipped(data: seq<byte>)
    requires forall k | 0 <= k < |data| :: data[k] == 0
    ensures FlipsIn(data) == 0 && Register(0, data) == 0
    decreases data
  {
    if data != [] {
      ZeroByte();
      hide BitsOf, FlipCount, Absorb;
      NothingFlipped(data[1..]);
    }
  }

  lemma ZeroByte()
    ensures FlipCount(BitsOf(0, 8)) == 0 && Absorb(0, 0) == 0
  {
  }

  /** The generator itself, in the order the register consumes bits. */
  function Generator(): seq<byte> {
    [0x11, 0x08, 0x01]
  }

  lemma GeneratorRegisters()
    ensures Absorb(0, 0x11) == 0x0108 && Absorb(0x0108, 0x08) == 0x0001 && Absorb(0x0001, 0x01) == 0
  {
  }

  lemma GeneratorFlips()
    ensures FlipCount(BitsOf(0x11, 8)) == 2
    ensures FlipCount(BitsOf(0x08, 8)) == 1 && FlipCount(BitsOf(0x01, 8)) == 1
  {
  }

  lemma GeneratorUnseen()
    ensures Register(0, Generator()) == 0 && FlipsIn(Generator()) == 4
  {
    GeneratorRegisters();
    GeneratorFlips();
    hide Absorb, BitsOf, FlipCount;
    var last: seq<byte>, two: seq<byte> := [0x01], [0x08, 0x01];
    assert two[1..] == last && Generator()[1..] == two;
    assert Register(0x0001, last) == 0 && FlipsIn(last) == 1;
    assert Register(0x0108, two) == 0 && FlipsIn(two) == 2;
  }

  /** `packet` with the generator's bits flipped from byte `at` on. */
  function Slipped(packet: seq<byte>, at: nat): (received: seq<byte>)
    requires at + 3 <= |packet|
    ensures |received| == |packet|
  {
    packet[at := packet[at] ^ 0x11][at + 1 := packet[at + 1] ^ 0x08][at + 2 := packet[at + 2] ^ 0x01]
  }

  lemma XorSelf(b: byte, flips: byte)
    ensures b ^ b == 0 && b ^ (b ^ flips) == flips
  {
  }

  lemma SlippedDifference(packet: seq<byte>, at: nat)
    requires at + 3 <= |packet|
    ensures var diff := XorBytes(packet, Slipped(packet, at));
            && |diff| == |packet| && diff[at..at + 3] == Generator()
            && forall k | 0 <= k < |diff| && !(at <= k < at + 3) :: diff[k] == 0
  {
    var received := Slipped(packet, at);
    forall k | 0 <= k < |packet|
      ensures XorBytes(packet, received)[k] == if at <= k < at + 3 then Generator()[k - at] else 0
    {
      XorSelf(packet[k], if at <= k < at + 3 then Generator()[k - at] else 0);
    }
  }

  /**
   Three flipped bits and windows of sixteen are the best bounds: in every packet, at every byte
   after the length, four flipped bits within seventeen go unnoticed.
   */
  lemma FourFlipsAccepted(packet: seq<byte>, at: nat)
    requires VerifyPacket(packet) && 1 <= at && at + 3 <= |packet|
    ensures VerifyPacket(Slipped(packet, at))
    ensures FlipCount(Bits(XorBytes(packet, Slipped(packet, at)))) == 4
  {
    hide Crc, Register, XorBytes, Bits, FlipCount, FlipsIn, Generator;
    var received := Slipped(packet, at);
    var diff := XorBytes(packet, received);
    SlippedDifference(packet, at);
    var pre, post := diff[..at], diff[at + 3..];
    assert diff == pre + (Generator() + post);
    NothingFlipped(pre);
    NothingFlipped(post);
    GeneratorUnseen();
    RegisterConcat(0, pre, Generator() + post);
    RegisterConcat(0, Generator(), post);
    FlipsInConcat(pre, Generator() + post);
    FlipsInConcat(Generator(), post);
    FlipsByByte(diff);
    hide VerifyPacket;
    CorruptionAcceptedIff(packet, received);
  }
}
