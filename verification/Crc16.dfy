/**
 CRC-16/MCRF4XX as the reader protocol uses it: reflected register, polynomial
 0x8408, initial value 0xFFFF, no final complement.  One shift of the register is the
 unit of all the reasoning; a byte is eight shifts after an exclusive-or.
 */
module Crc16 {
  import opened Wrappers

  const POLY: bv16 := 0x8408
  const INIT: bv16 := 0xFFFF

  /** Exclusive-or by name, so that proofs about many shifts can hide its bits. */
  function Xor(a: bv16, b: bv16): bv16 { a ^ b }

  /** One iteration of the inner loop. */
  function Shift(crc: bv16): bv16 {
    if crc & 1 != 0 then (crc >> 1) ^ POLY else crc >> 1
  }

  function ShiftN(crc: bv16, n: nat): bv16
    decreases n
  {
    if n == 0 then crc else ShiftN(Shift(crc), n - 1)
  }

  /** One iteration of the outer loop. */
  function Absorb(crc: bv16, b: byte): bv16 {
    ShiftN(Xor(crc, b as bv16), 8)
  }

  /** The register after all of `data`, starting from `crc`. */
  function Register(crc: bv16, data: seq<byte>): bv16
    decreases data
  {
    if data == [] then crc else Register(Absorb(crc, data[0]), data[1..])
  }

  function Crc(data: seq<byte>): bv16 {
    Register(INIT, data)
  }

  function LowByte(crc: bv16): byte { (crc & 0xFF) as byte }

  function HighByte(crc: bv16): byte { (crc >> 8) as byte }

  method Compute(data: seq<byte>) returns (crc: bv16)
    ensures crc == Crc(data)
  {
    crc := INIT;
    for k := 0 to |data|
      invariant Register(crc, data[k..]) == Crc(data)
    {
      ghost var before := crc;
      crc := crc ^ (data[k] as bv16);
      for i := 0 to 8
        invariant ShiftN(crc, 8 - i) == Absorb(before, data[k])
      {
        if crc & 0x0001 != 0 {
          crc := (crc >> 1) ^ POLY;
        } else {
          crc := crc >> 1;
        }
      }
      assert data[k..][1..] == data[k + 1..];
    }
  }

  // ---- Algebra of the register -------------------------------------------------

  /** The same shift without a branch: the low bit is fed back to bits 15, 10 and 3. */
  function Taps(c: bv16): bv16 {
    (c >> 1) ^ (((c & 1) << 15) ^ ((c & 1) << 10) ^ ((c & 1) << 3))
  }

  lemma ShiftIsTaps(c: bv16)
    ensures Shift(c) == Taps(c)
  {
    if c & 1 == 0 {
      assert ((0 as bv16) << 15) ^ ((0 as bv16) << 10) ^ ((0 as bv16) << 3) == 0;
    } else {
      assert c & 1 == 1;
      assert ((1 as bv16) << 15) ^ ((1 as bv16) << 10) ^ ((1 as bv16) << 3) == POLY;
    }
  }

  lemma TapsLinear(a: bv16, b: bv16)
    ensures Taps(a ^ b) == Taps(a) ^ Taps(b)
  {
  }

  lemma ShiftLinear(a: bv16, b: bv16)
    ensures Shift(Xor(a, b)) == Xor(Shift(a), Shift(b))
  {
    hide Shift, Taps;
    ShiftIsTaps(a);
    ShiftIsTaps(b);
    ShiftIsTaps(a ^ b);
    TapsLinear(a, b);
  }

  lemma ShiftZero(a: bv16)
    ensures Shift(a) == 0 <==> a == 0
  {
  }

  lemma {:induction false} ShiftNLinear(a: bv16, b: bv16, n: nat)
    ensures ShiftN(Xor(a, b), n) == Xor(ShiftN(a, n), ShiftN(b, n))
    decreases n
  {
    hide Shift, Xor;
    if n > 0 {
      ShiftLinear(a, b);
      ShiftNLinear(Shift(a), Shift(b), n - 1);
    }
  }

  lemma {:induction false} ShiftNZero(a: bv16, n: nat)
    ensures ShiftN(a, n) == 0 <==> a == 0
    decreases n
  {
    hide Shift;
    if n > 0 {
      ShiftZero(a);
      ShiftNZero(Shift(a), n - 1);
    }
  }

  lemma {:induction false} ShiftNAdd(a: bv16, m: nat, n: nat)
    ensures ShiftN(a, m + n) == ShiftN(ShiftN(a, m), n)
    decreases m
  {
    hide Shift;
    if m > 0 {
      ShiftNAdd(Shift(a), m - 1, n);
    }
  }

  lemma XorExchange(a: bv16, b: bv16, x: bv16, y: bv16)
    ensures Xor(Xor(a, b), Xor(x, y)) == Xor(Xor(a, x), Xor(b, y))
  {
    hide Xor;
    XorAssoc(a, b, Xor(x, y));
    XorAssoc(b, x, y);
    XorComm(b, x);
    XorAssoc(x, b, y);
    XorAssoc(a, x, Xor(b, y));
  }

  lemma XorComm(a: bv16, b: bv16)
    ensures Xor(a, b) == Xor(b, a)
  {
  }

  lemma XorAssoc(a: bv16, b: bv16, c: bv16)
    ensures Xor(Xor(a, b), c) == Xor(a, Xor(b, c))
  {
  }

  lemma XorCancel(a: bv16, b: bv16)
    ensures Xor(a, b) == 0 <==> a == b
    ensures Xor(a, 0) == a && Xor(0, a) == a
  {
    hide Xor;
    XorBack(a, b);
    XorBack(a, 0);
    XorBack(a, a);
  }

  lemma XorBack(a: bv16, b: bv16)
    ensures a == Xor(Xor(a, b), b)
    ensures Xor(a, a) == 0 && Xor(0, b) == b && Xor(a, 0) == a
  {
  }

  lemma WidenXor(a: byte, b: byte)
    ensures (a ^ b) as bv16 == Xor(a as bv16, b as bv16)
  {
  }

  lemma AbsorbLinear(c: bv16, d: bv16, a: byte, b: byte)
    ensures Absorb(Xor(c, d), a ^ b) == Xor(Absorb(c, a), Absorb(d, b))
  {
    hide Xor, ShiftN;
    WidenXor(a, b);
    XorExchange(c, d, a as bv16, b as bv16);
    ShiftNLinear(Xor(c, a as bv16), Xor(d, b as bv16), 8);
  }

  lemma {:induction false} RegisterConcat(c: bv16, a: seq<byte>, b: seq<byte>)
    ensures Register(c, a + b) == Register(Register(c, a), b)
    decreases a
  {
    hide Absorb;
    if a == [] {
      assert a + b == b;
    } else {
      assert (a + b)[1..] == a[1..] + b;
      RegisterConcat(Absorb(c, a[0]), a[1..], b);
    }
  }

  /** Two bytes absorbed one after the other are sixteen shifts of one 16-bit word. */
  lemma AbsorbPair(c: bv16, lo: byte, hi: byte)
    ensures Absorb(Absorb(c, lo), hi) == ShiftN(Xor(c, Xor(lo as bv16, (hi as bv16) << 8)), 16)
  {
    hide ShiftN, Xor;
    var x, h := Xor(c, lo as bv16), (hi as bv16) << 8;
    ShiftEight(hi);
    ShiftNLinear(x, h, 8);
    ShiftNAdd(Xor(x, h), 8, 8);
    assert Xor(x, h) == Xor(c, Xor(lo as bv16, h)) by { XorAssoc(c, lo as bv16, h); }
  }

  lemma RegisterPair(c: bv16, lo: byte, hi: byte)
    ensures Register(c, [lo, hi]) == Absorb(Absorb(c, lo), hi)
  {
    hide Absorb;
    assert [lo, hi][1..] == [hi];
    assert Register(c, [lo, hi]) == Register(Absorb(c, lo), [hi]);
    assert Register(Absorb(c, lo), [hi]) == Register(Absorb(Absorb(c, lo), hi), []);
  }

  // ---- The initial value -----------------------------------------------------------

  /** Starting from all ones is starting from zero with the first two bytes complemented. */
  lemma StartComplements(a: byte, b: byte, rest: seq<byte>)
    ensures Crc([a, b] + rest) == Register(0x0000, [a ^ 0xFF, b ^ 0xFF] + rest)
  {
    hide ShiftN, Xor;
    RegisterConcat(INIT, [a, b], rest);
    RegisterConcat(0, [a ^ 0xFF, b ^ 0xFF], rest);
    RegisterPair(INIT, a, b);
    RegisterPair(0, a ^ 0xFF, b ^ 0xFF);
    hide Absorb;
    AbsorbPair(INIT, a, b);
    AbsorbPair(0, a ^ 0xFF, b ^ 0xFF);
    OnesComplement(a, b);
  }

  lemma OnesComplement(a: byte, b: byte)
    ensures Xor(0xFFFF, Xor(a as bv16, (b as bv16) << 8))
         == Xor(0x0000, Xor((a ^ 0xFF) as bv16, ((b ^ 0xFF) as bv16) << 8))
  {
  }

  /** Of all pairs of bytes only two bytes of ones bring the register to zero, and what follows
      them is then processed as if it had started there. */
  lemma StartKnown(lo: byte, hi: byte)
    ensures Crc([lo, hi]) == 0x0000 <==> lo == 0xFF && hi == 0xFF
    ensures forall data :: Crc([0xFF, 0xFF] + data) == Register(0x0000, data)
  {
    hide Absorb;
    RegisterPair(INIT, lo, hi);
    TrailerZero(INIT, lo, hi);
    RegisterPair(INIT, 0xFF, 0xFF);
    TrailerZero(INIT, 0xFF, 0xFF);
    assert LowByte(0xFFFF) == 0xFF && HighByte(0xFFFF) == 0xFF;
    forall data
      ensures Crc([0xFF, 0xFF] + data) == Register(0x0000, data)
    {
      RegisterConcat(INIT, [0xFF, 0xFF], data);
    }
  }

  /** A word is its two bytes. */
  lemma WordSplit(c: bv16)
    ensures c == Xor(LowByte(c) as bv16, (HighByte(c) as bv16) << 8)
  {
    assert c == (c & 0xFF) ^ ((c >> 8) << 8);
  }

  lemma WordJoin(lo: byte, hi: byte)
    ensures LowByte(Xor(lo as bv16, (hi as bv16) << 8)) == lo
    ensures HighByte(Xor(lo as bv16, (hi as bv16) << 8)) == hi
  {
  }

  /** The two trailer bytes bring the register to zero exactly when they are the low and
      the high byte of the register before them. */
  lemma TrailerZero(c: bv16, lo: byte, hi: byte)
    ensures Absorb(Absorb(c, lo), hi) == 0 <==> lo == LowByte(c) && hi == HighByte(c)
  {
    hide Absorb, Xor, ShiftN, LowByte, HighByte;
    AbsorbPair(c, lo, hi);
    var word := Xor(lo as bv16, (hi as bv16) << 8);
    ShiftNZero(Xor(c, word), 16);
    XorCancel(c, word);
    WordSplit(c);
    WordJoin(lo, hi);
  }

  /** While the low bit is zero a shift only divides by two. */
  lemma ShiftEight(b: byte)
    ensures ShiftN((b as bv16) << 8, 8) == b as bv16
  {
    hide Shift;
    var v := b as bv16;
    ShiftDown(b);
    calc {
      ShiftN(v << 8, 8);
      ShiftN(v << 7, 7);
      ShiftN(v << 6, 6);
      ShiftN(v << 5, 5);
      ShiftN(v << 4, 4);
      ShiftN(v << 3, 3);
      ShiftN(v << 2, 2);
      ShiftN(v << 1, 1);
      ShiftN(v, 0);
    }
  }

  lemma ShiftDown(b: byte)
    ensures Shift((b as bv16) << 8) == (b as bv16) << 7
    ensures Shift((b as bv16) << 7) == (b as bv16) << 6
    ensures Shift((b as bv16) << 6) == (b as bv16) << 5
    ensures Shift((b as bv16) << 5) == (b as bv16) << 4
    ensures Shift((b as bv16) << 4) == (b as bv16) << 3
    ensures Shift((b as bv16) << 3) == (b as bv16) << 2
    ensures Shift((b as bv16) << 2) == (b as bv16) << 1
    ensures Shift((b as bv16) << 1) == b as bv16
  {
  }
}
