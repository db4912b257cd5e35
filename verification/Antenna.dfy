/**
 Antenna rotation.  Each round asks for the next enabled antenna of an eight-bit mask, in
 cyclic order from the index after the previous one.
 */
module Antenna {
  import opened Wrappers

  /** Antenna `i` is enabled in the mask. */
  predicate Enabled(mask: byte, i: nat)
    requires i < 8
  {
    mask & (1 << i) != 0
  }

  /** Remainder that truncates toward zero, as the source's `%` does. */
  function TruncMod(a: int, b: int): int
    requires b > 0
  {
    if a >= 0 then a % b else -((-a) % b)
  }

  function Wrap(start: int): (i: nat)
    ensures i < 8
  {
    (TruncMod(start, 8) + 8) % 8
  }

  function AntennaByte(i: nat): byte
    requires i < 8
  {
    0x80 | Narrow(i)
  }

  /** The enabled antennas among positions `i` to `j` of the endless cycle of indices. */
  function Segment(mask: byte, i: nat, j: nat): seq<nat>
    decreases j - i
  {
    if i >= j then []
    else (if Enabled(mask, i % 8) then [i % 8] else []) + Segment(mask, i + 1, j)
  }

  /** One turn of the cycle: every enabled antenna, in the order they come up from `start`. */
  function Turn(mask: byte, start: nat): seq<nat> {
    Segment(mask, start, start + 8)
  }

  function Used(mask: byte): byte { if mask == 0 then 0x01 else mask }

  /** The antenna a round uses: the first of the turn that starts at its index. */
  function Pick(mask: byte, start: int): (i: nat)
    ensures i < 8
  {
    TurnNonEmpty(mask, Wrap(start));
    Turn(Used(mask), Wrap(start))[0]
  }

  method NextInventoryAntenna(mask: byte, start: int) returns (antenna: byte, next: nat)
    ensures antenna == AntennaByte(Pick(mask, start)) && next == (Pick(mask, start) + 1) % 8
  {
    hide Enabled, AntennaByte, Wrap, Turn, Used, Segment;
    var used := Used(mask);
    var from := Wrap(start);
    TurnNonEmpty(mask, from);
    TurnIsSegment(used, from);
    for i := 0 to 8
      invariant Turn(used, from) == Segment(used, from + i, from + 8)
    {
      var idx := (from + i) % 8;
      SegmentStep(used, from + i, from + 8);
      if Enabled(used, idx) {
        return AntennaByte(idx), (idx + 1) % 8;
      }
    }
    SegmentDone(used, from + 8);
    // The fallback return of the source: no mask reaches it.
    assert false;
    antenna, next := 0x80, from;
  }

  lemma TurnIsSegment(mask: byte, start: nat)
    ensures Turn(mask, start) == Segment(mask, start, start + 8)
  {
  }

  lemma SegmentStep(mask: byte, i: nat, j: nat)
    requires i < j
    ensures Enabled(mask, i % 8) ==> Segment(mask, i, j) != [] && Segment(mask, i, j)[0] == i % 8
    ensures !Enabled(mask, i % 8) ==> Segment(mask, i, j) == Segment(mask, i + 1, j)
  {
    hide Enabled;
  }

  lemma SegmentDone(mask: byte, j: nat)
    ensures Segment(mask, j, j) == []
  {
  }

  lemma TurnNonEmpty(mask: byte, start: nat)
    ensures Used(mask) != 0 && (mask != 0 ==> Used(mask) == mask)
    ensures Turn(Used(mask), start) != [] && Turn(Used(mask), start)[0] < 8
  {
    hide Enabled, Turn;
    SomeEnabled(Used(mask));
    TurnExact(Used(mask), start);
    assert Turn(Used(mask), start)[0] in Turn(Used(mask), start);
  }

  // ---- Order of one turn -----------------------------------------------------------------

  lemma SomeEnabled(mask: byte)
    requires mask != 0
    ensures exists i | 0 <= i < 8 :: Enabled(mask, i)
  {
    assert Enabled(mask, 0) || Enabled(mask, 1) || Enabled(mask, 2) || Enabled(mask, 3)
        || Enabled(mask, 4) || Enabled(mask, 5) || Enabled(mask, 6) || Enabled(mask, 7);
  }

  lemma {:induction false} SegmentExact(mask: byte, i: nat, j: nat)
    requires i <= j <= i + 8
    ensures forall x :: x in Segment(mask, i, j) <==>
              exists p | i <= p < j :: p % 8 == x && Enabled(mask, p % 8)
    ensures forall a, b | 0 <= a < b < |Segment(mask, i, j)| :: Segment(mask, i, j)[a] != Segment(mask, i, j)[b]
    decreases j - i
  {
    hide Enabled;
    if i < j {
      SegmentExact(mask, i + 1, j);
      var rest, all := Segment(mask, i + 1, j), Segment(mask, i, j);
      assert i % 8 !in rest;
      if Enabled(mask, i % 8) {
        assert all == [i % 8] + rest;
        assert forall b | 0 < b < |all| :: all[b] == rest[b - 1] && all[b] in rest;
      }
    }
  }

  /** Within eight positions every index comes up. */
  lemma ComesUp(start: nat, x: nat) returns (p: nat)
    requires x < 8
    ensures start <= p < start + 8 && p % 8 == x
  {
    var base := start - start % 8;
    p := if x >= start % 8 then base + x else base + 8 + x;
  }

  /** A turn names each enabled antenna once and no other. */
  lemma TurnExact(mask: byte, start: nat)
    ensures forall x :: x in Turn(mask, start) <==> 0 <= x < 8 && Enabled(mask, x)
    ensures forall a, b | 0 <= a < b < |Turn(mask, start)| :: Turn(mask, start)[a] != Turn(mask, start)[b]
  {
    hide Enabled;
    SegmentExact(mask, start, start + 8);
    forall x | 0 <= x < 8 && Enabled(mask, x) ensures x in Turn(mask, start) {
      var p := ComesUp(start, x);
    }
  }

  lemma {:induction false} SegmentPeriod(mask: byte, i: nat, j: nat)
    ensures Segment(mask, i + 8, j + 8) == Segment(mask, i, j)
    decreases j - i
  {
    hide Enabled;
    if i < j {
      assert (i + 8) % 8 == i % 8;
      SegmentPeriod(mask, i + 1, j);
    }
  }

  lemma {:induction false} SegmentSplit(mask: byte, i: nat, m: nat, j: nat)
    requires i <= m <= j
    ensures Segment(mask, i, j) == Segment(mask, i, m) + Segment(mask, m, j)
    decreases m - i
  {
    hide Enabled;
    if i < m {
      SegmentSplit(mask, i + 1, m, j);
    }
  }

  /** Where in the endless cycle the first enabled antenna at or after `i` comes up. */
  lemma {:induction false} FirstEnabled(mask: byte, i: nat, j: nat) returns (p: nat)
    requires Segment(mask, i, j) != []
    ensures i <= p < j && p % 8 == Segment(mask, i, j)[0]
    ensures Segment(mask, i, p + 1) == [p % 8]
    ensures Enabled(mask, p % 8) && forall q | i <= q < p :: !Enabled(mask, q % 8)
    decreases j - i
  {
    hide Enabled;
    if Enabled(mask, i % 8) {
      p := i;
    } else {
      p := FirstEnabled(mask, i + 1, j);
    }
  }

  /** The eight positions after `p` repeat those before it. */
  lemma SpanRotates(mask: byte, start: nat, p: nat)
    requires start <= p < start + 8 && Segment(mask, start, p + 1) == [p % 8]
    ensures Turn(mask, start) != [] && Turn(mask, start)[0] == p % 8
    ensures Segment(mask, p + 1, p + 9) == Turn(mask, start)[1..] + [p % 8]
  {
    SegmentSplit(mask, start, p + 1, start + 8);
    SegmentSplit(mask, p + 1, start + 8, p + 9);
    SegmentPeriod(mask, start, p + 1);
    hide Segment;
  }

  lemma SpanIsTurn(mask: byte, p: nat)
    requires p < 15
    ensures Segment(mask, p + 1, p + 9) == Turn(mask, (p % 8 + 1) % 8)
  {
    hide Segment;
    if p + 1 >= 8 {
      SegmentPeriod(mask, p + 1 - 8, p + 1);
      assert (p % 8 + 1) % 8 == p + 1 - 8;
    } else {
      assert (p % 8 + 1) % 8 == p + 1;
    }
  }

  /** Starting the next turn after the antenna just used rotates the order by one. */
  lemma TurnRotates(mask: byte, start: nat)
    requires start < 8 && Turn(mask, start) != []
    ensures var turn := Turn(mask, start);
            Turn(mask, (turn[0] + 1) % 8) == turn[1..] + [turn[0]]
  {
    hide Segment;
    var p := FirstEnabled(mask, start, start + 8);
    SpanRotates(mask, start, p);
    SpanIsTurn(mask, p);
  }

  // ---- Bits and bytes --------------------------------------------------------------------

  /** The mask of a single antenna. */
  function Only(i: nat): byte
    requires i < 8
  {
    [0x01, 0x02, 0x04, 0x08, 0x10, 0x20, 0x40, 0x80][i]
  }

  /** A mask 2^i enables antenna `i` alone, and joined masks enable what either does. */
  lemma EnabledExact(a: byte, b: byte, i: nat, j: nat)
    requires i < 8 && j < 8
    ensures Enabled(Only(i), j) <==> i == j
    ensures Enabled(a | b, j) <==> Enabled(a, j) || Enabled(b, j)
  {
    EnabledSingle(i, j);
    EnabledJoined(a, b, j);
  }

  lemma EnabledSingle(i: nat, j: nat)
    requires i < 8 && j < 8
    ensures Enabled(Only(i), j) <==> i == j
  {
    EnabledBits(Only(i));
    assert i == 0 || i == 1 || i == 2 || i == 3 || i == 4 || i == 5 || i == 6 || i == 7;
    assert j == 0 || j == 1 || j == 2 || j == 3 || j == 4 || j == 5 || j == 6 || j == 7;
  }

  lemma EnabledBits(m: byte)
    ensures Enabled(m, 0) <==> m & 0x01 != 0
    ensures Enabled(m, 1) <==> m & 0x02 != 0
    ensures Enabled(m, 2) <==> m & 0x04 != 0
    ensures Enabled(m, 3) <==> m & 0x08 != 0
    ensures Enabled(m, 4) <==> m & 0x10 != 0
    ensures Enabled(m, 5) <==> m & 0x20 != 0
    ensures Enabled(m, 6) <==> m & 0x40 != 0
    ensures Enabled(m, 7) <==> m & 0x80 != 0
  {
  }

  lemma EnabledJoined(a: byte, b: byte, j: nat)
    requires j < 8
    ensures Enabled(a | b, j) <==> Enabled(a, j) || Enabled(b, j)
  {
    EnabledBits(a);
    EnabledBits(b);
    EnabledBits(a | b);
    assert j == 0 || j == 1 || j == 2 || j == 3 || j == 4 || j == 5 || j == 6 || j == 7;
  }

  /** The byte that asks for antenna `i` has its top bit set and the index below. */
  lemma AntennaByteValue(i: nat)
    requires i < 8
    ensures Val(AntennaByte(i)) == 128 + i
  {
    assert i == 0 || i == 1 || i == 2 || i == 3 || i == 4 || i == 5 || i == 6 || i == 7;
  }

  lemma WrapIsModulo(start: int)
    ensures Wrap(start) == start % 8
  {
  }

  /** The index `d` places after `start`, which may be negative. */
  function Ahead(start: int, d: nat): (i: nat)
    ensures i < 8
  {
    (start + d) % 8
  }

  lemma SameAhead(start: int, from: nat, d: nat)
    requires from == start % 8
    ensures Ahead(start, d) == (from + d) % 8
  {
  }

  /** The antenna a round uses is the first enabled one among the index, the index plus one and so
      on, counted modulo eight, for negative indices too. */
  lemma PickNearest(mask: byte, start: int) returns (d: nat)
    ensures d < 8 && Pick(mask, start) == Ahead(start, d) && Enabled(Used(mask), Ahead(start, d))
    ensures forall e: nat | e < d :: !Enabled(Used(mask), Ahead(start, e))
    ensures if mask == 0 then Pick(mask, start) == 0 else Used(mask) == mask
  {
    assert mask == 0 ==> Used(mask) == Only(0);
    hide Enabled, Wrap, Used, Segment;
    EnabledSingle(0, Pick(mask, start));
    var from := Wrap(start);
    TurnNonEmpty(mask, from);
    var p := FirstEnabled(Used(mask), from, from + 8);
    d := p - from;
    WrapIsModulo(start);
    forall e: nat | e < d
      ensures !Enabled(Used(mask), Ahead(start, e))
    {
      var q := from + e;
      assert !Enabled(Used(mask), q % 8);
      SameAhead(start, from, e);
    }
    SameAhead(start, from, d);
  }

  // ---- Many rounds ---------------------------------------------------------------------

  function NextStart(mask: byte, start: nat): nat
    requires Turn(mask, start) != []
  {
    (Turn(mask, start)[0] + 1) % 8
  }

  /** The antennas of `n` rounds, each round starting where the one before left off. */
  function Rounds(mask: byte, start: nat, n: nat): seq<nat>
    requires start < 8 && Turn(mask, start) != []
    decreases n
  {
    if n == 0 then []
    else
      TurnRotates(mask, start);
      [Turn(mask, start)[0]] + Rounds(mask, NextStart(mask, start), n - 1)
  }

  function StartAfter(mask: byte, start: nat, n: nat): (after: nat)
    requires start < 8 && Turn(mask, start) != []
    ensures after < 8 && |Turn(mask, after)| == |Turn(mask, start)|
    decreases n
  {
    if n == 0 then start
    else
      TurnRotates(mask, start);
      StartAfter(mask, NextStart(mask, start), n - 1)
  }

  /** Within one turn the rounds follow the turn. */
  lemma {:induction false} FirstTurn(mask: byte, start: nat, n: nat)
    requires start < 8 && Turn(mask, start) != [] && n <= |Turn(mask, start)|
    ensures Rounds(mask, start, n) == Turn(mask, start)[..n]
    decreases n
  {
    hide Turn;
    if n > 0 {
      var turn := Turn(mask, start);
      TurnRotates(mask, start);
      FirstTurn(mask, NextStart(mask, start), n - 1);
      assert turn[..n] == [turn[0]] + (turn[1..] + [turn[0]])[..n - 1];
    }
  }

  function Count(xs: seq<nat>, x: nat): nat
    decreases xs
  {
    if xs == [] then 0 else (if xs[0] == x then 1 else 0) + Count(xs[1..], x)
  }

  lemma {:induction false} CountConcat(xs: seq<nat>, ys: seq<nat>, x: nat)
    ensures Count(xs + ys, x) == Count(xs, x) + Count(ys, x)
    decreases xs
  {
    if xs == [] {
      assert xs + ys == ys;
    } else {
      assert (xs + ys)[1..] == xs[1..] + ys;
      CountConcat(xs[1..], ys, x);
    }
  }

  lemma {:induction false} CountDistinct(xs: seq<nat>, x: nat)
    requires forall a, b | 0 <= a < b < |xs| :: xs[a] != xs[b]
    ensures Count(xs, x) == if x in xs then 1 else 0
    decreases xs
  {
    if xs != [] {
      CountDistinct(xs[1..], x);
      assert x in xs <==> x == xs[0] || x in xs[1..];
    }
  }

  lemma {:induction false} RoundsSplit(mask: byte, start: nat, m: nat, n: nat)
    requires start < 8 && Turn(mask, start) != []
    ensures Rounds(mask, start, m + n) ==
            Rounds(mask, start, m) + Rounds(mask, StartAfter(mask, start, m), n)
    decreases m
  {
    hide Turn;
    if m > 0 {
      TurnRotates(mask, start);
      RoundsSplit(mask, NextStart(mask, start), m - 1, n);
    }
  }

  lemma NoRounds(mask: byte, start: nat, x: nat)
    requires start < 8 && Turn(mask, start) != []
    ensures forall n | n == 0 :: Count(Rounds(mask, start, n), x) == 0
  {
  }

  /** Fairness: over any number of whole turns every enabled antenna is used equally often
      and no disabled one at all. */
  lemma {:induction false} RotationFair(mask: byte, start: nat, turns: nat, x: nat)
    requires mask != 0 && start < 8 && x < 8
    ensures Turn(mask, start) != []
    ensures Count(Rounds(mask, start, turns * |Turn(mask, start)|), x) == if Enabled(mask, x) then turns else 0
    decreases turns
  {
    hide Enabled, Turn, Rounds, StartAfter;
    TurnNonEmpty(mask, start);
    var turn := Turn(mask, start);
    var k := |turn|;
    if turns == 0 {
      NoRounds(mask, start, x);
    } else {
      TurnExact(mask, start);
      assert turns * k == k + (turns - 1) * k;
      RoundsSplit(mask, start, k, (turns - 1) * k);
      FirstTurn(mask, start, k);
      assert turn[..k] == turn;
      CountDistinct(turn, x);
      var after := StartAfter(mask, start, k);
      RotationFair(mask, after, turns - 1, x);
      CountConcat(turn, Rounds(mask, after, (turns - 1) * k), x);
    }
  }

  // ---- Calls threaded through the returned index -------------------------------------------

  /** The index after `n` calls of `NextInventoryAntenna`, each given what the one before returned. */
  function IndexAfter(mask: byte, start: int, n: nat): int
    decreases n
  {
    if n == 0 then start else (Pick(mask, IndexAfter(mask, start, n - 1)) + 1) % 8
  }

  /** The antennas of these calls. */
  function Threaded(mask: byte, start: int, n: nat): (xs: seq<nat>)
    ensures |xs| == n
    decreases n
  {
    if n == 0 then [] else Threaded(mask, start, n - 1) + [Pick(mask, IndexAfter(mask, start, n - 1))]
  }

  lemma WrapSmall(i: nat)
    requires i < 8
    ensures Wrap(i) == i
  {
  }

  lemma {:induction false} StartAfterNext(mask: byte, start: nat, n: nat)
    requires start < 8 && Turn(mask, start) != []
    ensures StartAfter(mask, start, n + 1) == NextStart(mask, StartAfter(mask, start, n))
    decreases n
  {
    hide Turn;
    if n > 0 {
      TurnRotates(mask, start);
      StartAfterNext(mask, NextStart(mask, start), n - 1);
    }
  }

  lemma OneRound(mask: byte, start: nat)
    requires start < 8 && Turn(mask, start) != []
    ensures Rounds(mask, start, 1) == [Turn(mask, start)[0]]
  {
    hide Turn;
    TurnRotates(mask, start);
  }

  lemma {:induction false} ThreadedIsRounds(mask: byte, start: int, n: nat)
    ensures Turn(Used(mask), Wrap(start)) != []
    ensures Wrap(IndexAfter(mask, start, n)) == StartAfter(Used(mask), Wrap(start), n)
    ensures Threaded(mask, start, n) == Rounds(Used(mask), Wrap(start), n)
    decreases n
  {
    hide Turn, Used, Wrap, Rounds, StartAfter;
    TurnNonEmpty(mask, Wrap(start));
    if n == 0 {
      NothingThreaded(mask, start);
    } else {
      ThreadedIsRounds(mask, start, n - 1);
      var from := StartAfter(Used(mask), Wrap(start), n - 1);
      RoundsSplit(Used(mask), Wrap(start), n - 1, 1);
      OneRound(Used(mask), from);
      StartAfterNext(Used(mask), Wrap(start), n - 1);
      WrapSmall(IndexAfter(mask, start, n));
    }
  }

  lemma NothingThreaded(mask: byte, start: int)
    ensures Turn(Used(mask), Wrap(start)) != [] ==>
              && StartAfter(Used(mask), Wrap(start), 0) == Wrap(start)
              && Rounds(Used(mask), Wrap(start), 0) == []
  {
  }

  function EnabledSet(mask: byte): set<nat> {
    set x: nat | x < 8 && Enabled(mask, x)
  }

  lemma {:induction false} DistinctSize(xs: seq<nat>, all: set<nat>)
    requires forall a, b | 0 <= a < b < |xs| :: xs[a] != xs[b]
    requires forall x :: x in xs <==> x in all
    ensures |xs| == |all|
    decreases xs
  {
    if xs == [] {
      assert all == {};
    } else {
      assert xs[0] in all;
      forall x
        ensures x in xs[1..] <==> x in all - {xs[0]}
      {
        assert x in xs <==> x == xs[0] || x in xs[1..];
        assert xs[0] !in xs[1..];
      }
      DistinctSize(xs[1..], all - {xs[0]});
    }
  }

  lemma TurnSize(mask: byte, start: nat)
    ensures |Turn(mask, start)| == |EnabledSet(mask)|
  {
    hide Turn, Enabled;
    TurnExact(mask, start);
    DistinctSize(Turn(mask, start), EnabledSet(mask));
  }

  /**
   Fairness of the calls themselves, for every mask, the zero one included, and every start:
   `k` antennas being enabled, `turns` times `k` calls use each of them `turns` times.
   */
  lemma CallsFair(mask: byte, start: int, turns: nat, x: nat)
    requires x < 8
    ensures Count(Threaded(mask, start, turns * |EnabledSet(Used(mask))|), x)
         == if Enabled(Used(mask), x) then turns else 0
  {
    hide Turn, Enabled, Used, Wrap, Rounds, Threaded, Count, EnabledSet;
    TurnNonEmpty(mask, Wrap(start));
    TurnSize(Used(mask), Wrap(start));
    ThreadedIsRounds(mask, start, turns * |EnabledSet(Used(mask))|);
    RotationFair(Used(mask), Wrap(start), turns, x);
  }

  lemma {:induction false} CallsGrow(mask: byte, start: int, m: nat, n: nat, x: nat)
    requires m <= n
    ensures Count(Threaded(mask, start, m), x) <= Count(Threaded(mask, start, n), x)
    decreases n
  {
    hide Count, Pick;
    if m < n {
      CallsGrow(mask, start, m, n - 1, x);
      CountConcat(Threaded(mask, start, n - 1), [Pick(mask, IndexAfter(mask, start, n - 1))], x);
    }
  }

  lemma SomeInUse(mask: byte)
    ensures |EnabledSet(Used(mask))| > 0
  {
    hide Turn, EnabledSet, Used;
    TurnNonEmpty(mask, 0);
    TurnSize(Used(mask), 0);
  }

  /** Any number of calls is spread evenly: no enabled antenna is more than one call ahead of its
      share, none falls behind it, and no disabled one is chosen. */
  lemma CallsEven(mask: byte, start: int, n: nat, x: nat)
    requires x < 8
    ensures |EnabledSet(Used(mask))| > 0
    ensures var share := n / |EnabledSet(Used(mask))|;
            var calls := Count(Threaded(mask, start, n), x);
            if Enabled(Used(mask), x) then share <= calls <= share + 1 else calls == 0
  {
    SomeInUse(mask);
    hide Enabled, EnabledSet, Used, Count, Threaded;
    var k := |EnabledSet(Used(mask))|;
    var q := n / k;
    assert q * k <= n < (q + 1) * k by {
      assert n == q * k + n % k;
    }
    CallsGrow(mask, start, q * k, n, x);
    CallsGrow(mask, start, n, (q + 1) * k, x);
    CallsFair(mask, start, q, x);
    CallsFair(mask, start, q + 1, x);
  }
}
