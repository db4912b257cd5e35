/**
 Polling: the commands a run sends byte by byte, how often the single-tag command goes along,
 and the round number each tag event carries.
 */
module InventoryPolls {
  import opened Wrappers
  import opened Reader18
  import opened Crc16
  import opened Inventory
  import opened InventoryRuns
  import InventoryCounts
  import Antenna
  import HexText

  // ---- On the wire --------------------------------------------------------------------------

  /** What stands at each offset of the inventory command of a round. */
  lemma PollOnWire(s: State)
    ensures var p := RoundPacket(NextRound(s), NextAntenna(s));
            && |p| == 10 && Val(p[0]) == 9 && Crc(p) == 0
            && p[1] == s.readerAddr && p[2] == 0x01
            && p[3] == s.cfg.qValue && p[4] == s.cfg.session && p[5] == s.target
            && Val(p[6]) == 128 + NextAntenna(s)
            && p[7] == if s.cfg.scanTime == 0x00 then 0x01 else s.cfg.scanTime
  {
    hide Packet, Crc, Antenna.AntennaByte, Antenna.Pick, Val;
    var t, i := NextRound(s), NextAntenna(s);
    var payload := InventoryG2Payload(t.cfg.qValue, t.cfg.session, 0x00, 0x00, t.target,
                                      Antenna.AntennaByte(i), t.cfg.scanTime);
    var p := RoundPacket(t, i);
    Antenna.AntennaByteValue(i);
    PacketLayout(t.readerAddr, CMD_INVENTORY, payload);
    assert p[3] == p[3..8][0] && p[4] == p[3..8][1] && p[5] == p[3..8][2] && p[6] == p[3..8][3] && p[7] == p[3..8][4];
  }

  /** The single-tag command has no payload. */
  lemma SingleOnWire(address: byte)
    ensures var p := Packet(address, CMD_INVENTORY_SINGLE, []);
            |p| == 5 && Val(p[0]) == 4 && p[1] == address && p[2] == 0x0F && Crc(p) == 0
  {
    hide Packet, Crc, Val;
    PacketLayout(address, CMD_INVENTORY_SINGLE, []);
  }

  /** The first round of a run asks for the lowest enabled antenna. */
  lemma FirstPoll(s: State)
    requires Usable(s.cfg)
    ensures var first := NextAntenna(Reset(s));
            && first < 8 && Antenna.Enabled(s.cfg.antennaMask, first)
            && forall x: nat | x < first :: !Antenna.Enabled(s.cfg.antennaMask, x)
  {
    NormalizedUsable(s.cfg);
    hide NormalizeConfig, Usable, Antenna.Enabled, Antenna.Pick, Antenna.Used;
    var mask := s.cfg.antennaMask;
    assert mask != 0x00 by { MaskUsable(s.cfg); }
    var d := Antenna.PickNearest(mask, 0);
    assert Antenna.Ahead(0, d) == d;
    forall x: nat | x < d
      ensures !Antenna.Enabled(mask, x)
    {
      assert Antenna.Ahead(0, x) == x;
    }
  }

  lemma MaskUsable(cfg: Config)
    requires Usable(cfg)
    ensures cfg.antennaMask != 0x00
  {
  }

  // ---- Rounds of a run ----------------------------------------------------------------------

  lemma {:induction false} RoundsOfRun(s: State, inputs: seq<Input>)
    ensures Run(Started(s), inputs).state.rounds == s.rounds + Polls(inputs)
    decreases inputs
  {
    hide Work, NormalizeConfig, Antenna.Pick;
    if inputs != [] {
      RoundsOfRun(s, inputs[..|inputs| - 1]);
      WorkKeepsRotation(Run(Started(s), inputs[..|inputs| - 1]));
    }
  }

  /** Rounds of a run that also send the single-tag command. */
  function Singles(c: Client, inputs: seq<Input>): nat
    decreases inputs
  {
    if inputs == [] then 0
    else
      var front := inputs[..|inputs| - 1];
      Singles(c, front)
      + if inputs[|inputs| - 1].Polled? && WithSingle(NextRound(Run(c, front).state)) then 1 else 0
  }

  /** Of the polls since the start every n-th sends a single-tag command, and none when n is 0. */
  lemma {:induction false} SinglesCounted(s: State, inputs: seq<Input>)
    requires NormalizeConfig(s.cfg) == s.cfg && s.rounds == 0
    ensures var each := s.cfg.singleFallbackEach;
            each >= 0 && Singles(Started(s), inputs) == if each == 0 then 0 else Polls(inputs) / each
    decreases inputs
  {
    NormalizedUsable(s.cfg);
    var each := s.cfg.singleFallbackEach;
    if inputs == [] {
      assert each > 0 ==> 0 / each == 0;
    } else {
      hide Usable;
      var front := inputs[..|inputs| - 1];
      SinglesCounted(s, front);
      RoundsOfRun(s, front);
      AskedIsThreaded(s, front);
      hide NormalizeConfig, Run, Asked, Antenna.Pick;
      if each > 0 {
        InventoryCounts.NextGroup(Polls(front), each);
        GroupsEnd(Polls(front), each);
      }
    }
  }

  lemma GroupsEnd(c: nat, n: nat)
    requires n > 0
    ensures (c + 1) % n == 0 <==> c % n + 1 == n
  {
    InventoryCounts.NextGroup(c, n);
  }

  // ---- Round numbers ------------------------------------------------------------------------

  lemma PerformNumbers(s: State, op: Op)
    ensures s.events <= Perform(s, op).events && |Perform(s, op).events| <= |s.events| + 1
    ensures forall k | |s.events| <= k < |Perform(s, op).events| && Perform(s, op).events[k].TagSeen? ::
              Perform(s, op).events[k].rounds == s.rounds
  {
    hide HexText.HexUpper, IsNoTagStatus, Flip;
  }

  /** Events are only added, by steps of the run loop, and a tag event carries the number of polls
      sent before that step. */
  lemma EventsNumbered(s: State, inputs: seq<Input>, input: Input)
    ensures var was := Run(Started(s), inputs).state.events;
            var events := Step(Run(Started(s), inputs), input).state.events;
            && was <= events && (!input.Worked? ==> events == was)
            && forall k | |was| <= k < |events| && events[k].TagSeen? :: events[k].rounds == s.rounds + Polls(inputs)
  {
    hide Run, Perform, Parse, FramesOps, Antenna.Pick, NormalizeConfig;
    RoundsOfRun(s, inputs);
    var c := Run(Started(s), inputs);
    if input.Worked? && c.pending != [] {
      PerformNumbers(c.state, c.pending[0]);
    }
  }
}
