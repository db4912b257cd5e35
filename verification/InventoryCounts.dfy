/**
 What a run's counters come to: the A/B target and its switches in closed form, and which
 tag events are marked new.
 */
module InventoryCounts {
  import opened Wrappers
  import opened Reader18
  import opened TagPayload
  import opened Inventory
  import opened InventoryRuns
  import opened Division
  import HexText

  /** The reader never reports an empty EPC. */
  predicate Named(sights: seq<Sighting>) {
    forall k | 0 <= k < |sights| && sights[k].Sighted? :: sights[k].read.epc != []
  }

  lemma SightingsOfNamed(frame: Frame)
    ensures Named(SightingsOf(frame))
  {
    hide TagsOf, ParseSingle;
    DecodedTagsNamed(frame);
  }

  lemma DecodedTagsNamed(frame: Frame)
    ensures TagsOf(frame).Ok? ==> forall tag | tag in TagsOf(frame).value :: tag.epc != []
  {
    hide DecodeTags, Val, AntennaId;
    if TagsOf(frame).Ok? && TagsOf(frame).value != [] {
      DecodedIsEncoded(frame.data, 2, 0, Val(frame.data[1]), AntennaId(frame.data[0]));
    }
  }

  lemma {:induction false} SightingsNamed(frames: seq<Frame>)
    ensures Named(Sightings(frames))
    decreases frames
  {
    hide SightingsOf;
    if frames != [] {
      SightingsOfNamed(frames[0]);
      SightingsNamed(frames[1..]);
    }
  }

  // ---- A/B target in closed form ------------------------------------------------------------

  /** Lengths of the stretches without a tag; the last one is still open. */
  function Stretches(sights: seq<Sighting>): (lengths: seq<nat>)
    ensures lengths != []
    decreases sights
  {
    if sights == [] then [0]
    else
      var front := Stretches(sights[..|sights| - 1]);
      match sights[|sights| - 1]
      case Sighted(_) => front + [0]
      case NothingThere => front[|front| - 1 := front[|front| - 1] + 1]
  }

  /** How many full groups of `n` the stretches hold. */
  function Groups(lengths: seq<nat>, n: nat): nat
    requires n > 0
    decreases lengths
  {
    if lengths == [] then 0 else Groups(lengths[..|lengths| - 1], n) + lengths[|lengths| - 1] / n
  }

  lemma GroupsLast(lengths: seq<nat>, n: nat)
    requires n > 0 && lengths != []
    ensures Groups(lengths, n) == Groups(lengths[..|lengths| - 1], n) + lengths[|lengths| - 1] / n
  {
  }

  function Toggle(target: byte, times: nat): byte {
    if times % 2 == 0 then target else target ^ 0x01
  }

  /** The targets of so many switches in turn. */
  function Alternating(target: byte, times: nat): (targets: seq<byte>)
    ensures |targets| == times && forall k | 0 <= k < times :: targets[k] == Toggle(target, k + 1)
  {
    seq(times, k requires 0 <= k < times => Toggle(target, k + 1))
  }

  /** The targets that the switch events report, in order. */
  function Switches(events: seq<Event>): seq<byte>
    decreases events
  {
    if events == [] then []
    else Switches(events[..|events| - 1]) + SwitchOf(events[|events| - 1])
  }

  function SwitchOf(e: Event): seq<byte> {
    if e.TargetSwitched? then [e.target] else []
  }

  lemma SwitchesAppend(events: seq<Event>, e: Event)
    ensures Switches(events + [e]) == Switches(events) + SwitchOf(e)
  {
    assert (events + [e])[..|events|] == events;
  }

  lemma {:induction false} SwitchesCounted(events: seq<Event>)
    ensures Switches(Counted(events)) == Switches(events)
    decreases events
  {
    if events != [] {
      var front := Counted(events[..|events| - 1]);
      SwitchesCounted(events[..|events| - 1]);
      if Counted(events) != front {
        SwitchesAppend(front, Counted(events)[|front|]);
      }
    }
  }

  /** The closed form: with session 2 or 3 and a positive threshold `n` every `n` misses in a
      stretch switch the target; otherwise it stays as it was. */
  predicate ClosedForm(s: State, t: State, lengths: seq<nat>)
    requires lengths != []
  {
    var open := lengths[|lengths| - 1];
    if s.cfg.session >= 2 && s.cfg.noTagABSwitch >= 1 then
      var n := s.cfg.noTagABSwitch;
      && t.noTagHit == open % n
      && t.target == Toggle(s.target, Groups(lengths, n))
      && Switches(t.events) == Switches(s.events) + Alternating(s.target, Groups(lengths, n))
    else
      t.noTagHit == open && t.target == s.target && Switches(t.events) == Switches(s.events)
  }

  lemma {:induction false} SightingsClosedForm(s: State, sights: seq<Sighting>)
    requires s.noTagHit == 0 && Named(sights)
    ensures SeeAll(s, sights).cfg == s.cfg
    ensures ClosedForm(s, SeeAll(s, sights), Stretches(sights))
    decreases sights
  {
    hide ClosedForm, See;
    if sights == [] {
      NothingSeen(s);
    } else {
      var front, last := sights[..|sights| - 1], sights[|sights| - 1];
      assert sights == front + [last];
      SightingsClosedForm(s, front);
      SeeAllConcat(s, front, [last]);
      SeeOne(SeeAll(s, front), last);
      match last {
        case Sighted(r) => ClosedTag(s, SeeAll(s, front), Stretches(front), r);
        case NothingThere => ClosedNothing(s, SeeAll(s, front), Stretches(front));
      }
    }
  }

  lemma NothingSeen(s: State)
    requires s.noTagHit == 0
    ensures ClosedForm(s, s, [0])
  {
    if s.cfg.noTagABSwitch >= 1 {
      assert [0][..0] == [] && 0 / s.cfg.noTagABSwitch == 0 && 0 % s.cfg.noTagABSwitch == 0;
      assert Groups([0], s.cfg.noTagABSwitch) == 0;
      assert Switches(s.events) + [] == Switches(s.events);
    }
  }

  lemma ClosedTag(s: State, t: State, lengths: seq<nat>, r: Read)
    requires lengths != [] && t.cfg == s.cfg && ClosedForm(s, t, lengths) && r.epc != []
    ensures See(t, Sighted(r)).cfg == s.cfg && ClosedForm(s, See(t, Sighted(r)), lengths + [0])
  {
    hide HexText.HexUpper, Switches, Toggle, Alternating;
    var text := HexText.HexUpper(r.epc);
    assert text != "" by { HexNonEmpty(r.epc); }
    var isNew := text !in t.seen;
    SwitchesAppend(t.events, TagSeen(r.source, text, r.antenna, r.rssi, isNew, t.rounds,
                                     if isNew then t.uniqueTags + 1 else t.uniqueTags));
    assert (lengths + [0])[..|lengths|] == lengths;
    if s.cfg.noTagABSwitch >= 1 {
      assert 0 / s.cfg.noTagABSwitch == 0 && 0 % s.cfg.noTagABSwitch == 0;
    }
  }

  lemma HexNonEmpty(epc: seq<byte>)
    ensures HexText.HexUpper(epc) == "" <==> epc == []
  {
  }

  lemma ClosedNothing(s: State, t: State, lengths: seq<nat>)
    requires lengths != [] && t.cfg == s.cfg && ClosedForm(s, t, lengths)
    ensures See(t, NothingThere).cfg == s.cfg
    ensures ClosedForm(s, See(t, NothingThere), lengths[|lengths| - 1 := lengths[|lengths| - 1] + 1])
  {
    hide Switches, Flip, Toggle, Alternating, Groups;
    var open := lengths[|lengths| - 1];
    var longer := lengths[|lengths| - 1 := open + 1];
    assert longer[..|longer| - 1] == lengths[..|lengths| - 1];
    SwitchesAppend(t.events, TargetSwitched(Flip(t.target)));
    if s.cfg.session >= 2 && s.cfg.noTagABSwitch >= 1 {
      var n := s.cfg.noTagABSwitch;
      var groups := Groups(lengths, n);
      NextGroup(open, n);
      GroupsLast(lengths, n);
      GroupsLast(longer, n);
      OneMoreSwitch(s.target, groups);
      assert Switches(s.events) + Alternating(s.target, groups) + [Toggle(s.target, groups + 1)]
          == Switches(s.events) + (Alternating(s.target, groups) + [Toggle(s.target, groups + 1)]);
    }
  }

  lemma OneMoreSwitch(target: byte, times: nat)
    ensures Flip(Toggle(target, times)) == Toggle(target, times + 1)
    ensures Alternating(target, times + 1) == Alternating(target, times) + [Toggle(target, times + 1)]
  {
    assert (target ^ 0x01) ^ 0x01 == target;
  }

  lemma NextGroup(c: nat, n: nat)
    requires n > 0
    ensures (c + 1) / n == c / n + if c % n + 1 == n then 1 else 0
    ensures (c + 1) % n == if c % n + 1 == n then 0 else c % n + 1
  {
    var q, r := c / n, c % n;
    if r + 1 == n {
      Quotient(c + 1, n, q + 1, 0);
    } else {
      Quotient(c + 1, n, q, r + 1);
    }
  }

  /** Over any frames of a run the counter, the target and the number of switches are those
      of the tag-free stretches. */
  lemma TargetClosedForm(s: State, frames: seq<Frame>)
    ensures ClosedForm(Reset(s), OnFrames(Reset(s), frames), Stretches(Sightings(frames)))
  {
    hide OnFrames, SeeAll, Stretches, Sightings, Switches;
    var start, sights := Reset(s), Sightings(frames);
    SightingsNamed(frames);
    SightingsClosedForm(start, sights);
    SeeFrames(start, start, frames);
    SwitchesCounted(OnFrames(start, frames).events);
    SwitchesCounted(SeeAll(start, sights).events);
  }

  lemma {:induction false} SwitchesUnnumbered(events: seq<Event>)
    ensures Switches(UnnumberedAll(events)) == Switches(events)
    decreases events
  {
    if events != [] {
      var n := |events| - 1;
      SwitchesUnnumbered(events[..n]);
      UnnumberedAppend(events[..n], events[n]);
      assert events == events[..n] + [events[n]];
      SwitchesAppend(UnnumberedAll(events[..n]), Unnumbered(events[n]));
      assert SwitchOf(Unnumbered(events[n])) == SwitchOf(events[n]);
    }
  }

  lemma ClosedFormErased(s: State, t: State, lengths: seq<nat>)
    requires lengths != []
    ensures ClosedForm(Erase(s), Erase(t), lengths) <==> ClosedForm(s, t, lengths)
  {
    hide Switches, UnnumberedAll, Groups, Toggle;
    SwitchesUnnumbered(s.events);
    SwitchesUnnumbered(t.events);
  }

  lemma ResetErased(s: State)
    ensures Erase(Reset(s)) == Reset(s)
  {
  }

  /** The same for whole runs of packets, short steps and polls: only the bytes matter. */
  lemma RunTargetClosedForm(s: State, inputs: seq<Input>)
    requires NormalizeConfig(s.cfg) == s.cfg
    requires forall k | 0 <= k < |inputs| && inputs[k].Delivered? :: |inputs[k].data| <= 7937
    ensures ClosedForm(Reset(s), Drained(Run(Started(Reset(s)), inputs)).state,
                       Stretches(Sightings(Parse(Bytes(inputs)).frames)))
  {
    hide NormalizeConfig, Drained, Run, Parse, OnFrames, ClosedForm, Stretches, Sightings, Erase;
    var frames := Parse(Bytes(inputs)).frames;
    ResetErased(s);
    ChunkInvariance(Reset(s), inputs);
    TargetClosedForm(s, frames);
    ClosedFormErased(Reset(s), Drained(Run(Started(Reset(s)), inputs)).state, Stretches(Sightings(frames)));
  }

  // ---- New tags ----------------------------------------------------------------------------

  datatype Note = Note(source: Source, epc: string, antenna: nat, rssi: nat, isNew: bool, uniqueTags: nat)

  function NoteOf(e: Event): seq<Note> {
    if e.TagSeen? then [Note(e.source, e.epc, e.antenna, e.rssi, e.isNew, e.uniqueTags)] else []
  }

  /** The tag events, in order. */
  function Notes(events: seq<Event>): seq<Note>
    decreases events
  {
    if events == [] then [] else Notes(events[..|events| - 1]) + NoteOf(events[|events| - 1])
  }

  lemma NotesAppend(events: seq<Event>, e: Event)
    ensures Notes(events + [e]) == Notes(events) + NoteOf(e)
  {
    assert (events + [e])[..|events|] == events;
  }

  lemma {:induction false} NotesCounted(events: seq<Event>)
    ensures Notes(Counted(events)) == Notes(events)
    decreases events
  {
    if events != [] {
      var front := Counted(events[..|events| - 1]);
      NotesCounted(events[..|events| - 1]);
      if Counted(events) != front {
        NotesAppend(front, Counted(events)[|front|]);
      }
    }
  }

  /** The tags sighted, in order and with repetitions. */
  function Reads(sights: seq<Sighting>): seq<Read>
    decreases sights
  {
    if sights == [] then []
    else
      var front := Reads(sights[..|sights| - 1]);
      match sights[|sights| - 1]
      case Sighted(r) => front + [r]
      case NothingThere => front
  }

  function Epcs(rs: seq<Read>): (epcs: seq<seq<byte>>)
    ensures |epcs| == |rs| && forall k | 0 <= k < |rs| :: epcs[k] == rs[k].epc
  {
    seq(|rs|, k requires 0 <= k < |rs| => rs[k].epc)
  }

  function Distinct(epcs: seq<seq<byte>>): nat {
    |set e | e in epcs|
  }

  /** The keys under which the EPCs are remembered. */
  function Keys(epcs: seq<seq<byte>>): set<string> {
    set e | e in epcs :: HexText.HexUpper(e)
  }

  predicate Describe(notes: seq<Note>, rs: seq<Read>) {
    && |notes| == |rs|
    && forall k | 0 <= k < |rs| ::
         && notes[k].source == rs[k].source && notes[k].antenna == rs[k].antenna
         && notes[k].rssi == rs[k].rssi && notes[k].epc == HexText.HexUpper(rs[k].epc)
         && notes[k].isNew == (Epcs(rs)[k] !in Epcs(rs)[..k])
         && notes[k].uniqueTags == Distinct(Epcs(rs)[..k + 1])
  }

  lemma DescribeAppend(notes: seq<Note>, rs: seq<Read>, note: Note, r: Read)
    requires Describe(notes, rs)
    requires note.source == r.source && note.antenna == r.antenna && note.rssi == r.rssi
    requires note.epc == HexText.HexUpper(r.epc) && note.isNew == (r.epc !in Epcs(rs))
    requires note.uniqueTags == Distinct(Epcs(rs) + [r.epc])
    ensures Describe(notes + [note], rs + [r])
  {
    hide HexText.HexUpper, Distinct;
    var longer, more := notes + [note], Epcs(rs + [r]);
    var epcs := Epcs(rs);
    assert more == epcs + [r.epc];
    hide Epcs;
    forall k | 0 <= k < |more|
      ensures longer[k].isNew == (more[k] !in more[..k]) && longer[k].uniqueTags == Distinct(more[..k + 1])
    {
      if k < |epcs| {
        assert longer[k] == notes[k] && more[k] == epcs[k];
        assert more[..k] == epcs[..k] && more[..k + 1] == epcs[..k + 1];
      } else {
        assert more[..k] == epcs && more[..k + 1] == more;
      }
    }
  }

  /** The key of the tag sighted last. */
  function LastKey(rs: seq<Read>): string {
    if rs == [] then "" else HexText.HexUpper(rs[|rs| - 1].epc)
  }

  /** The events and counters say what was sighted when: event `k` carries the source, antenna,
      RSSI and EPC sighted `k`-th, is marked new exactly when those bytes were not sighted before,
      and reports the number of different EPCs up to then. */
  predicate Faithful(s: State, rs: seq<Read>) {
    && Describe(Notes(s.events), rs)
    && s.uniqueTags == |s.seen| == Distinct(Epcs(rs))
    && s.seen == Keys(Epcs(rs)) && s.lastTag == LastKey(rs)
  }

  lemma FaithfulTag(s: State, rs: seq<Read>, r: Read)
    requires Faithful(s, rs) && r.epc != []
    ensures Faithful(See(s, Sighted(r)), rs + [r])
  {
    hide HexText.HexUpper, Notes, Describe, Distinct, Keys;
    var text, epcs := HexText.HexUpper(r.epc), Epcs(rs);
    assert Epcs(rs + [r]) == epcs + [r.epc];
    HexNonEmpty(r.epc);
    SeenIffSighted(s, epcs, r.epc);
    var isNew := text !in s.seen;
    var unique := if isNew then s.uniqueTags + 1 else s.uniqueTags;
    NotesAppend(s.events, TagSeen(r.source, text, r.antenna, r.rssi, isNew, s.rounds, unique));
    DistinctAppend(epcs, r.epc);
    DescribeAppend(Notes(s.events), rs, Note(r.source, text, r.antenna, r.rssi, isNew, unique), r);
    SeenAppend(epcs, r.epc);
  }

  lemma SeenAppend(epcs: seq<seq<byte>>, epc: seq<byte>)
    ensures Keys(epcs + [epc]) == Keys(epcs) + {HexText.HexUpper(epc)}
  {
    hide HexText.HexUpper;
    assert forall e :: e in epcs + [epc] <==> e in epcs || e == epc;
  }

  lemma SeenIffSighted(s: State, epcs: seq<seq<byte>>, epc: seq<byte>)
    requires s.seen == Keys(epcs)
    ensures HexText.HexUpper(epc) in s.seen <==> epc in epcs
  {
    hide HexText.HexUpper;
    if HexText.HexUpper(epc) in s.seen {
      var e :| e in epcs && HexText.HexUpper(e) == HexText.HexUpper(epc);
      HexText.HexUpperInjective(e, epc);
    }
  }

  lemma DistinctAppend(epcs: seq<seq<byte>>, epc: seq<byte>)
    ensures Distinct(epcs + [epc]) == Distinct(epcs) + if epc in epcs then 0 else 1
  {
    var before := set e | e in epcs;
    assert (set e | e in epcs + [epc]) == before + {epc};
  }

  lemma FaithfulNothing(s: State, rs: seq<Read>)
    requires Faithful(s, rs)
    ensures Faithful(See(s, NothingThere), rs)
  {
    hide HexText.HexUpper, Notes, Distinct, Flip;
    NotesAppend(s.events, TargetSwitched(Flip(s.target)));
  }

  lemma {:induction false} SightingsFaithful(s: State, sights: seq<Sighting>)
    requires Faithful(s, []) && Named(sights)
    ensures Faithful(SeeAll(s, sights), Reads(sights))
    decreases sights
  {
    hide Faithful, See;
    if sights != [] {
      var front, last := sights[..|sights| - 1], sights[|sights| - 1];
      assert sights == front + [last];
      SightingsFaithful(s, front);
      SeeAllConcat(s, front, [last]);
      SeeOne(SeeAll(s, front), last);
      match last {
        case Sighted(r) => FaithfulTag(SeeAll(s, front), Reads(front), r);
        case NothingThere => FaithfulNothing(SeeAll(s, front), Reads(front));
      }
    }
  }

  /** Over any frames of a run, the tag events say exactly what was sighted. */
  lemma RunFaithful(s: State, frames: seq<Frame>)
    ensures Faithful(OnFrames(Reset(s), frames), Reads(Sightings(frames)))
  {
    hide OnFrames, SeeAll, Reads, Epcs, Sightings, HexText.HexUpper;
    var start, sights := Reset(s), Sightings(frames);
    assert Faithful(start, []) by { FreshFaithful(start); }
    SightingsNamed(frames);
    SightingsFaithful(start, sights);
    SeeFrames(start, start, frames);
    NotesCounted(OnFrames(start, frames).events);
    NotesCounted(SeeAll(start, sights).events);
    hide Notes;
  }

  lemma {:induction false} NotesUnnumbered(events: seq<Event>)
    ensures Notes(UnnumberedAll(events)) == Notes(events)
    decreases events
  {
    if events != [] {
      var n := |events| - 1;
      NotesUnnumbered(events[..n]);
      UnnumberedAppend(events[..n], events[n]);
      assert events == events[..n] + [events[n]];
      NotesAppend(UnnumberedAll(events[..n]), Unnumbered(events[n]));
    }
  }

  /** The same for whole runs of packets, short steps and polls. */
  lemma WholeRunFaithful(s: State, inputs: seq<Input>)
    requires NormalizeConfig(s.cfg) == s.cfg
    requires forall k | 0 <= k < |inputs| && inputs[k].Delivered? :: |inputs[k].data| <= 7937
    ensures Faithful(Drained(Run(Started(Reset(s)), inputs)).state, Reads(Sightings(Parse(Bytes(inputs)).frames)))
  {
    hide NormalizeConfig, Drained, Run, Parse, OnFrames, Reads, Sightings, Notes, Describe, Distinct, Keys, UnnumberedAll;
    ResetErased(s);
    ChunkInvariance(Reset(s), inputs);
    RunFaithful(s, Parse(Bytes(inputs)).frames);
    NotesUnnumbered(Drained(Run(Started(Reset(s)), inputs)).state.events);
  }

  lemma FreshFaithful(s: State)
    requires s.events == [] && s.seen == {} && s.uniqueTags == 0 && s.lastTag == ""
    ensures Faithful(s, [])
  {
    hide HexText.HexUpper;
    var none := Epcs([]);
    assert (set e | e in none) == {};
    assert Keys(none) == {};
  }

  /** Event `k` is the first about `e` and the only one that reports it as new. */
  ghost predicate OnlyNew(notes: seq<Note>, epcs: seq<seq<byte>>, e: seq<byte>, k: nat)
    requires |notes| == |epcs|
  {
    && k < |epcs| && epcs[k] == e && e !in epcs[..k] && notes[k].isNew
    && forall j | 0 <= j < |epcs| && epcs[j] == e && notes[j].isNew :: j == k
  }

  ghost predicate NewExactlyOnce(notes: seq<Note>, epcs: seq<seq<byte>>, e: seq<byte>)
    requires |notes| == |epcs|
  {
    exists k: nat :: OnlyNew(notes, epcs, e, k)
  }

  lemma NewOnce(notes: seq<Note>, rs: seq<Read>, e: seq<byte>)
    requires Describe(notes, rs) && e in Epcs(rs)
    ensures NewExactlyOnce(notes, Epcs(rs), e)
  {
    hide HexText.HexUpper, Distinct;
    var epcs := Epcs(rs);
    var k := FirstIndex(epcs, e);
    forall j | 0 <= j < |epcs| && epcs[j] == e && notes[j].isNew
      ensures j == k
    {
      InPrefix(epcs, k, j);
      InPrefix(epcs, j, k);
    }
    assert OnlyNew(notes, epcs, e, k);
  }

  /** Each sighted EPC has exactly one new event, its first, and the reported number of
      unique tags never goes down. */
  lemma OneNewEventEach(s: State, rs: seq<Read>)
    requires Faithful(s, rs)
    ensures forall e | e in Epcs(rs) :: NewExactlyOnce(Notes(s.events), Epcs(rs), e)
    ensures forall j, k | 0 <= j <= k < |rs| :: Notes(s.events)[j].uniqueTags <= Notes(s.events)[k].uniqueTags
  {
    hide HexText.HexUpper, Notes, NewExactlyOnce, Keys, Distinct;
    var epcs := Epcs(rs);
    forall e | e in epcs
      ensures NewExactlyOnce(Notes(s.events), epcs, e)
    {
      NewOnce(Notes(s.events), rs, e);
    }
    forall j, k | 0 <= j <= k < |epcs|
      ensures Notes(s.events)[j].uniqueTags <= Notes(s.events)[k].uniqueTags
    {
      DistinctGrows(epcs, j + 1, k + 1);
    }
  }

  lemma InPrefix(epcs: seq<seq<byte>>, j: nat, k: nat)
    ensures j < k <= |epcs| ==> epcs[j] in epcs[..k]
  {
    if j < k <= |epcs| { assert epcs[..k][j] == epcs[j]; }
  }

  lemma FirstIndex(epcs: seq<seq<byte>>, e: seq<byte>) returns (k: nat)
    requires e in epcs
    ensures k < |epcs| && epcs[k] == e && e !in epcs[..k]
  {
    k := 0;
    while epcs[k] != e
      invariant k < |epcs| && e !in epcs[..k]
      decreases |epcs| - k
    {
      assert e in epcs[k + 1..];
      k := k + 1;
    }
  }

  lemma {:induction false} DistinctGrows(epcs: seq<seq<byte>>, i: nat, j: nat)
    requires i <= j <= |epcs|
    ensures Distinct(epcs[..i]) <= Distinct(epcs[..j])
    decreases j - i
  {
    if i < j {
      DistinctGrows(epcs, i, j - 1);
      assert epcs[..j] == epcs[..j - 1] + [epcs[j - 1]];
      DistinctAppend(epcs[..j - 1], epcs[j - 1]);
    }
  }
}
