/** The set of open draft EPCs that the submit pipeline consults. */
module CacheStore {

  type EPC = string

  /** The usable entries of a list: an empty EPC is never stored. */
  function Entries(epcs: seq<EPC>): set<EPC> {
    set e | e in epcs && e != ""
  }

  lemma EntriesStep(list: seq<EPC>, k: nat)
    requires k < |list|
    ensures Entries(list[..k + 1]) == if list[k] == "" then Entries(list[..k]) else Entries(list[..k]) + {list[k]}
  {
    assert list[..k + 1] == list[..k] + [list[k]];
  }

  lemma NoEntries(list: seq<EPC>)
    ensures Entries(list[..0]) == {}
  {
  }

  class Store {
    var epcs: set<EPC>

    predicate Valid()
      reads this
    {
      "" !in epcs
    }

    constructor ()
      ensures Valid() && epcs == {}
    {
      epcs := {};
    }

    method Replace(list: seq<EPC>)
      modifies this
      ensures Valid() && epcs == Entries(list)
    {
      var next: set<EPC> := {};
      for k := 0 to |list|
        invariant next == Entries(list[..k])
      {
        assert list[..k + 1] == list[..k] + [list[k]];
        if list[k] == "" {
          continue;
        }
        next := next + {list[k]};
      }
      assert list[..|list|] == list;
      epcs := next;
    }

    /** Adds the entries and reports how many were not there before. */
    method Add(list: seq<EPC>) returns (added: nat)
      requires Valid()
      modifies this
      ensures Valid() && epcs == old(epcs) + Entries(list)
      ensures added == |Entries(list) - old(epcs)|
    {
      hide Entries;
      NoEntries(list);
      added := 0;
      for k := 0 to |list|
        invariant Valid() && epcs == old(epcs) + Entries(list[..k])
        invariant added == |Entries(list[..k]) - old(epcs)|
      {
        EntriesStep(list, k);
        if list[k] == "" {
          continue;
        }
        if list[k] in epcs {
          assert Entries(list[..k + 1]) - old(epcs) == Entries(list[..k]) - old(epcs);
          continue;
        }
        assert Entries(list[..k + 1]) - old(epcs) == (Entries(list[..k]) - old(epcs)) + {list[k]};
        epcs := epcs + {list[k]};
        added := added + 1;
      }
      assert list[..|list|] == list;
    }

    method Remove(epc: EPC)
      requires Valid()
      modifies this
      ensures Valid() && epcs == old(epcs) - {epc}
    {
      if epc == "" {
        return;
      }
      epcs := epcs - {epc};
    }

    method Has(epc: EPC) returns (present: bool)
      requires Valid()
      ensures present == (epc in epcs)
    {
      if epc == "" {
        return false;
      }
      present := epc in epcs;
    }

    method Size() returns (size: nat)
      ensures size == |epcs|
    {
      size := |epcs|;
    }
  }
}
