/**
 The order in which the terminal client dials reader endpoints: the preferred candidate first,
 each host on its own port, the scanned ports and the well-known ones, no endpoint twice.
 */
module ConnectPlan {
  import opened EndpointKey
  import opened FirstOccurrence
  import Discovery
  import HexText

  type Candidate = Discovery.Candidate

  // ---- Candidate order ---------------------------------------------------------------

  function Range(lo: nat, hi: nat): (r: seq<nat>)
    requires lo <= hi
    ensures |r| == hi - lo && forall k | 0 <= k < |r| :: r[k] == lo + k
  {
    seq(hi - lo, k requires 0 <= k < hi - lo => lo + k)
  }

  /** The preferred index, where there is one, moved to the front. */
  function ConnectOrder(total: nat, preferred: int): seq<nat> {
    if 0 <= preferred < total then [preferred] + Range(0, preferred) + Range(preferred + 1, total)
    else Range(0, total)
  }

  /** Every index exactly once, and the preferred one first. */
  lemma OrderIsPermutation(total: nat, preferred: int)
    ensures var order := ConnectOrder(total, preferred);
            && |order| == total
            && (forall i, j | 0 <= i < j < total :: order[i] != order[j])
            && (forall i :: 0 <= i < total <==> i in order)
            && (forall k | 0 <= k < total :: order[k] < total)
            && (0 <= preferred < total ==> order[0] == preferred)
  {
    var order := ConnectOrder(total, preferred);
    forall i | 0 <= i < total
      ensures i in order
    {
      if i < preferred < total {
        assert order[i + 1] == i;
      } else if i == preferred {
        assert order[0] == i;
      } else {
        assert order[i] == i;
      }
    }
  }

  method CandidateConnectOrder(total: nat, preferred: int) returns (order: seq<nat>)
    ensures order == ConnectOrder(total, preferred)
  {
    order := [];
    if total == 0 {
      return;
    }
    var seen: set<int> := {};
    if 0 <= preferred < total {
      seen := {preferred};
      order := [preferred];
    }
    for i := 0 to total
      invariant 0 <= preferred < i ==> order == [preferred] + Range(0, preferred) + Range(preferred + 1, i)
      invariant i <= preferred < total ==> order == [preferred] + Range(0, i)
      invariant !(0 <= preferred < total) ==> order == Range(0, i)
      invariant forall k :: k in seen <==> 0 <= k < i || (k == preferred && 0 <= k < total)
    {
      if i !in seen {
        seen := seen + {i};
        order := order + [i];
      }
    }
  }

  // ---- Port order --------------------------------------------------------------------

  function Positive(ports: seq<int>): (r: seq<int>)
    ensures forall p :: p in r <==> p in ports && p > 0
    decreases |ports|
  {
    if ports == [] then []
    else
      var n := |ports| - 1;
      if ports[n] > 0 then Positive(ports[..n]) + [ports[n]] else Positive(ports[..n])
  }

  function Same(port: int): int {
    port
  }

  ghost function MergedPorts(ports: seq<int>): seq<int> {
    Firsts(Same, Positive(ports))
  }

  /** One port of the merge: kept when it is positive and new. */
  lemma MergeStep(ports: seq<int>, n: nat)
    requires n < |ports|
    ensures MergedPorts(ports[..n + 1])
         == if ports[n] > 0 && ports[n] !in ports[..n] then MergedPorts(ports[..n]) + [ports[n]]
            else MergedPorts(ports[..n])
  {
    hide Firsts, Same;
    var (before, after) := (Positive(ports[..n]), Positive(ports[..n + 1]));
    assert ports[..n + 1][..n] == ports[..n];
    if ports[n] > 0 {
      assert after[..|before|] == before && after[..|after|] == after;
      FirstsStep(Same, after, |before|);
      SeenMember(before, ports[n]);
    }
  }

  lemma SeenMember(ports: seq<int>, port: int)
    ensures Seen(Same, ports, Same(port)) <==> port in ports
    ensures Same(port) == port
  {
  }

  method MergePortOrder(primary: seq<int>, fallback: seq<int>) returns (out: seq<int>)
    ensures out == MergedPorts(primary + fallback)
  {
    hide MergedPorts;
    var seen: set<int>;
    NoPorts();
    out, seen := AppendPorts([], {}, [], primary);
    assert [] + primary == primary;
    out, seen := AppendPorts(out, seen, primary, fallback);
  }

  lemma NoPorts()
    ensures MergedPorts([]) == []
  {
  }

  /** One of the two loops of the merge, after the ports `before` went through. */
  method AppendPorts(start: seq<int>, seenBefore: set<int>, ghost before: seq<int>, ports: seq<int>)
    returns (out: seq<int>, seen: set<int>)
    requires start == MergedPorts(before) && forall p :: p in seenBefore <==> p in before && p > 0
    ensures out == MergedPorts(before + ports) && forall p :: p in seen <==> p in before + ports && p > 0
  {
    hide MergedPorts;
    out, seen := start, seenBefore;
    ghost var all := before + ports;
    assert all[..|before|] == before;
    for i := 0 to |ports|
      invariant out == MergedPorts(all[..|before| + i])
      invariant forall p :: p in seen <==> p in all[..|before| + i] && p > 0
    {
      var port := ports[i];
      MergeStep(all, |before| + i);
      assert all[..|before| + i + 1] == all[..|before| + i] + [port];
      if port > 0 && port !in seen {
        seen := seen + {port};
        out := out + [port];
      }
    }
    assert all[..|before| + |ports|] == all;
  }

  // ---- The plan ----------------------------------------------------------------------

  function Fallback(): seq<int> {
    [2022, 5000, 27011, 6000, 4001, 10001]
  }

  predicate IsBlank(host: string) {
    HexText.TrimSpace(host) == ""
  }

  function At(host: string, ports: seq<int>): (endpoints: seq<Endpoint>)
    ensures |endpoints| == |ports| && forall k | 0 <= k < |ports| :: endpoints[k] == Endpoint(host, ports[k])
  {
    seq(|ports|, k requires 0 <= k < |ports| => Endpoint(host, ports[k]))
  }

  function PortsOf(c: Candidate, scanPorts: seq<int>): seq<int> {
    [c.endpoint.port] + scanPorts + Fallback()
  }

  /** All valid endpoints one candidate asks for, repetitions included. */
  function Wished(c: Candidate, scanPorts: seq<int>): seq<Endpoint> {
    if IsBlank(c.endpoint.host) then [] else At(c.endpoint.host, Positive(PortsOf(c, scanPorts)))
  }

  function Wishes(candidates: seq<Candidate>, order: seq<nat>, scanPorts: seq<int>): seq<Endpoint>
    requires forall k | 0 <= k < |order| :: order[k] < |candidates|
    decreases |order|
  {
    if order == [] then []
    else
      var n := |order| - 1;
      Wishes(candidates, order[..n], scanPorts) + Wished(candidates[order[n]], scanPorts)
  }

  /** The wishes of the candidates in connect order, each endpoint the first time only. */
  ghost function Plan(candidates: seq<Candidate>, preferred: int, scanPorts: seq<int>): seq<Endpoint> {
    OrderIsPermutation(|candidates|, preferred);
    Firsts(Address, Wishes(candidates, ConnectOrder(|candidates|, preferred), scanPorts))
  }

  /** Ports are deduplicated twice, per host and in the plan; the inner pass changes nothing. */
  lemma {:induction false} InnerDedup(before: seq<Endpoint>, host: string, ports: seq<int>)
    ensures Firsts(Address, before + At(host, Firsts(Same, ports))) == Firsts(Address, before + At(host, ports))
    decreases |ports|
  {
    if ports != [] {
      var n := |ports| - 1;
      var (some, port) := (ports[..n], ports[n]);
      assert ports == some + [port];
      InnerDedup(before, host, some);
      hide Address, Firsts, Seen, At, Same;
      var (kept, all) := (before + At(host, Firsts(Same, some)), before + At(host, some));
      var e := Endpoint(host, port);
      OneMorePort(before, host, some, port);
      FirstsLast(Address, all, e);
      FirstsLast(Same, some, port);
      OneMorePort(before, host, Firsts(Same, some), port);
      FirstsLast(Address, kept, e);
      SameSeen(before, host, some, Address(e));
    }
  }

  lemma OneMorePort(before: seq<Endpoint>, host: string, ports: seq<int>, port: int)
    ensures before + At(host, ports + [port]) == before + At(host, ports) + [Endpoint(host, port)]
    ensures Seen(Same, ports, Same(port)) ==> Seen(Address, before + At(host, ports), Address(Endpoint(host, port)))
  {
    hide Address;
    if Seen(Same, ports, Same(port)) {
      var k :| 0 <= k < |ports| && ports[k] == port;
      assert (before + At(host, ports))[|before| + k] == Endpoint(host, port);
    }
  }

  lemma SameSeen(before: seq<Endpoint>, host: string, ports: seq<int>, key: string)
    ensures Seen(Address, before + At(host, Firsts(Same, ports)), key) <==> Seen(Address, before + At(host, ports), key)
  {
    hide Address, Firsts;
    var kept := Firsts(Same, ports);
    var (a, b) := (before + At(host, kept), before + At(host, ports));
    FirstsExact(Same, ports);
    if Seen(Address, a, key) {
      var i :| 0 <= i < |a| && Address(a[i]) == key;
      if i >= |before| {
        assert kept[i - |before|] in kept;
        var k :| 0 <= k < |ports| && ports[k] == kept[i - |before|];
        assert b[|before| + k] == a[i];
      } else {
        assert b[i] == a[i];
      }
    }
    if Seen(Address, b, key) {
      var i :| 0 <= i < |b| && Address(b[i]) == key;
      if i >= |before| {
        assert ports[i - |before|] in ports;
        var k :| 0 <= k < |kept| && Same(kept[k]) == Same(ports[i - |before|]);
        assert a[|before| + k] == b[i];
      } else {
        assert a[i] == b[i];
      }
    }
  }

  /** `plan` and `seen` are what the builder holds once the wishes `done` went through it. */
  ghost predicate Holds(plan: seq<Endpoint>, seen: set<string>, done: seq<Endpoint>) {
    plan == Firsts(Address, done) && forall k :: k in seen <==> Seen(Address, done, k)
  }

  method AddEndpoint(plan: seq<Endpoint>, seen: set<string>, host: string, port: int, ghost done: seq<Endpoint>)
    returns (longer: seq<Endpoint>, marked: set<string>)
    requires Holds(plan, seen, done)
    ensures IsBlank(host) || port <= 0 ==> longer == plan && marked == seen
    ensures !IsBlank(host) && port > 0 ==> Holds(longer, marked, done + [Endpoint(host, port)])
  {
    hide Address, Seen, Firsts, IsBlank;
    longer, marked := plan, seen;
    if IsBlank(host) || port <= 0 {
      return;
    }
    var e := Endpoint(host, port);
    FirstsLast(Address, done, e);
    SeenLast(Address, done, e);
    if Address(e) in seen {
      return;
    }
    marked := seen + {Address(e)};
    longer := plan + [e];
  }

  /** The inner loop of the builder: one candidate's merged ports. */
  method AddPorts(plan: seq<Endpoint>, seen: set<string>, c: Candidate, scanPorts: seq<int>, ghost done: seq<Endpoint>)
    returns (longer: seq<Endpoint>, marked: set<string>)
    requires Holds(plan, seen, done)
    ensures Holds(longer, marked, done + Wished(c, scanPorts))
  {
    hide Address, Seen, Firsts, IsBlank, Holds, Positive;
    var host := c.endpoint.host;
    longer, marked := plan, seen;
    var ports := MergePortOrder([c.endpoint.port] + scanPorts, Fallback());
    ghost var wanted := Positive(PortsOf(c, scanPorts));
    FirstsExact(Same, wanted);
    assert done + At(host, ports[..0]) == done;
    for i := 0 to |ports|
      invariant IsBlank(host) ==> longer == plan && marked == seen
      invariant !IsBlank(host) ==> Holds(longer, marked, done + At(host, ports[..i]))
    {
      assert ports[i] in ports;
      longer, marked := AddEndpoint(longer, marked, host, ports[i], if IsBlank(host) then done else done + At(host, ports[..i]));
      assert ports[..i + 1] == ports[..i] + [ports[i]];
      OneMorePort(done, host, ports[..i], ports[i]);
    }
    assert ports[..|ports|] == ports && done + [] == done;
    HoldsInner(longer, marked, done, host, wanted);
  }

  lemma HoldsInner(plan: seq<Endpoint>, seen: set<string>, done: seq<Endpoint>, host: string, ports: seq<int>)
    ensures Holds(plan, seen, done + At(host, Firsts(Same, ports))) <==> Holds(plan, seen, done + At(host, ports))
  {
    hide Address, Seen, Firsts;
    InnerDedup(done, host, ports);
    forall key
      ensures Seen(Address, done + At(host, Firsts(Same, ports)), key) <==> Seen(Address, done + At(host, ports), key)
    {
      SameSeen(done, host, ports, key);
    }
  }

  method BuildConnectPlan(candidates: seq<Candidate>, preferredIndex: int, scanPorts: seq<int>)
    returns (plan: seq<Endpoint>)
    ensures plan == Plan(candidates, preferredIndex, scanPorts)
  {
    hide Firsts, Seen, Wished, ConnectOrder, Address;
    OrderIsPermutation(|candidates|, preferredIndex);
    NothingSeen(Address, []);
    if |candidates| == 0 {
      return [];
    }
    var indexOrder := CandidateConnectOrder(|candidates|, preferredIndex);
    plan := [];
    var seen: set<string> := {};
    for i := 0 to |indexOrder|
      invariant Holds(plan, seen, Wishes(candidates, indexOrder[..i], scanPorts))
    {
      plan, seen := AddPorts(plan, seen, candidates[indexOrder[i]], scanPorts, Wishes(candidates, indexOrder[..i], scanPorts));
      assert indexOrder[..i + 1][..i] == indexOrder[..i];
    }
    assert indexOrder[..|indexOrder|] == indexOrder;
  }

  /** Candidate `c` has endpoint `e` among its valid ones. */
  predicate Asks(c: Candidate, e: Endpoint, scanPorts: seq<int>) {
    e.host == c.endpoint.host && !IsBlank(e.host) && e.port > 0
    && (e.port == c.endpoint.port || e.port in scanPorts || e.port in Fallback())
  }

  lemma WishedExact(c: Candidate, scanPorts: seq<int>, e: Endpoint)
    ensures e in Wished(c, scanPorts) <==> Asks(c, e, scanPorts)
  {
    hide IsBlank, Positive, Fallback;
    var ports := Positive(PortsOf(c, scanPorts));
    assert e.port in [c.endpoint.port] + scanPorts + Fallback()
      <==> e.port == c.endpoint.port || e.port in scanPorts || e.port in Fallback();
    if Asks(c, e, scanPorts) {
      assert e.port in ports;
      var k :| 0 <= k < |ports| && ports[k] == e.port;
      assert At(c.endpoint.host, ports)[k] == e;
    }
  }

  lemma {:induction false} WishesExact(candidates: seq<Candidate>, order: seq<nat>, scanPorts: seq<int>, e: Endpoint)
    requires forall k | 0 <= k < |order| :: order[k] < |candidates|
    ensures e in Wishes(candidates, order, scanPorts)
        <==> exists i: nat | i in order && i < |candidates| :: Asks(candidates[i], e, scanPorts)
    decreases |order|
  {
    hide Asks, Wished;
    if order != [] {
      var n := |order| - 1;
      WishesExact(candidates, order[..n], scanPorts, e);
      WishedExact(candidates[order[n]], scanPorts, e);
      assert forall i: nat :: i in order <==> i in order[..n] || i == order[n];
    }
  }

  /** No endpoint twice, and exactly the valid ones of some candidate. */
  lemma PlanExact(candidates: seq<Candidate>, preferred: int, scanPorts: seq<int>)
    ensures var plan := Plan(candidates, preferred, scanPorts);
            forall a, b | 0 <= a < b < |plan| :: plan[a] != plan[b]
    ensures forall e :: e in Plan(candidates, preferred, scanPorts)
                   <==> exists c | c in candidates :: Asks(c, e, scanPorts)
  {
    hide Firsts, Address, ConnectOrder, Wishes, Asks;
    OrderIsPermutation(|candidates|, preferred);
    var order := ConnectOrder(|candidates|, preferred);
    var wishes := Wishes(candidates, order, scanPorts);
    var plan := Plan(candidates, preferred, scanPorts);
    FirstsExact(Address, wishes);
    assert plan == Firsts(Address, wishes);
    DistinctKeys(Address, Firsts(Address, wishes));
    forall e
      ensures e in plan <==> exists c | c in candidates :: Asks(c, e, scanPorts)
    {
      WishesExact(candidates, order, scanPorts, e);
      if e in wishes {
        var a :| 0 <= a < |plan| && Address(plan[a]) == Address(e);
        AddressInjective(plan[a], e);
      }
      if c :| c in candidates && Asks(c, e, scanPorts) {
        var i: nat :| i < |candidates| && candidates[i] == c;
        assert i in order;
      }
    }
  }

  /** There is nothing to dial only where every host is blank. */
  lemma EmptyPlan(candidates: seq<Candidate>, preferred: int, scanPorts: seq<int>)
    ensures Plan(candidates, preferred, scanPorts) == [] <==> forall c | c in candidates :: IsBlank(c.endpoint.host)
  {
    hide Plan, IsBlank;
    PlanExact(candidates, preferred, scanPorts);
    HeadIn(Plan(candidates, preferred, scanPorts));
    forall c | c in candidates && !IsBlank(c.endpoint.host)
      ensures Plan(candidates, preferred, scanPorts) != []
    {
      var e := Endpoint(c.endpoint.host, 2022);
      assert Asks(c, e, scanPorts);
      assert e in Plan(candidates, preferred, scanPorts);
    }
  }

  lemma {:induction false} FirstStays<T, K>(key: T -> K, xs: seq<T>)
    requires xs != []
    ensures Firsts(key, xs) != [] && Firsts(key, xs)[0] == xs[0]
    decreases |xs|
  {
    var n := |xs| - 1;
    if n > 0 {
      FirstStays(key, xs[..n]);
    }
  }

  lemma {:induction false} PositiveHead(ports: seq<int>)
    requires ports != [] && ports[0] > 0
    ensures Positive(ports) != [] && Positive(ports)[0] == ports[0]
    decreases |ports|
  {
    var n := |ports| - 1;
    if n > 0 {
      PositiveHead(ports[..n]);
    }
  }

  lemma {:induction false} WishesHead(candidates: seq<Candidate>, order: seq<nat>, scanPorts: seq<int>)
    requires order != [] && forall k | 0 <= k < |order| :: order[k] < |candidates|
    requires Wished(candidates[order[0]], scanPorts) != []
    ensures Wishes(candidates, order, scanPorts) != []
    ensures Wishes(candidates, order, scanPorts)[0] == Wished(candidates[order[0]], scanPorts)[0]
    decreases |order|
  {
    hide Wished;
    var n := |order| - 1;
    if n > 0 {
      WishesHead(candidates, order[..n], scanPorts);
    } else {
      assert order[..0] == [];
    }
  }

  /** The preferred candidate's own endpoint is dialled first. */
  lemma PreferredDialledFirst(candidates: seq<Candidate>, preferred: nat, scanPorts: seq<int>)
    requires preferred < |candidates|
    requires var e := candidates[preferred].endpoint; !IsBlank(e.host) && e.port > 0
    ensures var plan := Plan(candidates, preferred, scanPorts);
            plan != [] && plan[0] == candidates[preferred].endpoint
  {
    hide Firsts, Address, ConnectOrder, Wishes, Positive, IsBlank;
    OrderIsPermutation(|candidates|, preferred);
    var order := ConnectOrder(|candidates|, preferred);
    PositiveHead(PortsOf(candidates[preferred], scanPorts));
    WishesHead(candidates, order, scanPorts);
    FirstStays(Address, Wishes(candidates, order, scanPorts));
  }

  // ---- The order of the plan ---------------------------------------------------------

  lemma {:induction false} FirstsGrow<T, K>(key: T -> K, xs: seq<T>, ys: seq<T>)
    ensures Firsts(key, xs) <= Firsts(key, xs + ys)
    decreases |ys|
  {
    if ys == [] {
      assert xs + ys == xs;
    } else {
      var n := |ys| - 1;
      FirstsGrow(key, xs, ys[..n]);
      assert xs + ys == (xs + ys[..n]) + [ys[n]];
      FirstsLast(key, xs + ys[..n], ys[n]);
    }
  }

  /** What is wished for depends only on the candidates in their order. */
  lemma {:induction false} SameWishes(cs: seq<Candidate>, order: seq<nat>, ds: seq<Candidate>, other: seq<nat>,
                                      scanPorts: seq<int>)
    requires |order| == |other|
    requires forall k | 0 <= k < |order| :: order[k] < |cs| && other[k] < |ds| && cs[order[k]] == ds[other[k]]
    ensures Wishes(cs, order, scanPorts) == Wishes(ds, other, scanPorts)
    decreases |order|
  {
    hide Wished;
    if order != [] {
      SameWishes(cs, order[..|order| - 1], ds, other[..|other| - 1], scanPorts);
    }
  }

  lemma {:induction false} WishesGrow(cs: seq<Candidate>, order: seq<nat>, more: seq<nat>, scanPorts: seq<int>)
    requires forall k | 0 <= k < |order| :: order[k] < |cs|
    requires forall k | 0 <= k < |more| :: more[k] < |cs|
    ensures Wishes(cs, order, scanPorts) <= Wishes(cs, order + more, scanPorts)
    decreases |more|
  {
    hide Wished;
    if more == [] {
      assert order + more == order;
    } else {
      var n := |more| - 1;
      WishesGrow(cs, order, more[..n], scanPorts);
      assert (order + more)[..|order| + n] == order + more[..n];
    }
  }

  /** Candidates are dialled in their order: later ones only add endpoints at the end. */
  lemma PlanGrows(cs: seq<Candidate>, more: seq<Candidate>, scanPorts: seq<int>)
    ensures Plan(cs, -1, scanPorts) <= Plan(cs + more, -1, scanPorts)
  {
    hide Firsts, Wishes, Address;
    var (n, total) := (|cs|, |cs + more|);
    var (some, all) := (Wishes(cs, Range(0, n), scanPorts), Wishes(cs + more, Range(0, total), scanPorts));
    SameWishes(cs, Range(0, n), cs + more, Range(0, n), scanPorts);
    WishesGrow(cs + more, Range(0, n), Range(n, total), scanPorts);
    assert Range(0, total) == Range(0, n) + Range(n, total);
    assert all == some + all[|some|..];
    FirstsGrow(Address, some, all[|some|..]);
  }

  /** A preferred candidate is dialled as if it stood in front of the others. */
  lemma PreferredInFront(cs: seq<Candidate>, preferred: nat, scanPorts: seq<int>)
    requires preferred < |cs|
    ensures Plan(cs, preferred, scanPorts)
         == Plan([cs[preferred]] + cs[..preferred] + cs[preferred + 1..], -1, scanPorts)
  {
    hide Firsts, Wishes, Address;
    var moved := [cs[preferred]] + cs[..preferred] + cs[preferred + 1..];
    OrderIsPermutation(|cs|, preferred);
    SameWishes(cs, ConnectOrder(|cs|, preferred), moved, Range(0, |moved|), scanPorts);
  }

  /** `kept` are the positive ports, and `places` says where they stand. */
  ghost predicate KeepsPositive(ports: seq<int>, kept: seq<int>, places: seq<nat>) {
    && |places| == |kept| && Ascending(places)
    && (forall k | 0 <= k < |places| :: places[k] < |ports| && kept[k] == ports[places[k]] > 0)
    && forall i: nat | i < |ports| && ports[i] > 0 :: i in places
  }

  lemma AscendingAppend(places: seq<nat>, n: nat)
    requires Ascending(places) && forall k | 0 <= k < |places| :: places[k] < n
    ensures Ascending(places + [n])
  {
  }

  lemma OneMorePositive(ports: seq<int>, port: int, kept: seq<int>, places: seq<nat>)
    requires KeepsPositive(ports, kept, places)
    ensures if port > 0 then KeepsPositive(ports + [port], kept + [port], places + [|ports|])
            else KeepsPositive(ports + [port], kept, places)
  {
    var (more, longer) := (ports + [port], if port > 0 then places + [|ports|] else places);
    AscendingAppend(places, |ports|);
    hide Ascending;
    forall i: nat | i < |more| && more[i] > 0
      ensures i in longer
    {
      assert i < |ports| ==> ports[i] == more[i] && i in places;
    }
  }

  lemma {:induction false} PositivePlaces(ports: seq<int>) returns (places: seq<nat>)
    ensures KeepsPositive(ports, Positive(ports), places)
    decreases |ports|
  {
    places := [];
    if ports != [] {
      var n := |ports| - 1;
      places := PositivePlaces(ports[..n]);
      OneMorePositive(ports[..n], ports[n], Positive(ports[..n]), places);
      assert ports == ports[..n] + [ports[n]];
      hide KeepsPositive;
      if ports[n] > 0 {
        places := places + [n];
      }
    }
  }

  /** `places[a]` is the first place of port `plan[a]` in the list, and the places ascend. */
  ghost predicate InOrderOf(plan: seq<Endpoint>, host: string, ports: seq<int>, places: seq<nat>) {
    && |places| == |plan| && Ascending(places)
    && forall a | 0 <= a < |plan| ::
         && places[a] < |ports| && plan[a] == Endpoint(host, ports[places[a]])
         && plan[a].port !in ports[..places[a]]
  }

  lemma ComposedPlaces(host: string, ports: seq<int>, kept: seq<int>, inner: seq<nat>, plan: seq<Endpoint>,
                       firsts: seq<nat>) returns (places: seq<nat>)
    requires KeepsPositive(ports, kept, inner) && KeepsFirsts(Address, At(host, kept), plan, firsts)
    ensures InOrderOf(plan, host, ports, places)
  {
    hide Address;
    places := seq(|firsts|, a requires 0 <= a < |firsts| => inner[firsts[a]]);
    forall a | 0 <= a < |plan|
      ensures plan[a].port !in ports[..places[a]]
    {
      var k := firsts[a];
      assert k in firsts;
      forall j | 0 <= j < k
        ensures kept[j] != kept[k]
      {
        assert Address(At(host, kept)[j]) != Address(At(host, kept)[k]);
      }
      FirstPlace(ports, kept, inner, k);
    }
  }

  lemma NotFirst(ports: seq<int>, kept: seq<int>, inner: seq<nat>, k: nat)
    requires KeepsPositive(ports, kept, inner) && k < |kept| && kept[k] in ports[..inner[k]]
    ensures exists j :: 0 <= j < k && kept[j] == kept[k]
  {
    var i: nat :| i < inner[k] && ports[i] == kept[k];
    assert i in inner;
    var j :| 0 <= j < |inner| && inner[j] == i;
    assert kept[j] == kept[k];
  }

  lemma FirstPlace(ports: seq<int>, kept: seq<int>, inner: seq<nat>, k: nat)
    requires KeepsPositive(ports, kept, inner) && k < |kept| && forall j | 0 <= j < k :: kept[j] != kept[k]
    ensures kept[k] !in ports[..inner[k]]
  {
    if kept[k] in ports[..inner[k]] {
      NotFirst(ports, kept, inner, k);
    }
  }

  /** The endpoints of one host: its own port, then the scanned ones, then the well-known ones, each
      where it stands first in that list. */
  lemma PortsInOrder(c: Candidate, scanPorts: seq<int>) returns (places: seq<nat>)
    requires !IsBlank(c.endpoint.host)
    ensures InOrderOf(Plan([c], -1, scanPorts), c.endpoint.host,
                      [c.endpoint.port] + scanPorts + [2022, 5000, 27011, 6000, 4001, 10001], places)
  {
    hide Firsts, Positive, IsBlank, KeepsPositive, InOrderOf, Address;
    var host, ports := c.endpoint.host, PortsOf(c, scanPorts);
    OneWish(c, scanPorts);
    var inner := PositivePlaces(ports);
    var firsts := FirstsKeepsFirsts(Address, At(host, Positive(ports)));
    places := ComposedPlaces(host, ports, Positive(ports), inner, Plan([c], -1, scanPorts), firsts);
  }

  lemma OneWish(c: Candidate, scanPorts: seq<int>)
    requires !IsBlank(c.endpoint.host)
    ensures Plan([c], -1, scanPorts) == Firsts(Address, At(c.endpoint.host, Positive(PortsOf(c, scanPorts))))
  {
    hide Firsts, Positive, IsBlank, Address;
    assert Range(0, 1) == [0];
    assert [0][..0] == [];
    assert Wishes([c], [], scanPorts) == [];
    assert Wishes([c], [0], scanPorts) == [] + Wished(c, scanPorts);
    assert ConnectOrder(1, -1) == [0];
    assert [] + Wished(c, scanPorts) == At(c.endpoint.host, Positive(PortsOf(c, scanPorts)));
  }
}
