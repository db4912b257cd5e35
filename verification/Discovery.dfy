/**
 The LAN scan: scoring of one probed target, removal of repeated results and ranking.
 Probes run concurrently, so the list of results is one arrival order of many.
 */
module Discovery {
  import opened Wrappers
  import opened EndpointKey
  import opened FirstOccurrence
  import HexText

  /** What the probes of one open port found out. */
  datatype Probe =
    | Answered(address: byte, name: string)
    | Silent(text: string)

  datatype Candidate = Candidate(
    endpoint: Endpoint, score: int, banner: string, reason: string, verified: bool, readerAddress: byte,
    protocol: string)

  // ---- Scoring -----------------------------------------------------------------------

  function Keywords(): seq<string> {
    ["rfid", "uhf", "reader", "impinj", "epc", "e710"]
  }

  function PortScore(port: int): int {
    if port in {2022, 27011, 4001, 5000, 6000, 7000, 10001} then 55
    else if port == 23 then 30
    else if port in {80, 443, 8080} then 20
    else 10
  }

  predicate Contains(text: string, word: string) {
    exists k | 0 <= k <= |text| :: word <= text[k..]
  }

  function Lower(text: string): string {
    HexText.MapChars(HexText.ToLower, text)
  }

  /** The keywords a banner mentions, in any case. */
  ghost function Mentioned(banner: string): set<string> {
    set word | word in {"rfid", "uhf", "reader", "impinj", "epc", "e710"} && Contains(Lower(banner), word)
  }

  method KeywordScore(banner: string) returns (score: int)
    ensures score == 18 * |Mentioned(banner)|
  {
    hide Contains, Keywords, Lower;
    var text := Lower(banner);
    var keywords := Keywords();
    score := 0;
    ghost var found: set<string> := {};
    for i := 0 to |keywords|
      invariant found == set word | word in keywords[..i] && Contains(text, word)
      invariant score == 18 * |found|
    {
      KeywordsDiffer();
      assert keywords[i] !in keywords[..i];
      assert keywords[..i + 1] == keywords[..i] + [keywords[i]];
      if Contains(text, keywords[i]) {
        score := score + 18;
        found := found + {keywords[i]};
      }
    }
    assert keywords[..|keywords|] == keywords;
    KeywordSet();
    assert found == Mentioned(banner);
  }

  lemma KeywordSet()
    ensures forall word :: word in Keywords() <==> word in {"rfid", "uhf", "reader", "impinj", "epc", "e710"}
  {
  }

  lemma KeywordsDiffer()
    ensures |Keywords()| == 6
    ensures forall i, j | 0 <= j < i < |Keywords()| :: Keywords()[i] != Keywords()[j]
  {
    var w := Keywords();
    assert |w[0]| == 4 && |w[1]| == 3 && |w[2]| == 6 && |w[3]| == 6 && |w[4]| == 3 && |w[5]| == 4;
    assert w[0][0] != w[5][0] && w[1][0] != w[4][0] && w[2][0] != w[3][0];
  }

  /** The score of a candidate, from its port, verification and banner alone. */
  ghost predicate Probed(c: Candidate) {
    c.score == PortScore(c.endpoint.port) + if c.verified then 160 else 18 * |Mentioned(c.banner)|
  }

  /** The candidate that probing `endpoint` with this finding gives, in every field. */
  ghost predicate IsAnswer(c: Candidate, endpoint: Endpoint, probe: Probe) {
    && Probed(c) && c.endpoint == endpoint && c.verified == probe.Answered?
    && (c.verified ==>
          && c.readerAddress == probe.address && c.protocol == "reader18/" + probe.name && c.banner == ""
          && c.reason == "reader protocol: " + c.protocol + " addr=0x" + HexText.HexUpper([c.readerAddress]))
    && (!c.verified ==>
          && c.readerAddress == 0 && c.protocol == "" && c.banner == probe.text
          && c.reason == if c.banner == "" then "open tcp port" else "banner matched")
  }

  /** Probes one target; there is no candidate where no connection could be made. */
  method ProbeTarget(endpoint: Endpoint, probe: Option<Probe>) returns (found: Option<Candidate>)
    ensures found.Some? <==> probe.Some?
    ensures found.Some? ==> IsAnswer(found.value, endpoint, probe.value)
  {
    hide HexText.HexUpper, PortScore;
    if probe.None? {
      return None;
    }
    var score := PortScore(endpoint.port);
    var banner := "";
    var reason := "open tcp port";
    match probe.value
    case Answered(address, name) =>
      score := score + 160;
      reason := "reader protocol: " + ("reader18/" + name) + " addr=0x" + HexText.HexUpper([address]);
      found := Some(Candidate(endpoint, score, banner, reason, true, address, "reader18/" + name));
    case Silent(text) =>
      banner := text;
      if banner != "" {
        var words := KeywordScore(banner);
        score := score + words;
        reason := "banner matched";
      } else {
        NothingMentioned();
      }
      found := Some(Candidate(endpoint, score, banner, reason, false, 0, ""));
  }

  lemma NothingMentioned()
    ensures Mentioned("") == {}
  {
    assert Lower("") == "";
    assert forall word | word in {"rfid", "uhf", "reader", "impinj", "epc", "e710"} :: |word| > 0;
  }

  /** At most six keywords: a verified candidate scores above every unverified one. */
  lemma ScoreTiers(c: Candidate)
    requires Probed(c)
    ensures if c.verified then 170 <= c.score <= 215 else 10 <= c.score <= 163
  {
    var all := {"rfid", "uhf", "reader", "impinj", "epc", "e710"};
    assert Mentioned(c.banner) <= all;
    SubsetSize(Mentioned(c.banner), all);
  }

  lemma {:induction false} SubsetSize<T>(a: set<T>, b: set<T>)
    requires a <= b
    ensures |a| <= |b|
  {
    assert b == a + (b - a);
  }

  /** How a port counts: the readers' own ports, then 23, then those of web servers, then any other. */
  function PortClass(port: int): (rank: nat)
    ensures rank < 4
  {
    if port in {2022, 4001, 5000, 6000, 7000, 10001, 27011} then 0
    else if port == 23 then 1
    else if port in {80, 443, 8080} then 2
    else 3
  }

  /** With the same findings a port of a better class comes before any other; a score depends on the
      port's class and the findings alone. */
  lemma PortsRank(c: Candidate, d: Candidate)
    requires Probed(c) && Probed(d) && c.verified == d.verified
    requires |Mentioned(c.banner)| == |Mentioned(d.banner)|
    ensures PortClass(c.endpoint.port) < PortClass(d.endpoint.port) ==> Before(c, d)
    ensures c.score == [55, 30, 20, 10][PortClass(c.endpoint.port)] + if c.verified then 160 else 18 * |Mentioned(c.banner)|
  {
    hide Mentioned;
  }

  // ---- Ranking -----------------------------------------------------------------------

  predicate HostBefore(a: string, b: string)
    decreases |a|
  {
    b != [] && (a == [] || a[0] < b[0] || (a[0] == b[0] && HostBefore(a[1..], b[1..])))
  }

  /** The comparator: higher score first, then host, then port. */
  predicate Before(a: Candidate, b: Candidate) {
    if a.score != b.score then a.score > b.score
    else if a.endpoint.host != b.endpoint.host then HostBefore(a.endpoint.host, b.endpoint.host)
    else a.endpoint.port < b.endpoint.port
  }

  lemma {:induction false} HostOrder(a: string, b: string)
    ensures a != b <==> HostBefore(a, b) || HostBefore(b, a)
    ensures !(HostBefore(a, b) && HostBefore(b, a))
    decreases |a|
  {
    if a != [] && b != [] {
      HostOrder(a[1..], b[1..]);
      assert a == [a[0]] + a[1..] && b == [b[0]] + b[1..];
    }
  }

  lemma {:induction false} HostTransitive(a: string, b: string, c: string)
    requires HostBefore(a, b) && HostBefore(b, c)
    ensures HostBefore(a, c)
    decreases |a|
  {
    if a != [] && a[0] == b[0] && b[0] == c[0] {
      HostTransitive(a[1..], b[1..], c[1..]);
    }
  }

  /** The comparator never holds both ways and leaves only same-scored equal endpoints unordered. */
  lemma BeforeOrder(a: Candidate, b: Candidate)
    ensures !(Before(a, b) && Before(b, a))
    ensures a.endpoint != b.endpoint ==> Before(a, b) || Before(b, a)
    ensures Before(a, b) ==> a != b
  {
    HostOrder(a.endpoint.host, b.endpoint.host);
  }

  lemma BeforeTransitive(a: Candidate, b: Candidate, c: Candidate)
    requires Before(a, b) && Before(b, c)
    ensures Before(a, c)
  {
    HostOrder(a.endpoint.host, b.endpoint.host);
    HostOrder(b.endpoint.host, c.endpoint.host);
    HostOrder(a.endpoint.host, c.endpoint.host);
    if a.endpoint.host != b.endpoint.host && b.endpoint.host != c.endpoint.host
      && HostBefore(a.endpoint.host, b.endpoint.host) && HostBefore(b.endpoint.host, c.endpoint.host) {
      HostTransitive(a.endpoint.host, b.endpoint.host, c.endpoint.host);
    }
  }

  /** What a sort by the comparator delivers, whatever its algorithm. */
  ghost predicate Sorted(s: seq<Candidate>) {
    forall i, j | 0 <= i < j < |s| :: !Before(s[j], s[i])
  }

  ghost predicate RankingOf(ranked: seq<Candidate>, s: seq<Candidate>) {
    Sorted(ranked) && multiset(ranked) == multiset(s)
  }

  ghost predicate DistinctEndpoints(s: seq<Candidate>) {
    forall i, j | 0 <= i < j < |s| :: s[i].endpoint != s[j].endpoint
  }

  function Insert(c: Candidate, ranked: seq<Candidate>): (r: seq<Candidate>)
    ensures multiset(r) == multiset([c] + ranked)
    decreases |ranked|
  {
    if ranked == [] || Before(c, ranked[0]) then [c] + ranked
    else
      assert ranked == [ranked[0]] + ranked[1..];
      [ranked[0]] + Insert(c, ranked[1..])
  }

  function Rank(s: seq<Candidate>): (r: seq<Candidate>)
    ensures multiset(r) == multiset(s)
    decreases |s|
  {
    if s == [] then []
    else
      assert s == [s[0]] + s[1..];
      Insert(s[0], Rank(s[1..]))
  }

  lemma {:induction false} InsertSorted(c: Candidate, ranked: seq<Candidate>)
    requires Sorted(ranked)
    ensures Sorted(Insert(c, ranked))
    decreases |ranked|
  {
    hide Before;
    var r := Insert(c, ranked);
    if ranked == [] {
    } else if Before(c, ranked[0]) {
      forall j | 0 < j < |r|
        ensures !Before(r[j], c)
      {
        assert r[j] == ranked[j - 1];
        BeforeOrder(ranked[0], c);
        if Before(r[j], c) {
          BeforeTransitive(r[j], c, ranked[0]);
        }
      }
    } else {
      InsertSorted(c, ranked[1..]);
      forall j | 0 < j < |r|
        ensures !Before(r[j], ranked[0])
      {
        assert r[j] in multiset(r[1..]) && r[j] in multiset([c] + ranked[1..]);
        assert r[j] == c || r[j] in ranked[1..];
      }
    }
  }

  /** A ranking always exists. */
  lemma {:induction false} RankIsRanking(s: seq<Candidate>)
    ensures RankingOf(Rank(s), s)
    decreases |s|
  {
    hide Before;
    if s != [] {
      RankIsRanking(s[1..]);
      InsertSorted(s[0], Rank(s[1..]));
    }
  }

  lemma {:induction false} AtMostOnce(s: seq<Candidate>, c: Candidate)
    requires DistinctEndpoints(s)
    ensures multiset(s)[c] <= 1
    decreases |s|
  {
    if s != [] {
      assert s == [s[0]] + s[1..];
      AtMostOnce(s[1..], c);
      assert s[0] == c ==> c !in s[1..] by {
        assert forall k | 0 <= k < |s[1..]| :: s[1..][k].endpoint != s[0].endpoint;
      }
    }
  }

  lemma RankingDistinct(ranked: seq<Candidate>, s: seq<Candidate>)
    requires DistinctEndpoints(s) && multiset(ranked) == multiset(s)
    ensures DistinctEndpoints(ranked)
  {
    forall i, j | 0 <= i < j < |ranked|
      ensures ranked[i].endpoint != ranked[j].endpoint
    {
      var c := ranked[j];
      AtMostOnce(s, c);
      assert ranked == ranked[..j] + [c] + ranked[j + 1..];
      assert ranked[i] in ranked[..j];
      assert ranked[i] != c;
      assert ranked[i] in multiset(s) && c in multiset(s);
    }
  }

  /** Distinct endpoints have one ranking. */
  lemma {:induction false} SortedUnique(a: seq<Candidate>, b: seq<Candidate>)
    requires Sorted(a) && Sorted(b) && DistinctEndpoints(a) && DistinctEndpoints(b)
    requires forall c :: c in a <==> c in b
    ensures a == b
    decreases |a|
  {
    hide Before;
    if |a| == 0 || |b| == 0 {
      HeadIn(a);
      HeadIn(b);
    } else {
      assert a[0] in b && b[0] in a;
      BeforeOrder(a[0], b[0]);
      assert a[0] == b[0];
      forall c
        ensures c in a[1..] <==> c in b[1..]
      {
        assert c in a <==> c == a[0] || c in a[1..];
        assert c in b <==> c == b[0] || c in b[1..];
        assert a[0] !in a[1..] && b[0] !in b[1..];
      }
      SortedUnique(a[1..], b[1..]);
      assert a == [a[0]] + a[1..] && b == [b[0]] + b[1..];
    }
  }

  /** Whatever sorting algorithm is used, distinct endpoints come out in the order of `Rank`. */
  lemma RankingUnique(ranked: seq<Candidate>, s: seq<Candidate>)
    requires RankingOf(ranked, s) && DistinctEndpoints(s)
    ensures ranked == Rank(s)
  {
    hide Before, Rank;
    RankIsRanking(s);
    RankingDistinct(ranked, s);
    RankingDistinct(Rank(s), s);
    forall c
      ensures c in ranked <==> c in Rank(s)
    {
      assert c in ranked <==> c in multiset(ranked);
      assert c in Rank(s) <==> c in multiset(Rank(s));
    }
    SortedUnique(ranked, Rank(s));
  }

  // ---- The scan ----------------------------------------------------------------------

  function KeyOf(c: Candidate): string {
    Address(c.endpoint)
  }

  /** The first result of each endpoint, in order of arrival. */
  method CollectResults(results: seq<Candidate>) returns (candidates: seq<Candidate>)
    ensures candidates == Firsts(KeyOf, results)
  {
    hide Firsts, Seen, KeyOf;
    var seen: set<string> := {};
    candidates := [];
    NothingSeen(KeyOf, results[..0]);
    for i := 0 to |results|
      invariant forall k :: k in seen <==> Seen(KeyOf, results[..i], k)
      invariant candidates == Firsts(KeyOf, results[..i])
    {
      FirstsStep(KeyOf, results, i);
      var key := KeyOf(results[i]);
      SeenStep(KeyOf, results, i);
      if key !in seen {
        seen := seen + {key};
        candidates := candidates + [results[i]];
      }
    }
    assert results[..|results|] == results;
  }

  ghost function ScanResult(results: seq<Candidate>): seq<Candidate> {
    Rank(Firsts(KeyOf, results))
  }

  lemma CollectedDistinct(results: seq<Candidate>)
    ensures DistinctEndpoints(Firsts(KeyOf, results))
  {
    hide Firsts, Address;
    FirstsExact(KeyOf, results);
  }

  /** Two results for one endpoint are the same result. */
  ghost predicate Consistent(results: seq<Candidate>) {
    forall i, j | 0 <= i < j < |results| :: results[i].endpoint == results[j].endpoint ==> results[i] == results[j]
  }

  lemma CollectedElements(results: seq<Candidate>, c: Candidate)
    requires Consistent(results)
    ensures c in Firsts(KeyOf, results) <==> c in results
  {
    hide Firsts, Address;
    FirstsExact(KeyOf, results);
    if c in results {
      var ys := Firsts(KeyOf, results);
      var a :| 0 <= a < |ys| && KeyOf(ys[a]) == KeyOf(c);
      AddressInjective(ys[a].endpoint, c.endpoint);
      assert ys[a] in results;
    }
  }

  lemma ConsistentPermutation(r: seq<Candidate>, s: seq<Candidate>)
    requires Consistent(r) && multiset(s) == multiset(r)
    ensures Consistent(s)
  {
    forall i, j | 0 <= i < j < |s| && s[i].endpoint == s[j].endpoint
      ensures s[i] == s[j]
    {
      assert s[i] in multiset(r) && s[j] in multiset(r);
    }
  }

  lemma SameElementsScan(r: seq<Candidate>, s: seq<Candidate>)
    requires Consistent(r) && Consistent(s) && forall c :: c in r <==> c in s
    ensures ScanResult(s) == ScanResult(r)
  {
    hide Before, Rank, Firsts, Consistent;
    var (a, b) := (Firsts(KeyOf, r), Firsts(KeyOf, s));
    CollectedDistinct(r);
    CollectedDistinct(s);
    RankIsRanking(a);
    RankIsRanking(b);
    RankingDistinct(Rank(a), a);
    RankingDistinct(Rank(b), b);
    forall c
      ensures c in Rank(a) <==> c in Rank(b)
    {
      CollectedElements(r, c);
      CollectedElements(s, c);
      assert c in Rank(a) <==> c in multiset(a);
      assert c in Rank(b) <==> c in multiset(b);
    }
    SortedUnique(Rank(a), Rank(b));
  }

  lemma SameScan(r: seq<Candidate>, s: seq<Candidate>)
    requires Consistent(r) && multiset(s) == multiset(r)
    ensures ScanResult(s) == ScanResult(r)
  {
    hide ScanResult, Consistent;
    ConsistentPermutation(r, s);
    forall c
      ensures c in r <==> c in s
    {
      assert c in r <==> c in multiset(r);
      assert c in s <==> c in multiset(s);
    }
    SameElementsScan(r, s);
  }

  /** A first result and another, differing one for its endpoint. */
  lemma Differing(r: seq<Candidate>) returns (f: nat, q: nat)
    requires !Consistent(r)
    ensures f < |r| && q < |r| && IsFirst(KeyOf, r, f) && KeyOf(r[f]) == KeyOf(r[q]) && r[f] != r[q]
  {
    hide Address;
    var i, j :| 0 <= i < j < |r| && r[i].endpoint == r[j].endpoint && r[i] != r[j];
    assert KeyOf(r[i]) == KeyOf(r[j]);
    hide KeyOf;
    f := Earliest(KeyOf, r, i);
    q := if r[f] == r[i] then j else i;
  }

  lemma MovedFirst(r: seq<Candidate>, q: nat)
    requires q < |r|
    ensures var s := [r[q]] + r[..q] + r[q + 1..];
            multiset(s) == multiset(r) && r[q] in Firsts(KeyOf, s)
  {
    hide Firsts, KeyOf;
    var s := [r[q]] + r[..q] + r[q + 1..];
    assert r == r[..q] + [r[q]] + r[q + 1..];
    FirstIsKept(KeyOf, s, 0);
  }

  /** An arrival order in which another of two differing results comes first changes the outcome. */
  lemma DifferentScan(r: seq<Candidate>) returns (s: seq<Candidate>)
    requires !Consistent(r)
    ensures multiset(s) == multiset(r) && ScanResult(s) != ScanResult(r)
  {
    hide Rank, Firsts, KeyOf, Consistent;
    var f, q := Differing(r);
    s := [r[q]] + r[..q] + r[q + 1..];
    MovedFirst(r, q);
    OnlyFirstKept(r, f, q);
    var (a, b) := (Firsts(KeyOf, r), Firsts(KeyOf, s));
    assert r[q] in Rank(b) <==> r[q] in multiset(b);
    assert r[q] in Rank(a) <==> r[q] in multiset(a);
  }

  lemma OnlyFirstKept(r: seq<Candidate>, f: nat, q: nat)
    requires f < |r| && q < |r| && IsFirst(KeyOf, r, f)
    requires KeyOf(r[f]) == KeyOf(r[q]) && r[f] != r[q]
    ensures r[q] !in Firsts(KeyOf, r)
  {
    hide Firsts, KeyOf;
    FirstIsKept(KeyOf, r, f);
    FirstsExact(KeyOf, r);
  }

  /** The scan's outcome does not depend on the arrival order exactly when its results agree. */
  lemma ScheduleIndependence(r: seq<Candidate>)
    ensures (forall s | multiset(s) == multiset(r) :: ScanResult(s) == ScanResult(r)) <==> Consistent(r)
  {
    hide ScanResult, Consistent;
    if Consistent(r) {
      forall s | multiset(s) == multiset(r)
        ensures ScanResult(s) == ScanResult(r)
      {
        SameScan(r, s);
      }
    } else {
      var s := DifferentScan(r);
      assert ScanResult(s) != ScanResult(r);
    }
  }

  /** Lexicographic order, by the first place where two texts differ. */
  ghost predicate Precedes(a: string, b: string) {
    exists p: nat :: DifferAt(a, b, p)
  }

  ghost predicate DifferAt(a: string, b: string, p: nat) {
    p <= |a| && p < |b| && a[..p] == b[..p] && (p == |a| || a[p] < b[p])
  }

  lemma {:induction false} HostBeforePrecedes(a: string, b: string)
    requires HostBefore(a, b)
    ensures Precedes(a, b)
    decreases |a|
  {
    if a == [] || a[0] < b[0] {
      assert DifferAt(a, b, 0);
    } else {
      HostBeforePrecedes(a[1..], b[1..]);
      var p: nat :| DifferAt(a[1..], b[1..], p);
      assert a[..p + 1] == [a[0]] + a[1..][..p] && b[..p + 1] == [b[0]] + b[1..][..p];
      assert DifferAt(a, b, p + 1);
    }
  }

  /** Falling scores, then rising hosts, then rising ports. */
  ghost predicate Ordered(c: Candidate, d: Candidate) {
    || c.score > d.score
    || (c.score == d.score
        && (Precedes(c.endpoint.host, d.endpoint.host)
            || (c.endpoint.host == d.endpoint.host && c.endpoint.port < d.endpoint.port)))
  }

  /** A scan's outcome is in strict order. */
  lemma ScanOrder(results: seq<Candidate>)
    ensures var out := ScanResult(results);
            forall i, j | 0 <= i < j < |out| :: Ordered(out[i], out[j])
  {
    hide Before, Rank, Firsts, Precedes;
    var kept, out := Firsts(KeyOf, results), ScanResult(results);
    CollectedDistinct(results);
    RankIsRanking(kept);
    RankingDistinct(out, kept);
    forall i, j | 0 <= i < j < |out|
      ensures Ordered(out[i], out[j])
    {
      BeforeOrder(out[i], out[j]);
      BeforeOrdered(out[i], out[j]);
    }
  }

  lemma BeforeOrdered(c: Candidate, d: Candidate)
    requires Before(c, d)
    ensures Ordered(c, d)
  {
    hide Precedes;
    if c.score == d.score && c.endpoint.host != d.endpoint.host {
      HostBeforePrecedes(c.endpoint.host, d.endpoint.host);
    }
  }

  // ---- What a caller of the scan can check -------------------------------------------

  ghost predicate NoRepeats<T(!new)>(xs: seq<T>) {
    forall i, j | 0 <= i < j < |xs| :: xs[i] != xs[j]
  }

  function Row(host: string, ports: seq<int>): (targets: seq<Endpoint>)
    ensures |targets| == |ports| && forall k | 0 <= k < |ports| :: targets[k] == Endpoint(host, ports[k])
  {
    seq(|ports|, k requires 0 <= k < |ports| => Endpoint(host, ports[k]))
  }

  /** Everything the scan probes: each host on each port. */
  function Targets(hosts: seq<string>, ports: seq<int>): seq<Endpoint>
    decreases hosts
  {
    if hosts == [] then [] else Row(hosts[0], ports) + Targets(hosts[1..], ports)
  }

  /** The ports of the options, or the default ones where none are given. */
  function PortsToScan(ports: seq<int>): seq<int> {
    if ports == [] then [2022, 27011, 6000, 4001, 10001, 5000] else ports
  }

  /** Without ports the default options replace all that was given. */
  function Workers(ports: seq<int>, concurrency: int): nat {
    if ports == [] || concurrency <= 0 then 96 else concurrency
  }

  /** A port that can be dialled at all. */
  predicate Dialable(port: int) {
    1 <= port <= 65535
  }

  predicate NoneDialledTwice(ports: seq<int>) {
    forall i, j | 0 <= i < j < |ports| && Dialable(ports[i]) :: ports[i] != ports[j]
  }

  /** What reading a banner can give: printable, trimmed, and cut at 140 characters. */
  predicate IsBanner(text: string) {
    && |text| <= 140 && (forall c | c in text :: ' ' <= c <= '~')
    && (text != "" ==> text[0] != ' ' && (|text| < 140 ==> text[|text| - 1] != ' '))
  }

  /** What probing an open port can find out. */
  predicate CanFind(probe: Probe) {
    match probe
    case Answered(_, name) => name in {"get-info", "inventory-g2", "inventory-legacy"}
    case Silent(text) => IsBanner(text)
  }

  ghost predicate CanAnswer(c: Candidate, endpoint: Endpoint) {
    Dialable(endpoint.port) && exists probe :: CanFind(probe) && IsAnswer(c, endpoint, probe)
  }

  /** One answer or none for each target. */
  ghost predicate ValidAnswers(answers: seq<Option<Candidate>>, targets: seq<Endpoint>) {
    && |answers| == |targets|
    && forall i | 0 <= i < |answers| && answers[i].Some? :: CanAnswer(answers[i].value, targets[i])
  }

  /** `order` lists the targets that answered, each once. */
  ghost predicate OrderOf(order: seq<nat>, answers: seq<Option<Candidate>>) {
    NoRepeats(order) && forall i: nat :: i in order <==> i < |answers| && answers[i].Some?
  }

  /** The targets before `order[p]` whose answers come later. */
  function Overtaken(order: seq<nat>, p: nat): set<nat>
    requires p < |order|
  {
    set q: nat | p < q < |order| && order[q] < order[p]
  }

  /** The orders of arrival that so many workers can produce: targets are handed out in turn, so an
      answer only overtakes those that other workers are still busy with. */
  predicate Feasible(order: seq<nat>, workers: nat) {
    forall p | 0 <= p < |order| :: |Overtaken(order, p)| < workers
  }

  function Arrived(answers: seq<Option<Candidate>>, order: seq<nat>): (results: seq<Candidate>)
    requires forall k | 0 <= k < |order| :: order[k] < |answers| && answers[order[k]].Some?
    ensures |results| == |order| && forall k | 0 <= k < |order| :: results[k] == answers[order[k]].value
  {
    seq(|order|, k requires 0 <= k < |order| => answers[order[k]].value)
  }

  /** The same answers, arriving in two orders that the scan's workers can produce. */
  ghost predicate TwoArrivals(answers: seq<Option<Candidate>>, one: seq<nat>, other: seq<nat>,
                              targets: seq<Endpoint>, workers: nat) {
    && ValidAnswers(answers, targets) && OrderOf(one, answers) && OrderOf(other, answers)
    && Feasible(one, workers) && Feasible(other, workers)
  }

  ghost predicate SameOutcome(answers: seq<Option<Candidate>>, one: seq<nat>, other: seq<nat>)
    requires OrderOf(one, answers) && OrderOf(other, answers)
  {
    OrderedAnswered(one, answers);
    OrderedAnswered(other, answers);
    ScanResult(Arrived(answers, one)) == ScanResult(Arrived(answers, other))
  }

  lemma OrderedAnswered(order: seq<nat>, answers: seq<Option<Candidate>>)
    requires OrderOf(order, answers)
    ensures forall k | 0 <= k < |order| :: order[k] < |answers| && answers[order[k]].Some?
  {
    forall k | 0 <= k < |order|
      ensures order[k] < |answers| && answers[order[k]].Some?
    {
      assert order[k] in order;
    }
  }

  lemma {:induction false} TargetHosts(hosts: seq<string>, ports: seq<int>)
    ensures forall e | e in Targets(hosts, ports) :: e.host in hosts
    decreases hosts
  {
    if hosts != [] {
      TargetHosts(hosts[1..], ports);
    }
  }

  /** No endpoint is dialled twice. */
  predicate DialledOnce(targets: seq<Endpoint>) {
    forall i, j | 0 <= i < j < |targets| && Dialable(targets[i].port) :: targets[i] != targets[j]
  }

  lemma {:induction false} TargetsDistinct(hosts: seq<string>, ports: seq<int>)
    requires NoRepeats(hosts) && NoneDialledTwice(ports)
    ensures DialledOnce(Targets(hosts, ports))
    decreases hosts
  {
    hide Dialable;
    if hosts != [] {
      var row, rest := Row(hosts[0], ports), Targets(hosts[1..], ports);
      TargetsDistinct(hosts[1..], ports);
      TargetHosts(hosts[1..], ports);
      assert hosts[0] !in hosts[1..];
      assert forall e | e in rest :: e.host != hosts[0];
      forall i, j | 0 <= i < j < |row + rest| && Dialable((row + rest)[i].port)
        ensures (row + rest)[i] != (row + rest)[j]
      {
        if i < |row| <= j {
          assert rest[j - |row|] in rest;
        }
      }
    }
  }

  lemma ArrivedConsistent(answers: seq<Option<Candidate>>, order: seq<nat>, targets: seq<Endpoint>)
    requires ValidAnswers(answers, targets) && OrderOf(order, answers) && DialledOnce(targets)
    requires forall k | 0 <= k < |order| :: order[k] < |answers| && answers[order[k]].Some?
    ensures Consistent(Arrived(answers, order))
  {
    hide IsAnswer, CanFind, Dialable;
    var r := Arrived(answers, order);
    forall i, j | 0 <= i < j < |r|
      ensures r[i].endpoint != r[j].endpoint
    {
      var (a, b) := (order[i], order[j]);
      assert a != b;
      AnswerEndpoint(answers[a].value, targets[a]);
      AnswerEndpoint(answers[b].value, targets[b]);
      if a < b {
        assert targets[a] != targets[b];
      } else {
        assert targets[b] != targets[a];
      }
    }
  }

  lemma AnswerEndpoint(c: Candidate, endpoint: Endpoint)
    requires CanAnswer(c, endpoint)
    ensures c.endpoint == endpoint && Dialable(endpoint.port) && Probed(c)
  {
  }

  lemma OnceIsIndependent(answers: seq<Option<Candidate>>, one: seq<nat>, other: seq<nat>,
                          targets: seq<Endpoint>, workers: nat)
    requires TwoArrivals(answers, one, other, targets, workers) && DialledOnce(targets)
    ensures SameOutcome(answers, one, other)
  {
    hide ValidAnswers, Feasible, DialledOnce, Consistent, ScanResult;
    OrderedAnswered(one, answers);
    OrderedAnswered(other, answers);
    ArrivedConsistent(answers, one, targets);
    ArrivedConsistent(answers, other, targets);
    var (r, s) := (Arrived(answers, one), Arrived(answers, other));
    forall c
      ensures c in r <==> c in s
    {
      ArrivedIn(answers, one, c);
      ArrivedIn(answers, other, c);
    }
    SameElementsScan(r, s);
  }

  lemma ArrivedIn(answers: seq<Option<Candidate>>, order: seq<nat>, c: Candidate)
    requires OrderOf(order, answers)
    requires forall k | 0 <= k < |order| :: order[k] < |answers| && answers[order[k]].Some?
    ensures c in Arrived(answers, order) <==> Some(c) in answers
  {
    var r := Arrived(answers, order);
    if c in r {
      var k :| 0 <= k < |r| && r[k] == c;
      assert answers[order[k]] == Some(c);
    }
    if Some(c) in answers {
      var i: nat :| i < |answers| && answers[i] == Some(c);
      assert i in order;
      var k :| 0 <= k < |order| && order[k] == i;
      assert r[k] == c;
    }
  }

  /** One worker delivers in the order of the targets. */
  lemma OneWorkerOrder(order: seq<nat>, answers: seq<Option<Candidate>>)
    requires OrderOf(order, answers) && Feasible(order, 1)
    ensures Ascending(order)
  {
    forall a, b | 0 <= a < b < |order|
      ensures order[a] < order[b]
    {
      assert order[a] != order[b];
      assert |Overtaken(order, a)| == 0;
      assert b !in Overtaken(order, a);
    }
  }

  lemma OneWorkerIndependent(answers: seq<Option<Candidate>>, one: seq<nat>, other: seq<nat>, targets: seq<Endpoint>)
    requires TwoArrivals(answers, one, other, targets, 1)
    ensures SameOutcome(answers, one, other)
  {
    hide ValidAnswers, ScanResult;
    OneWorkerOrder(one, answers);
    OneWorkerOrder(other, answers);
    AscendingUnique(one, other);
  }

  lemma TwoAnswersDiffer(first: Candidate, second: Candidate)
    requires first.endpoint == second.endpoint && first != second
    ensures ScanResult([first, second]) != ScanResult([second, first])
  {
    hide Rank, Firsts, Address;
    var (r, s) := ([first, second], [second, first]);
    assert KeyOf(first) == KeyOf(second);
    hide KeyOf;
    FirstIsKept(KeyOf, r, 0);
    OnlyFirstKept(s, 0, 1);
    assert first in Rank(Firsts(KeyOf, r)) <==> first in multiset(Firsts(KeyOf, r));
    assert first in Rank(Firsts(KeyOf, s)) <==> first in multiset(Firsts(KeyOf, s));
  }

  /** A reader that answers one of two probes of its port, in the words of the scan. */
  lemma TwoFindings(e: Endpoint) returns (first: Candidate, second: Candidate)
    requires Dialable(e.port)
    ensures CanAnswer(first, e) && CanAnswer(second, e)
    ensures first.endpoint == second.endpoint && first != second
  {
    hide HexText.HexUpper, PortScore;
    NothingMentioned();
    var reason := "reader protocol: " + "reader18/get-info" + " addr=0x" + HexText.HexUpper([0]);
    assert "reader18/" + "get-info" == "reader18/get-info";
    first := Candidate(e, PortScore(e.port) + 160, "", reason, true, 0, "reader18/get-info");
    second := Candidate(e, PortScore(e.port), "", "open tcp port", false, 0, "");
    assert CanFind(Answered(0, "get-info")) && IsAnswer(first, e, Answered(0, "get-info"));
    assert CanFind(Silent("")) && IsAnswer(second, e, Silent(""));
  }

  /** Two workers can deliver two answers either way round. */
  lemma Swapped(a: nat, b: nat)
    requires a < b
    ensures Feasible([a, b], 2) && Feasible([b, a], 2)
  {
    var (one, other) := ([a, b], [b, a]);
    assert Overtaken(one, 0) == {} && Overtaken(one, 1) == {};
    assert Overtaken(other, 0) == {1} && Overtaken(other, 1) == {};
  }

  lemma MoreWorkers(order: seq<nat>, few: nat, many: nat)
    requires Feasible(order, few) && few <= many
    ensures Feasible(order, many)
  {
    hide Overtaken;
    forall p | 0 <= p < |order|
      ensures |Overtaken(order, p)| < many
    {
    }
  }

  /** A port dialled twice, by two workers or more, gives one endpoint two answers in both orders. */
  lemma TwiceIsDependent(hosts: seq<string>, ports: seq<int>, workers: nat)
    returns (answers: seq<Option<Candidate>>, one: seq<nat>, other: seq<nat>)
    requires hosts != [] && !NoneDialledTwice(ports) && workers >= 2
    ensures TwoArrivals(answers, one, other, Targets(hosts, ports), workers) && !SameOutcome(answers, one, other)
  {
    hide Dialable, CanAnswer, ScanResult, Feasible;
    var a: nat, b: nat :| a < b < |ports| && Dialable(ports[a]) && ports[a] == ports[b];
    var targets := Targets(hosts, ports);
    var e := Endpoint(hosts[0], ports[a]);
    assert targets[a] == e && targets[b] == e;
    var first, second := TwoFindings(e);
    answers := seq(|targets|, i => if i == a then Some(first) else if i == b then Some(second) else None);
    one, other := [a, b], [b, a];
    Swapped(a, b);
    MoreWorkers(one, 2, workers);
    MoreWorkers(other, 2, workers);
    assert ValidAnswers(answers, targets);
    assert OrderOf(one, answers) && OrderOf(other, answers);
    OrderedAnswered(one, answers);
    OrderedAnswered(other, answers);
    assert Arrived(answers, one) == [first, second] && Arrived(answers, other) == [second, first];
    TwoAnswersDiffer(first, second);
  }

  /** Whatever the targets answer, the order in which the workers deliver it does not matter. */
  ghost predicate Independent(targets: seq<Endpoint>, workers: nat) {
    forall answers, one, other | TwoArrivals(answers, one, other, targets, workers) ::
      SameOutcome(answers, one, other)
  }

  /** Where no port is given, six of the readers' own are scanned. */
  lemma DefaultPortsDistinct()
    ensures NoneDialledTwice(PortsToScan([]))
    ensures |PortsToScan([])| == 6 && forall p | p in PortsToScan([]) :: PortClass(p) == 0
  {
  }

  /**
   The scan collects each host once.  Then its outcome never depends on the order of the answers
   exactly when there is no host, one worker only, or no port that can be dialled is given twice.
   */
  lemma ScanIndependentIff(hosts: seq<string>, ports: seq<int>, concurrency: int)
    requires NoRepeats(hosts)
    ensures Independent(Targets(hosts, PortsToScan(ports)), Workers(ports, concurrency))
       <==> hosts == [] || concurrency == 1 || NoneDialledTwice(ports)
  {
    hide NoRepeats, NoneDialledTwice, DialledOnce, ValidAnswers, Feasible, OrderOf, SameOutcome, Dialable;
    DefaultPortsDistinct();
    var targets, workers := Targets(hosts, PortsToScan(ports)), Workers(ports, concurrency);
    EmptyDialled();
    if hosts != [] && concurrency != 1 && !NoneDialledTwice(ports) {
      var answers, one, other := TwiceIsDependent(hosts, ports, workers);
      assert !SameOutcome(answers, one, other);
    } else {
      forall answers, one, other | TwoArrivals(answers, one, other, targets, workers)
        ensures SameOutcome(answers, one, other)
      {
        if workers == 1 {
          OneWorkerIndependent(answers, one, other, targets);
        } else {
          if hosts != [] {
            TargetsDistinct(hosts, PortsToScan(ports));
          }
          OnceIsIndependent(answers, one, other, targets, workers);
        }
      }
    }
  }

  lemma EmptyDialled()
    ensures DialledOnce([]) && NoneDialledTwice([])
  {
  }

  // ---- Choosing a candidate ----------------------------------------------------------

  /** The index the clients connect to: the first verified candidate, or else the first one. */
  ghost predicate IsPreferred(candidates: seq<Candidate>, index: int) {
    && 0 <= index < |candidates|
    && (candidates[index].verified || index == 0)
    && (forall i | 0 <= i < index :: !candidates[i].verified)
    && (!candidates[index].verified ==> forall c | c in candidates :: !c.verified)
  }

  method PreferredVerifiedIndex(candidates: seq<Candidate>) returns (index: int)
    ensures -1 <= index < |candidates|
    ensures index >= 0 ==> candidates[index].verified && forall i | 0 <= i < index :: !candidates[i].verified
    ensures index < 0 ==> forall c | c in candidates :: !c.verified
  {
    for i := 0 to |candidates|
      invariant forall k | 0 <= k < i :: !candidates[k].verified
    {
      if candidates[i].verified {
        return i;
      }
    }
    return -1;
  }

  method PreferredIndex(candidates: seq<Candidate>) returns (index: int)
    ensures if candidates == [] then index == -1 else IsPreferred(candidates, index)
  {
    if |candidates| == 0 {
      return -1;
    }
    index := PreferredVerifiedIndex(candidates);
    if index < 0 {
      index := 0;
    }
  }

  /** `QuickConnect` starts from index 0 and moves to the first verified candidate. */
  method QuickConnectIndex(candidates: seq<Candidate>) returns (index: nat)
    requires candidates != []
    ensures IsPreferred(candidates, index)
  {
    index := 0;
    for i := 0 to |candidates|
      invariant index == 0 && forall k | 0 <= k < i :: !candidates[k].verified
    {
      if candidates[i].verified {
        index := i;
        break;
      }
    }
  }

  lemma VerifiedFirst(ranked: seq<Candidate>)
    requires Sorted(ranked) && forall c | c in ranked :: Probed(c)
    ensures forall i, j | 0 <= i < j < |ranked| :: ranked[j].verified ==> ranked[i].verified
  {
    hide Probed;
    forall i, j | 0 <= i < j < |ranked| && ranked[j].verified
      ensures ranked[i].verified
    {
      assert ranked[i] in ranked && ranked[j] in ranked;
      ScoreTiers(ranked[i]);
      ScoreTiers(ranked[j]);
    }
  }

  lemma PreferredIsZero(ranked: seq<Candidate>, index: int)
    requires Sorted(ranked) && forall c | c in ranked :: Probed(c)
    ensures IsPreferred(ranked, index) <==> index == 0 && ranked != []
  {
    hide Before, Probed;
    VerifiedFirst(ranked);
    if 0 < index < |ranked| {
      assert ranked[index].verified ==> ranked[0].verified;
    }
    if ranked != [] && !ranked[0].verified {
      var best := ranked[0];
      forall c | c in ranked
        ensures !c.verified
      {
        var j :| 0 <= j < |ranked| && ranked[j] == c;
        assert j > 0 ==> (ranked[j].verified ==> best.verified);
      }
    }
  }

  /** In the outcome of a scan every search for the first verified candidate ends at index 0. */
  lemma BestIsFirst(results: seq<Candidate>, index: int)
    requires forall c | c in results :: Probed(c)
    ensures var ranked := ScanResult(results);
            forall i, j | 0 <= i < j < |ranked| :: ranked[j].verified ==> ranked[i].verified
    ensures IsPreferred(ScanResult(results), index) <==> index == 0 && results != []
  {
    hide Before, Rank, Firsts, Probed, KeyOf, IsPreferred;
    var kept := Firsts(KeyOf, results);
    var ranked := ScanResult(results);
    FirstsExact(KeyOf, results);
    RankIsRanking(kept);
    forall c | c in ranked
      ensures Probed(c)
    {
      assert c in multiset(kept);
    }
    VerifiedFirst(ranked);
    PreferredIsZero(ranked, index);
    assert |multiset(ranked)| == |multiset(kept)|;
    HeadIn(kept);
    assert results == [] <==> kept == [] by {
      HeadIn(results);
    }
  }
}
