/**
 Keeping the first element of each key, in order: what every `seen` map of the scanner and the
 connect planner does.
 */
module FirstOccurrence {

  ghost predicate Seen<T, K>(key: T -> K, xs: seq<T>, k: K) {
    exists i | 0 <= i < |xs| :: key(xs[i]) == k
  }

  ghost function Firsts<T, K>(key: T -> K, xs: seq<T>): seq<T>
    decreases |xs|
  {
    if xs == [] then []
    else
      var before, x := xs[..|xs| - 1], xs[|xs| - 1];
      if Seen(key, before, key(x)) then Firsts(key, before) else Firsts(key, before) + [x]
  }

  /** Position `i` is the first one of its key. */
  ghost predicate IsFirst<T, K>(key: T -> K, xs: seq<T>, i: nat)
    requires i < |xs|
  {
    forall j | 0 <= j < i :: key(xs[j]) != key(xs[i])
  }

  ghost predicate Ascending(ps: seq<nat>) {
    forall a, b | 0 <= a < b < |ps| :: ps[a] < ps[b]
  }

  /** `ps` lists, in order, exactly the first positions of `xs`, and `ys` what stands there. */
  ghost predicate KeepsFirsts<T(!new), K>(key: T -> K, xs: seq<T>, ys: seq<T>, ps: seq<nat>) {
    && |ps| == |ys| && Ascending(ps)
    && (forall a | 0 <= a < |ps| :: ps[a] < |xs| && ys[a] == xs[ps[a]])
    && (forall i: nat | i < |xs| :: i in ps <==> IsFirst(key, xs, i))
  }

  lemma FirstsWithoutLast<T(!new), K>(key: T -> K, xs: seq<T>, ys: seq<T>, ps: seq<nat>)
    requires xs != [] && KeepsFirsts(key, xs[..|xs| - 1], ys, ps)
    ensures var n := |xs| - 1;
            if Seen(key, xs[..n], key(xs[n])) then KeepsFirsts(key, xs, ys, ps)
            else KeepsFirsts(key, xs, ys + [xs[n]], ps + [n])
  {
    var n := |xs| - 1;
    var before := xs[..n];
    assert forall i: nat | i < n :: IsFirst(key, before, i) <==> IsFirst(key, xs, i);
    assert IsFirst(key, xs, n) <==> !Seen(key, before, key(xs[n]));
    if !Seen(key, before, key(xs[n])) {
      var qs := ps + [n];
      assert forall i | 0 <= i < |ps| :: qs[i] == ps[i];
      assert forall i: nat :: i in qs <==> i in ps || i == n;
    }
  }

  lemma {:induction false} FirstsKeepsFirsts<T(!new), K>(key: T -> K, xs: seq<T>) returns (ps: seq<nat>)
    ensures KeepsFirsts(key, xs, Firsts(key, xs), ps)
    decreases |xs|
  {
    ps := [];
    if xs != [] {
      var n := |xs| - 1;
      ps := FirstsKeepsFirsts(key, xs[..n]);
      FirstsWithoutLast(key, xs, Firsts(key, xs[..n]), ps);
      hide KeepsFirsts, Seen;
      if !Seen(key, xs[..n], key(xs[n])) {
        ps := ps + [n];
      }
    }
  }

  /** No two kept elements share a key, and each element's key is kept, by an element of `xs`. */
  lemma FirstsExact<T(!new), K>(key: T -> K, xs: seq<T>)
    ensures var ys := Firsts(key, xs);
            forall a, b | 0 <= a < b < |ys| :: key(ys[a]) != key(ys[b])
    ensures forall y | y in Firsts(key, xs) :: y in xs
    ensures forall x | x in xs :: Seen(key, Firsts(key, xs), key(x))
  {
    var ps := FirstsKeepsFirsts(key, xs);
    var ys := Firsts(key, xs);
    forall a, b | 0 <= a < b < |ys|
      ensures key(ys[a]) != key(ys[b])
    {
      assert ps[b] in ps;
      assert IsFirst(key, xs, ps[b]) && ps[a] < ps[b];
    }
    forall x | x in xs
      ensures Seen(key, ys, key(x))
    {
      var i: nat :| i < |xs| && xs[i] == x;
      var f := Earliest(key, xs, i);
      assert f in ps;
      var a :| 0 <= a < |ps| && ps[a] == f;
      assert key(ys[a]) == key(x);
    }
  }

  /** The first position with the key of position `i`. */
  lemma Earliest<T, K>(key: T -> K, xs: seq<T>, i: nat) returns (f: nat)
    requires i < |xs|
    ensures f <= i && key(xs[f]) == key(xs[i]) && IsFirst(key, xs, f)
    decreases i
  {
    if IsFirst(key, xs, i) {
      f := i;
    } else {
      var j :| 0 <= j < i && key(xs[j]) == key(xs[i]);
      f := Earliest(key, xs, j);
    }
  }

  lemma HeadIn<T>(s: seq<T>)
    ensures s != [] ==> s[0] in s
  {
  }

  /** A list has one list of first occurrences. */
  lemma {:induction false} AscendingUnique(ps: seq<nat>, qs: seq<nat>)
    requires Ascending(ps) && Ascending(qs) && forall i: nat :: i in ps <==> i in qs
    ensures ps == qs
    decreases |ps|
  {
    if ps == [] {
      HeadIn(qs);
    } else {
      assert ps[0] in ps && ps[0] in qs;
      assert qs[0] in qs && qs[0] in ps;
      assert ps[0] == qs[0];
      forall i: nat
        ensures i in ps[1..] <==> i in qs[1..]
      {
        assert i in ps <==> i == ps[0] || i in ps[1..];
        assert i in qs <==> i == qs[0] || i in qs[1..];
        assert i in ps[1..] ==> i > ps[0];
        assert i in qs[1..] ==> i > qs[0];
      }
      AscendingUnique(ps[1..], qs[1..]);
      assert ps == [ps[0]] + ps[1..] && qs == [qs[0]] + qs[1..];
    }
  }

  /** `Firsts` is the one list that keeps the first positions. */
  lemma FirstsUnique<T(!new), K>(key: T -> K, xs: seq<T>, ys: seq<T>)
    ensures ys == Firsts(key, xs) <==> exists ps :: KeepsFirsts(key, xs, ys, ps)
  {
    var qs := FirstsKeepsFirsts(key, xs);
    forall ps | KeepsFirsts(key, xs, ys, ps)
      ensures ys == Firsts(key, xs)
    {
      assert forall i: nat :: i in ps ==> i < |xs|;
      assert forall i: nat :: i in qs ==> i < |xs|;
      AscendingUnique(ps, qs);
    }
  }

  /** One more element is dropped exactly where its key was seen. */
  lemma FirstsLast<T, K>(key: T -> K, xs: seq<T>, x: T)
    ensures Firsts(key, xs + [x]) == if Seen(key, xs, key(x)) then Firsts(key, xs) else Firsts(key, xs) + [x]
  {
    assert (xs + [x])[..|xs|] == xs;
  }

  /** The same, as a loop over `xs` needs it. */
  lemma FirstsStep<T, K>(key: T -> K, xs: seq<T>, n: nat)
    requires n < |xs|
    ensures Firsts(key, xs[..n + 1])
         == if Seen(key, xs[..n], key(xs[n])) then Firsts(key, xs[..n]) else Firsts(key, xs[..n]) + [xs[n]]
  {
    FirstsLast(key, xs[..n], xs[n]);
    assert xs[..n + 1] == xs[..n] + [xs[n]];
  }

  lemma FirstIsKept<T(!new), K>(key: T -> K, xs: seq<T>, i: nat)
    requires i < |xs| && IsFirst(key, xs, i)
    ensures xs[i] in Firsts(key, xs)
  {
    var ps := FirstsKeepsFirsts(key, xs);
    assert i in ps;
    var a :| 0 <= a < |ps| && ps[a] == i;
    assert Firsts(key, xs)[a] == xs[i];
  }

  lemma NothingSeen<T, K(!new)>(key: T -> K, xs: seq<T>)
    requires xs == []
    ensures Firsts(key, xs) == [] && forall k :: !Seen(key, xs, k)
  {
  }

  lemma SeenLast<T(!new), K(!new)>(key: T -> K, xs: seq<T>, x: T)
    ensures forall k :: Seen(key, xs + [x], k) <==> Seen(key, xs, k) || k == key(x)
  {
    var more := xs + [x];
    forall k
      ensures Seen(key, more, k) <==> Seen(key, xs, k) || k == key(x)
    {
      if Seen(key, xs, k) {
        var i :| 0 <= i < |xs| && key(xs[i]) == k;
        assert key(more[i]) == k;
      }
      assert more[|xs|] == x;
    }
  }

  lemma SeenStep<T(!new), K(!new)>(key: T -> K, xs: seq<T>, n: nat)
    requires n < |xs|
    ensures forall k :: Seen(key, xs[..n + 1], k) <==> Seen(key, xs[..n], k) || k == key(xs[n])
  {
    SeenLast(key, xs[..n], xs[n]);
    assert xs[..n + 1] == xs[..n] + [xs[n]];
  }

  lemma DistinctKeys<T, K>(key: T -> K, xs: seq<T>)
    requires forall a, b | 0 <= a < b < |xs| :: key(xs[a]) != key(xs[b])
    ensures forall a, b | 0 <= a < b < |xs| :: xs[a] != xs[b]
  {
    forall a, b | 0 <= a < b < |xs|
      ensures xs[a] != xs[b]
    {
      assert key(xs[a]) != key(xs[b]);
    }
  }
}
