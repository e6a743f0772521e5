/** Iteration order of the stable B-tree maps. A map is modelled by a Dafny `map` or `set`; the
    order of its keys is given by an injective `rank`. `Ascending` is what `iter()` or `range(..)`
    walks through, `First` is that walk cut off by `take(n)`. */
module Ordered {

  ghost predicate Injective<K(!new)>(rank: K -> int) {
    forall a, b :: rank(a) == rank(b) ==> a == b
  }

  ghost predicate IsLeast<K>(k: K, s: set<K>, rank: K -> int) {
    k in s && forall x :: x in s ==> rank(k) <= rank(x)
  }

  ghost predicate Increasing<K>(ks: seq<K>, rank: K -> int) {
    forall i, j :: 0 <= i < j < |ks| ==> rank(ks[i]) < rank(ks[j])
  }

  function Elements<K>(ks: seq<K>): set<K> {
    set k | k in ks
  }

  lemma LeastExists<K>(s: set<K>, rank: K -> int)
    requires s != {}
    ensures exists k :: IsLeast(k, s, rank)
  {
    var x :| x in s;
    var rest := s - {x};
    assert forall z :: z in s ==> z == x || z in rest;
    if rest == {} {
      assert IsLeast(x, s, rank);
    } else {
      LeastExists(rest, rank);
      var y :| IsLeast(y, rest, rank);
      assert IsLeast(if rank(x) <= rank(y) then x else y, s, rank);
    }
  }

  ghost function Least<K>(s: set<K>, rank: K -> int): (k: K)
    requires s != {}
    ensures IsLeast(k, s, rank)
  {
    LeastExists(s, rank);
    var k :| IsLeast(k, s, rank);
    k
  }

  lemma LeastIsUnique<K(!new)>(s: set<K>, rank: K -> int, k: K)
    requires Injective(rank) && IsLeast(k, s, rank)
    ensures k == Least(s, rank)
  {
    assert rank(k) == rank(Least(s, rank));
  }

  ghost function Ascending<K>(s: set<K>, rank: K -> int): (ks: seq<K>)
    ensures |ks| == |s|
  {
    if s == {} then
      []
    else
      var k := Least(s, rank);
      [k] + Ascending(s - {k}, rank)
  }

  ghost function First<K>(s: set<K>, rank: K -> int, n: nat): (ks: seq<K>)
    ensures |ks| == if n <= |s| then n else |s|
  {
    if n <= |s| then Ascending(s, rank)[..n] else Ascending(s, rank)
  }

  lemma {:induction false} AscendingLists<K>(s: set<K>, rank: K -> int)
    ensures Elements(Ascending(s, rank)) == s
  {
    if s != {} {
      var k := Least(s, rank);
      AscendingLists(s - {k}, rank);
      assert Elements(Ascending(s, rank)) == {k} + Elements(Ascending(s - {k}, rank));
    }
  }

  lemma LeastIsStrict<K(!new)>(s: set<K>, rank: K -> int)
    requires Injective(rank) && s != {}
    ensures forall x :: x in s - {Least(s, rank)} ==> rank(Least(s, rank)) < rank(x)
  {
  }

  lemma {:induction false} AscendingIncreases<K(!new)>(s: set<K>, rank: K -> int)
    requires Injective(rank)
    ensures Increasing(Ascending(s, rank), rank)
  {
    hide Injective;
    if s != {} {
      var k := Least(s, rank);
      var rest := Ascending(s - {k}, rank);
      AscendingIncreases(s - {k}, rank);
      AscendingLists(s - {k}, rank);
      LeastIsStrict(s, rank);
      forall j | 0 <= j < |rest|
        ensures rank(k) < rank(rest[j])
      {
        assert rest[j] in Elements(rest);
      }
    }
  }

  lemma HeadIsLeast<K(!new)>(ks: seq<K>, rank: K -> int)
    requires Injective(rank)
    requires ks != [] && Increasing(ks, rank)
    ensures Elements(ks) != {} && ks[0] == Least(Elements(ks), rank)
    ensures Elements(ks[1..]) == Elements(ks) - {ks[0]}
  {
    assert ks[0] in Elements(ks);
    var k := Least(Elements(ks), rank);
    assert rank(k) == rank(ks[0]);
    assert Elements(ks) == {ks[0]} + Elements(ks[1..]);
    assert ks[0] !in ks[1..];
  }

  lemma TailIncreases<K>(ks: seq<K>, rank: K -> int)
    requires ks != [] && Increasing(ks, rank)
    ensures Increasing(ks[1..], rank)
  {
  }

  /** Any strictly increasing listing of a set is its iteration order. */
  lemma {:induction false} AscendingIsUnique<K(!new)>(s: set<K>, rank: K -> int, ks: seq<K>)
    requires Injective(rank)
    requires Increasing(ks, rank)
    requires Elements(ks) == s
    ensures ks == Ascending(s, rank)
  {
    hide Increasing, Injective;
    if ks == [] {
      assert s == {};
    } else {
      HeadIsLeast(ks, rank);
      var rest := s - {ks[0]};
      assert Ascending(s, rank) == [ks[0]] + Ascending(rest, rank);
      TailIncreases(ks, rank);
      AscendingIsUnique(rest, rank, ks[1..]);
      assert ks == [ks[0]] + ks[1..];
    }
  }

  /** Iterating over a set that splits at a bound iterates over the two parts one after the other. */
  lemma AscendingSplits<K(!new)>(lower: set<K>, upper: set<K>, rank: K -> int)
    requires Injective(rank)
    requires forall a, b :: a in lower && b in upper ==> rank(a) < rank(b)
    ensures Ascending(lower + upper, rank) == Ascending(lower, rank) + Ascending(upper, rank)
  {
    var l, u := Ascending(lower, rank), Ascending(upper, rank);
    AscendingIncreases(lower, rank);
    AscendingIncreases(upper, rank);
    AscendingLists(lower, rank);
    AscendingLists(upper, rank);
    ConcatenationIncreases(l, u, rank);
    assert Elements(l + u) == Elements(l) + Elements(u);
    AscendingIsUnique(lower + upper, rank, l + u);
  }

  lemma ConcatenationIncreases<K(!new)>(l: seq<K>, u: seq<K>, rank: K -> int)
    requires Increasing(l, rank) && Increasing(u, rank)
    requires forall a, b :: a in Elements(l) && b in Elements(u) ==> rank(a) < rank(b)
    ensures Increasing(l + u, rank)
  {
    forall i, j | 0 <= i < j < |l + u|
      ensures rank((l + u)[i]) < rank((l + u)[j])
    {
      if i < |l| <= j {
        assert l[i] in Elements(l) && u[j - |l|] in Elements(u);
      }
    }
  }

  lemma CutHolds<K>(all: seq<K>, n: nat, j: nat)
    requires n <= |all| && j < |all|
    ensures j < n ==> all[j] in all[..n]
  {
    if j < n {
      assert all[..n][j] == all[j];
    }
  }

  lemma CutIsSmallest<K(!new)>(all: seq<K>, rank: K -> int, n: nat)
    requires Increasing(all, rank) && n <= |all|
    ensures Increasing(all[..n], rank)
    ensures Elements(all[..n]) <= Elements(all)
    ensures forall x, y :: x in all[..n] && y in all && y !in all[..n] ==> rank(x) < rank(y)
  {
    forall x, y | x in all[..n] && y in all && y !in all[..n]
      ensures rank(x) < rank(y)
    {
      var i :| 0 <= i < n && all[i] == x;
      var j :| 0 <= j < |all| && all[j] == y;
      CutHolds(all, n, j);
    }
  }

  /** What `take(n)` keeps: the n smallest keys, or all of them when there are fewer. */
  lemma FirstAreSmallest<K(!new)>(s: set<K>, rank: K -> int, n: nat)
    requires Injective(rank)
    ensures Elements(First(s, rank, n)) <= s
    ensures |Elements(First(s, rank, n))| == |First(s, rank, n)|
    ensures |s| <= n ==> Elements(First(s, rank, n)) == s
    ensures forall x, y :: x in First(s, rank, n) && y in s && y !in First(s, rank, n) ==> rank(x) < rank(y)
    ensures Increasing(First(s, rank, n), rank)
  {
    hide Injective, Ascending, Increasing;
    AscendingIncreases(s, rank);
    AscendingLists(s, rank);
    var all := Ascending(s, rank);
    var m := if n < |all| then n else |all|;
    assert First(s, rank, n) == all[..m];
    assert all[..|all|] == all;
    CutIsSmallest(all, rank, m);
    IncreasingIsDistinct(all[..m], rank);
    assert forall x :: x in s <==> x in Elements(all);
  }

  ghost predicate IsGreatest<K>(k: K, s: set<K>, rank: K -> int) {
    k in s && forall x :: x in s ==> rank(x) <= rank(k)
  }

  lemma GreatestExists<K(!new)>(s: set<K>, rank: K -> int)
    requires Injective(rank) && s != {}
    ensures IsGreatest(Ascending(s, rank)[|s| - 1], s, rank)
  {
    AscendingIncreases(s, rank);
    AscendingLists(s, rank);
    hide Injective, Ascending;
    var all := Ascending(s, rank);
    assert all[|s| - 1] in Elements(all);
    assert forall x :: x in s ==> x in Elements(all);
  }

  lemma GreatestIsLast<K(!new)>(s: set<K>, rank: K -> int, k: K)
    requires Injective(rank) && IsGreatest(k, s, rank)
    ensures s != {} && k == Ascending(s, rank)[|s| - 1]
  {
    assert s != {};
    GreatestExists(s, rank);
    assert rank(k) == rank(Ascending(s, rank)[|s| - 1]);
  }

  function Below<K>(s: set<K>, rank: K -> int, bound: K): set<K> {
    set k | k in s && rank(k) < rank(bound)
  }

  lemma CutMembership<K(!new)>(ks: seq<K>, rank: K -> int, n: nat, k: K)
    requires Increasing(ks, rank) && n < |ks| && k in ks
    ensures k in ks[..n] <==> rank(k) < rank(ks[n])
  {
    var i :| 0 <= i < |ks| && ks[i] == k;
    if i < n {
      assert ks[..n][i] == k;
    } else {
      assert forall j :: 0 <= j < n ==> rank(ks[j]) < rank(ks[n]);
      assert rank(ks[n]) <= rank(ks[i]);
    }
  }

  /** Cutting the iteration at a position leaves the keys below the key at that position. */
  lemma CutBelow<K(!new)>(s: set<K>, rank: K -> int, n: nat)
    requires Injective(rank) && n < |s|
    ensures Ascending(s, rank)[n] in s
    ensures Ascending(s, rank)[..n] == Ascending(Below(s, rank, Ascending(s, rank)[n]), rank)
  {
    hide Injective, Ascending;
    AscendingIncreases(s, rank);
    AscendingLists(s, rank);
    var all := Ascending(s, rank);
    var next := all[n];
    assert next in Elements(all);
    forall k | k in all
      ensures k in all[..n] <==> rank(k) < rank(next)
    {
      CutMembership(all, rank, n, k);
    }
    assert forall k :: k in s <==> k in Elements(all);
    assert Elements(all[..n]) == Below(s, rank, next);
    AscendingIsUnique(Below(s, rank, next), rank, all[..n]);
  }

  lemma {:induction false} IncreasingIsDistinct<K(!new)>(ks: seq<K>, rank: K -> int)
    requires Increasing(ks, rank)
    ensures |Elements(ks)| == |ks|
  {
    if ks != [] {
      var init, last := ks[..|ks| - 1], ks[|ks| - 1];
      IncreasingIsDistinct(init, rank);
      assert last !in init;
      assert ks == init + [last];
      assert Elements(ks) == Elements(init) + {last};
    }
  }

  lemma NextIsLeast<K(!new)>(rest: set<K>, rank: K -> int, k: K)
    requires Injective(rank) && k in rest && forall x :: x in rest ==> rank(k) <= rank(x)
    ensures Ascending(rest, rank) == [k] + Ascending(rest - {k}, rank)
  {
    assert IsLeast(Least(rest, rank), rest, rank);
    LeastIsUnique(rest, rank, k);
  }

  /** The loop behind `iter().take(n).collect()`: repeatedly visit the least unvisited key. */
  method CollectFirst<K(==,!new)>(s: set<K>, rank: K -> int, n: nat) returns (ks: seq<K>)
    requires Injective(rank)
    ensures ks == First(s, rank, n)
  {
    hide Injective, Ascending;
    ks := [];
    var rest := s;
    while rest != {} && |ks| < n
      invariant ks + Ascending(rest, rank) == Ascending(s, rank)
      invariant |ks| <= n
      decreases n - |ks|
    {
      var k :| k in rest && forall x :: x in rest ==> rank(k) <= rank(x) by {
        assert IsLeast(Least(rest, rank), rest, rank);
      }
      NextIsLeast(rest, rank, k);
      ks := ks + [k];
      rest := rest - {k};
    }
    assert |ks + Ascending(rest, rank)| == |s|;
    FirstIsPrefix(s, rank, n, ks, Ascending(rest, rank));
  }

  lemma FirstIsPrefix<K(!new)>(s: set<K>, rank: K -> int, n: nat, ks: seq<K>, rest: seq<K>)
    requires ks + rest == Ascending(s, rank) && |ks| <= n && (rest == [] || |ks| == n)
    ensures ks == First(s, rank, n)
  {
  }
}
