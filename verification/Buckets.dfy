/** Vectors of key-value pairs kept in the order of their keys
    (Sylar/DataStructure/hash_map.h and util.h). */
module Buckets {
  type Key = int

  datatype Pair<V> = Pair(key: Key, val: V)

  predicate Increasing<V>(s: seq<Pair<V>>) {
    forall i, j :: 0 <= i < j < |s| ==> s[i].key < s[j].key
  }

  predicate HasKey<V>(s: seq<Pair<V>>, k: Key) {
    exists i :: 0 <= i < |s| && s[i].key == k
  }

  /** No key twice. */
  predicate KeysDiffer<V>(s: seq<Pair<V>>) {
    forall i, j :: 0 <= i < j < |s| ==> s[i].key != s[j].key
  }

  // ---------------------------------------------------------------- search

  /** `std::lower_bound`: the first position whose key is not below `k`. */
  method LowerBound<V>(s: seq<Pair<V>>, k: Key) returns (at: nat)
    requires Increasing(s)
    ensures at <= |s|
    ensures forall i :: 0 <= i < at ==> s[i].key < k
    ensures forall i :: at <= i < |s| ==> k <= s[i].key
  {
    var low, high := 0, |s|;
    while low < high
      invariant 0 <= low <= high <= |s|
      invariant forall i :: 0 <= i < low ==> s[i].key < k
      invariant forall i :: high <= i < |s| ==> k <= s[i].key
    {
      var mid := low + (high - low) / 2;
      if s[mid].key < k {
        low := mid + 1;
      } else {
        high := mid;
      }
    }
    at := low;
  }

  /** `BinarySearch`: the position of the key, or the end. */
  method BinarySearch<V>(s: seq<Pair<V>>, k: Key) returns (at: nat)
    requires Increasing(s)
    ensures at <= |s| && (at < |s| ==> s[at].key == k)
    ensures at == |s| <==> !HasKey(s, k)
  {
    at := LowerBound(s, k);
    if at < |s| && k < s[at].key {
      at := |s|;
    }
  }

  // ---------------------------------------------------------------- insertion

  /** Where a new pair belongs. */
  function Placed<V>(s: seq<Pair<V>>, p: Pair<V>): seq<Pair<V>> {
    if s == [] then [p]
    else if p.key < s[|s| - 1].key then Placed(s[..|s| - 1], p) + [s[|s| - 1]]
    else s + [p]
  }

  lemma {:induction false} PlacedHas<V>(s: seq<Pair<V>>, p: Pair<V>, q: Pair<V>)
    ensures q in Placed(s, p) <==> q in s || q == p
    ensures |Placed(s, p)| == |s| + 1
  {
    if s != [] {
      PlacedHas(s[..|s| - 1], p, q);
      assert s == s[..|s| - 1] + [s[|s| - 1]];
    }
  }

  lemma {:induction false} PlacedIsIncreasing<V>(s: seq<Pair<V>>, p: Pair<V>)
    requires Increasing(s) && !HasKey(s, p.key)
    ensures Increasing(Placed(s, p))
  {
    if s != [] && p.key < s[|s| - 1].key {
      var front, last := s[..|s| - 1], s[|s| - 1];
      assert forall i :: 0 <= i < |front| ==> front[i] == s[i];
      PlacedIsIncreasing(front, p);
      forall q | q in Placed(front, p)
        ensures q.key < last.key
      {
        PlacedHas(front, p, q);
        if q != p {
          var i :| 0 <= i < |front| && front[i] == q;
          assert s[i] == q;
        }
      }
      AppendedIsIncreasing(Placed(front, p), last);
    } else if s != [] {
      assert s[|s| - 1].key != p.key;
    }
  }

  lemma AppendedIsIncreasing<V>(s: seq<Pair<V>>, p: Pair<V>)
    requires Increasing(s) && forall q :: q in s ==> q.key < p.key
    ensures Increasing(s + [p])
  {
    assert forall i :: 0 <= i < |s| ==> s[i] in s;
  }

  /** `SortLast`: all but the last pair are in order; the last one sinks to its place. */
  method SortLast<V>(given: seq<Pair<V>>) returns (s: seq<Pair<V>>)
    requires given != [] && Increasing(given[..|given| - 1])
    ensures s == Placed(given[..|given| - 1], given[|given| - 1])
  {
    s := given;
    ghost var n, p := |given| - 1, given[|given| - 1];
    var i := |s| - 2;
    while i >= 0
      invariant -1 <= i < n && |s| == |given| && s[i + 1] == p && s[..i + 1] == given[..i + 1]
      invariant Placed(given[..n], p) == Placed(given[..i + 1], p) + s[i + 2..]
    {
      assert given[..i + 1][..i] == given[..i];
      if s[i + 1].key < s[i].key {
        assert Placed(given[..i + 1], p) == Placed(given[..i], p) + [given[i]];
        s := s[i := s[i + 1]][i + 1 := s[i]];
        i := i - 1;
      } else {
        assert Placed(given[..i + 1], p) == given[..i + 1] + [p];
        assert s == given[..i + 1] + [p] + s[i + 2..];
        return;
      }
    }
    assert s == [p] + s[1..];
  }

  // ---------------------------------------------------------------- sorting

  /** `std::sort`, as far as it is determined: on pairs with different keys there is one
      result in order. */
  function Sorted<V>(s: seq<Pair<V>>): seq<Pair<V>> {
    if s == [] then [] else Placed(Sorted(s[..|s| - 1]), s[|s| - 1])
  }

  lemma {:induction false} SortedHas<V>(s: seq<Pair<V>>, q: Pair<V>)
    ensures q in Sorted(s) <==> q in s
    ensures |Sorted(s)| == |s|
  {
    if s != [] {
      SortedHas(s[..|s| - 1], q);
      PlacedHas(Sorted(s[..|s| - 1]), s[|s| - 1], q);
      assert s == s[..|s| - 1] + [s[|s| - 1]];
    }
  }

  lemma {:induction false} SortedIsIncreasing<V>(s: seq<Pair<V>>)
    requires KeysDiffer(s)
    ensures Increasing(Sorted(s))
  {
    if s != [] {
      var front, p := s[..|s| - 1], s[|s| - 1];
      SortedIsIncreasing(front);
      forall i | 0 <= i < |Sorted(front)|
        ensures Sorted(front)[i].key != p.key
      {
        SortedHas(front, Sorted(front)[i]);
        var j :| 0 <= j < |front| && front[j] == Sorted(front)[i];
        assert s[j] == front[j];
      }
      PlacedIsIncreasing(Sorted(front), p);
    }
  }

  lemma LeastIsFirst<V>(a: seq<Pair<V>>, q: Pair<V>)
    requires Increasing(a) && q in a
    ensures a[0].key <= q.key && (q.key == a[0].key ==> q == a[0])
    ensures q in a[1..] <==> q != a[0]
  {
    var i :| 0 <= i < |a| && a[i] == q;
    if i > 0 {
      assert a[1..][i - 1] == q;
    }
  }

  /** Two vectors in order with the same pairs are the same. */
  lemma {:induction false} OneOrder<V>(a: seq<Pair<V>>, b: seq<Pair<V>>)
    requires Increasing(a) && Increasing(b) && forall q :: q in a <==> q in b
    ensures a == b
  {
    assert forall i :: 0 <= i < |a| ==> a[i] in a && a[i] in b;
    assert forall i :: 0 <= i < |b| ==> b[i] in b && b[i] in a;
    if a != [] && b != [] {
      LeastIsFirst(a, b[0]);
      LeastIsFirst(b, a[0]);
      forall q
        ensures q in a[1..] <==> q in b[1..]
      {
        if q in a {
          LeastIsFirst(a, q);
          LeastIsFirst(b, q);
        }
      }
      OneOrder(a[1..], b[1..]);
      assert a == [a[0]] + a[1..] && b == [b[0]] + b[1..];
    }
  }
}
