/** What the least-recently-used caches promise (Sylar/DataStructure/LRU_Cache.h and
    timed_lru_cache.h), as operations on the list of their items, latest touched first. */
module Caches {
  type Key = int

  datatype Item<V> = Item(key: Key, val: V, deadline: nat)

  predicate Unique<V>(s: seq<Item<V>>) {
    forall i, j :: 0 <= i < j < |s| ==> s[i].key != s[j].key
  }

  predicate Has<V>(s: seq<Item<V>>, k: Key) {
    exists i :: 0 <= i < |s| && s[i].key == k
  }

  /** The item of a key. */
  function Lookup<V>(s: seq<Item<V>>, k: Key): (it: Item<V>)
    requires Has(s, k)
    ensures it in s && it.key == k
  {
    if s[0].key == k then s[0] else Lookup(s[1..], k)
  }

  function Without<V>(s: seq<Item<V>>, k: Key): seq<Item<V>> {
    if s == [] then [] else if s[0].key == k then Without(s[1..], k) else [s[0]] + Without(s[1..], k)
  }

  /** The limits of a cache: the size it prunes to, and how far it may grow beyond. */
  datatype Limits = Limits(maxSize: nat, elasticity: nat)

  function Pruned<V>(s: seq<Item<V>>, lim: Limits): seq<Item<V>> {
    if lim.maxSize == 0 || |s| < lim.maxSize + lim.elasticity || |s| <= lim.maxSize then s else s[..lim.maxSize]
  }

  function AfterSet<V>(s: seq<Item<V>>, it: Item<V>, lim: Limits): seq<Item<V>> {
    if Has(s, it.key) then [it] + Without(s, it.key) else Pruned([it] + s, lim)
  }

  function AfterGet<V>(s: seq<Item<V>>, k: Key): seq<Item<V>> {
    if Has(s, k) then [Lookup(s, k)] + Without(s, k) else s
  }

  /** The items whose deadline lies after `ts`, in the same order. */
  function Alive<V>(s: seq<Item<V>>, ts: nat): seq<Item<V>> {
    if s == [] then [] else if s[0].deadline <= ts then Alive(s[1..], ts) else [s[0]] + Alive(s[1..], ts)
  }

  /** Exactly the items past their deadline are gone. */
  lemma {:induction false} AliveIsExact<V>(s: seq<Item<V>>, ts: nat)
    ensures forall it :: it in Alive(s, ts) <==> it in s && it.deadline > ts
  {
    if s != [] {
      AliveIsExact(s[1..], ts);
      assert forall it :: it in s <==> it == s[0] || it in s[1..];
    }
  }

  // ---------------------------------------------------------------- runs

  datatype Op<V> = Set(item: Item<V>) | Get(key: Key) | Del(key: Key) | Expire(ts: nat) | Clear

  /** The items of a cache, with what its history says of each key: when it was touched last,
      what was stored under it last, and whether it has been removed since: deleted, cleared
      or found past its deadline. */
  datatype Past<V> = Past(
    items: seq<Item<V>>, now: nat, touched: map<Key, nat>, stored: map<Key, Item<V>>, removed: set<Key>)

  function Blank<V>(): Past<V> {
    Past([], 0, map[], map[], {})
  }

  function Step<V>(p: Past<V>, op: Op<V>, lim: Limits): Past<V> {
    match op
    case Set(it) =>
      Past(AfterSet(p.items, it, lim), p.now + 1, p.touched[it.key := p.now], p.stored[it.key := it],
        p.removed - {it.key})
    case Get(k) =>
      p.(items := AfterGet(p.items, k), now := p.now + 1,
         touched := if Has(p.items, k) then p.touched[k := p.now] else p.touched)
    case Del(k) => p.(items := Without(p.items, k), now := p.now + 1, removed := p.removed + {k})
    case Expire(ts) =>
      p.(items := Alive(p.items, ts), now := p.now + 1,
         removed := p.removed + set k | k in p.stored && p.stored[k].deadline <= ts)
    case Clear => p.(items := [], now := p.now + 1, removed := p.removed + p.touched.Keys)
  }

  function Run<V>(ops: seq<Op<V>>, lim: Limits): Past<V> {
    if ops == [] then Blank() else Step(Run(ops[..|ops| - 1], lim), ops[|ops| - 1], lim)
  }

  /** The most items that a cache with a limit holds between operations. */
  function Ceiling(lim: Limits): nat {
    if lim.elasticity == 0 then lim.maxSize else lim.maxSize + lim.elasticity - 1
  }

  /** Each item is what was stored last under its key, and was touched before `bound`; the
      items after it were touched before it. */
  ghost predicate Descends<V>(s: seq<Item<V>>, touched: map<Key, nat>, stored: map<Key, Item<V>>, bound: nat) {
    s == [] ||
    (var k := s[0].key;
     && k in touched && touched[k] < bound && k in stored && stored[k] == s[0]
     && Descends(s[1..], touched, stored, touched[k]))
  }

  ghost predicate Faithful<V>(p: Past<V>) {
    Descends(p.items, p.touched, p.stored, p.now)
  }

  lemma {:induction false} DescendsAt<V>(s: seq<Item<V>>, t: map<Key, nat>, st: map<Key, Item<V>>, b: nat, i: nat)
    requires Descends(s, t, st, b) && i < |s|
    ensures s[i].key in t && t[s[i].key] < b && s[i].key in st && st[s[i].key] == s[i]
    ensures Descends(s[i + 1..], t, st, t[s[i].key])
  {
    if i > 0 {
      DescendsAt(s[1..], t, st, t[s[0].key], i - 1);
      assert s[1..][i - 1] == s[i] && s[1..][i..] == s[i + 1..];
    }
  }

  lemma {:induction false} DescendsWeaker<V>(s: seq<Item<V>>, t: map<Key, nat>, st: map<Key, Item<V>>, b: nat, c: nat)
    requires Descends(s, t, st, b) && b <= c
    ensures Descends(s, t, st, c)
  {
  }

  /** Items in a faithful list differ in their last touch, and hence in their keys. */
  lemma {:induction false} DescendsOrders<V>(
      s: seq<Item<V>>, t: map<Key, nat>, st: map<Key, Item<V>>, b: nat, i: nat, j: nat)
    requires Descends(s, t, st, b) && i < j < |s|
    ensures s[i].key in t && s[j].key in t && t[s[i].key] > t[s[j].key]
  {
    DescendsAt(s, t, st, b, i);
    DescendsAt(s[i + 1..], t, st, t[s[i].key], j - i - 1);
    assert s[i + 1..][j - i - 1] == s[j];
  }

  lemma {:induction false} DescendsWithout<V>(s: seq<Item<V>>, t: map<Key, nat>, st: map<Key, Item<V>>, b: nat,
                                               k: Key, t': map<Key, nat>, st': map<Key, Item<V>>)
    requires Descends(s, t, st, b)
    requires forall x :: x in t && x != k ==> x in t' && t'[x] == t[x]
    requires forall x :: x in st && x != k ==> x in st' && st'[x] == st[x]
    ensures Descends(Without(s, k), t', st', b)
  {
    if s != [] {
      DescendsWithout(s[1..], t, st, t[s[0].key], k, t', st');
      if s[0].key == k {
        DescendsWeaker(Without(s[1..], k), t', st', t[s[0].key], b);
      } else {
        assert Without(s, k)[1..] == Without(s[1..], k);
      }
    }
  }

  lemma {:induction false} WithoutAbsent<V>(s: seq<Item<V>>, k: Key)
    requires !Has(s, k)
    ensures Without(s, k) == s
  {
    if s != [] {
      assert s[0].key != k;
      assert forall i :: 0 <= i < |s| - 1 ==> s[1..][i] == s[i + 1];
      WithoutAbsent(s[1..], k);
      assert s == [s[0]] + s[1..];
    }
  }

  lemma {:induction false} DescendsPrefix<V>(s: seq<Item<V>>, t: map<Key, nat>, st: map<Key, Item<V>>, b: nat, n: nat)
    requires Descends(s, t, st, b) && n <= |s|
    ensures Descends(s[..n], t, st, b)
  {
    if n > 0 {
      DescendsPrefix(s[1..], t, st, t[s[0].key], n - 1);
      assert s[..n][1..] == s[1..][..n - 1];
    }
  }

  lemma {:induction false} DescendsAlive<V>(s: seq<Item<V>>, t: map<Key, nat>, st: map<Key, Item<V>>, b: nat, ts: nat)
    requires Descends(s, t, st, b)
    ensures Descends(Alive(s, ts), t, st, b)
  {
    if s != [] {
      DescendsAlive(s[1..], t, st, t[s[0].key], ts);
      if s[0].deadline <= ts {
        DescendsWeaker(Alive(s[1..], ts), t, st, t[s[0].key], b);
      } else {
        assert Alive(s, ts)[1..] == Alive(s[1..], ts);
      }
    }
  }

  lemma DescendsFront<V>(it: Item<V>, s: seq<Item<V>>, t: map<Key, nat>, st: map<Key, Item<V>>, now: nat)
    requires it.key in t && t[it.key] == now && it.key in st && st[it.key] == it && Descends(s, t, st, now)
    ensures Descends([it] + s, t, st, now + 1)
  {
    assert ([it] + s)[1..] == s;
  }

  lemma {:induction false} LookupIsStored<V>(p: Past<V>, k: Key)
    requires Faithful(p) && Has(p.items, k)
    ensures k in p.stored && Lookup(p.items, k) == p.stored[k]
  {
    var it := Lookup(p.items, k);
    var i :| 0 <= i < |p.items| && p.items[i] == it;
    DescendsAt(p.items, p.touched, p.stored, p.now, i);
  }

  lemma StepIsFaithful<V>(p: Past<V>, op: Op<V>, lim: Limits)
    requires Faithful(p)
    ensures Faithful(Step(p, op, lim))
  {
    var q := Step(p, op, lim);
    match op
    case Set(it) =>
      DescendsWithout(p.items, p.touched, p.stored, p.now, it.key, q.touched, q.stored);
      if !Has(p.items, it.key) {
        WithoutAbsent(p.items, it.key);
      }
      DescendsFront(it, Without(p.items, it.key), q.touched, q.stored, p.now);
      var all := [it] + Without(p.items, it.key);
      DescendsPrefix(all, q.touched, q.stored, q.now, |q.items|);
      assert q.items == all[..|q.items|];
    case Get(k) =>
      if Has(p.items, k) {
        LookupIsStored(p, k);
        DescendsWithout(p.items, p.touched, p.stored, p.now, k, q.touched, q.stored);
        DescendsFront(Lookup(p.items, k), Without(p.items, k), q.touched, q.stored, p.now);
      } else {
        DescendsWeaker(p.items, p.touched, p.stored, p.now, q.now);
      }
    case Del(k) =>
      DescendsWithout(p.items, p.touched, p.stored, p.now, k, q.touched, q.stored);
      DescendsWeaker(q.items, p.touched, p.stored, p.now, q.now);
    case Expire(ts) =>
      DescendsAlive(p.items, p.touched, p.stored, p.now, ts);
      DescendsWeaker(q.items, p.touched, p.stored, p.now, q.now);
    case Clear =>
  }

  lemma {:induction false} Shrinks<V>(s: seq<Item<V>>, k: Key, ts: nat)
    ensures |Without(s, k)| <= |s| && |Alive(s, ts)| <= |s|
    ensures Has(s, k) ==> |Without(s, k)| < |s|
  {
    if s != [] {
      Shrinks(s[1..], k, ts);
      if Has(s, k) && s[0].key != k {
        var i :| 0 <= i < |s| && s[i].key == k;
        assert s[1..][i - 1].key == k;
      }
    }
  }

  lemma StepIsBounded<V>(p: Past<V>, op: Op<V>, lim: Limits)
    requires lim.maxSize > 0 && |p.items| <= Ceiling(lim)
    ensures |Step(p, op, lim).items| <= Ceiling(lim)
  {
    match op
    case Set(it) => Shrinks(p.items, it.key, 0);
    case Get(k) => Shrinks(p.items, k, 0);
    case Del(k) => Shrinks(p.items, k, 0);
    case Expire(ts) => Shrinks(p.items, 0, ts);
    case Clear =>
  }

  lemma {:induction false} RunIsFaithful<V>(ops: seq<Op<V>>, lim: Limits)
    ensures Faithful(Run(ops, lim))
    ensures lim.maxSize > 0 ==> |Run(ops, lim).items| <= Ceiling(lim)
  {
    if ops != [] {
      RunIsFaithful(ops[..|ops| - 1], lim);
      StepIsFaithful(Run(ops[..|ops| - 1], lim), ops[|ops| - 1], lim);
      if lim.maxSize > 0 {
        StepIsBounded(Run(ops[..|ops| - 1], lim), ops[|ops| - 1], lim);
      }
    }
  }

  /** The keys are distinct and in the order of their last touch, each holds what was stored
      under it last, and there are not too many. */
  ghost predicate IsRecent<V>(p: Past<V>, lim: Limits) {
    && Unique(p.items)
    && (forall i :: 0 <= i < |p.items| ==> p.items[i].key in p.touched && p.items[i].key in p.stored)
    && (forall i, j :: 0 <= i < j < |p.items| ==> p.touched[p.items[i].key] > p.touched[p.items[j].key])
    && (forall i :: 0 <= i < |p.items| ==> p.items[i] == p.stored[p.items[i].key])
    && (lim.maxSize > 0 ==> |p.items| <= Ceiling(lim))
  }

  /** So it is after any history. */
  lemma {:induction false} EveryRunIsRecent<V>(ops: seq<Op<V>>, lim: Limits)
    ensures IsRecent(Run(ops, lim), lim)
  {
    var p := Run(ops, lim);
    RunIsFaithful(ops, lim);
    forall i | 0 <= i < |p.items|
      ensures p.items[i].key in p.touched && p.items[i].key in p.stored && p.items[i] == p.stored[p.items[i].key]
    {
      DescendsAt(p.items, p.touched, p.stored, p.now, i);
    }
    forall i, j | 0 <= i < j < |p.items|
      ensures p.touched[p.items[i].key] > p.touched[p.items[j].key]
    {
      DescendsOrders(p.items, p.touched, p.stored, p.now, i, j);
    }
  }

  /** A `set` of a present key evicts nothing. */
  lemma OverwritingKeeps<V>(s: seq<Item<V>>, it: Item<V>, lim: Limits, e: Item<V>)
    requires Has(s, it.key) && e in s && e.key != it.key
    ensures Has(AfterSet(s, it, lim), e.key)
  {
    WithoutKeeps(s, it.key, e);
    var n :| 0 <= n < |Without(s, it.key)| && Without(s, it.key)[n] == e;
    assert AfterSet(s, it, lim)[n + 1].key == e.key;
  }

  lemma {:induction false} WithoutKeeps<V>(s: seq<Item<V>>, k: Key, it: Item<V>)
    requires it in s && it.key != k
    ensures it in Without(s, k)
  {
    if s[0] != it {
      WithoutKeeps(s[1..], k, it);
    }
  }

  lemma PrefixHas<V>(s: seq<Item<V>>, it: Item<V>, after: seq<Item<V>>, j: nat)
    requires after <= [it] + s && j + 1 < |after|
    ensures Has(after, s[j].key)
  {
    assert after[j + 1] == ([it] + s)[j + 1];
  }

  /** What a `set` evicts was touched before everything that it keeps. */
  lemma EvictedAreOldest<V>(p: Past<V>, it: Item<V>, lim: Limits, i: nat, j: nat)
    requires Faithful(p) && i < |p.items| && j < |p.items|
    requires Has(AfterSet(p.items, it, lim), p.items[i].key) && p.items[i].key != it.key
    requires !Has(AfterSet(p.items, it, lim), p.items[j].key) && p.items[j].key != it.key
    ensures p.items[i].key in p.touched && p.items[j].key in p.touched
    ensures p.touched[p.items[i].key] > p.touched[p.items[j].key]
  {
    var s, after := p.items, AfterSet(p.items, it, lim);
    if Has(s, it.key) {
      OverwritingKeeps(s, it, lim, s[j]);
    }
    assert after == ([it] + s)[..|after|];
    var n :| 0 <= n < |after| && after[n].key == s[i].key;
    assert n > 0 && after[n] == s[n - 1];
    if j + 1 < |after| {
      PrefixHas(s, it, after, j);
    }
    DescendsAt(s, p.touched, p.stored, p.now, i);
    DescendsOrders(s, p.touched, p.stored, p.now, n - 1, j);
  }

  // ---------------------------------------------------------------- what is kept

  /** The keys that were touched after `k`. */
  function TouchedAfter(touched: map<Key, nat>, k: Key): set<Key>
    requires k in touched
  {
    set x | x in touched && touched[x] > touched[k]
  }

  /** A key that is missing was removed, or at least as many keys as the limit allows have been
      touched after it. */
  ghost predicate Accounted<V>(p: Past<V>, lim: Limits, k: Key) {
    k in p.touched && k !in p.removed && !Has(p.items, k) ==>
      lim.maxSize > 0 && |TouchedAfter(p.touched, k)| >= lim.maxSize
  }

  ghost predicate Retains<V>(p: Past<V>, lim: Limits) {
    && (forall k :: k in p.touched ==> p.touched[k] < p.now)
    && (forall k :: Accounted(p, lim, k))
  }

  lemma SubsetCard(a: set<Key>, b: set<Key>)
    requires a <= b
    ensures |a| <= |b|
  {
    assert b == a + (b - a);
  }

  function KeySet<V>(s: seq<Item<V>>): set<Key> {
    if s == [] then {} else {s[0].key} + KeySet(s[1..])
  }

  lemma {:induction false} KeySetHas<V>(s: seq<Item<V>>)
    requires Unique(s)
    ensures |KeySet(s)| == |s| && forall k :: k in KeySet(s) <==> Has(s, k)
  {
    if s != [] {
      var tail := s[1..];
      assert forall i :: 0 <= i < |tail| ==> tail[i] == s[i + 1];
      KeySetHas(tail);
      forall k
        ensures k in KeySet(s) <==> Has(s, k)
      {
        if Has(s, k) && s[0].key != k {
          var i :| 0 <= i < |s| && s[i].key == k;
          assert tail[i - 1].key == k;
        }
        if Has(tail, k) {
          var i :| 0 <= i < |tail| && tail[i].key == k;
          assert s[i + 1].key == k;
        }
      }
    }
  }

  /** Touching another key, now, can only add to the keys touched after `k`. */
  lemma TouchedAfterGrows<V>(p: Past<V>, lim: Limits, k: Key, other: Key)
    requires Retains(p, lim) && k in p.touched && k != other
    ensures |TouchedAfter(p.touched, k)| <= |TouchedAfter(p.touched[other := p.now], k)|
  {
    SubsetCard(TouchedAfter(p.touched, k), TouchedAfter(p.touched[other := p.now], k));
  }

  lemma FaithfulIsUnique<V>(p: Past<V>)
    requires Faithful(p)
    ensures Unique(p.items)
  {
    forall i, j | 0 <= i < j < |p.items|
      ensures p.items[i].key != p.items[j].key
    {
      DescendsOrders(p.items, p.touched, p.stored, p.now, i, j);
    }
  }

  /** What a `set` evicts is older than everything that stays, and the cache is full then. */
  lemma EvictionIsAccounted<V>(p: Past<V>, it: Item<V>, lim: Limits, k: Key)
    requires Faithful(p) && Retains(p, lim) && Has(p.items, k) && k in p.touched && k != it.key
    requires !Has(AfterSet(p.items, it, lim), k)
    ensures Accounted(Step(p, Set(it), lim), lim, k)
  {
    var q, j := Step(p, Set(it), lim), At(p.items, k);
    if Has(p.items, it.key) {
      OverwritingKeeps(p.items, it, lim, p.items[j]);
    }
    assert q.items == ([it] + p.items)[..|q.items|];
    assert ([it] + p.items)[j + 1].key == k;
    assert |q.items| == lim.maxSize;
    StepIsFaithful(p, Set(it), lim);
    FaithfulIsUnique(q);
    KeySetHas(q.items);
    forall x | x in KeySet(q.items)
      ensures x in TouchedAfter(q.touched, k)
    {
      var n := At(q.items, x);
      if n > 0 {
        assert q.items[n] == p.items[n - 1];
        if x != it.key {
          EvictedAreOldest(p, it, lim, n - 1, j);
        }
      }
    }
    SubsetCard(KeySet(q.items), TouchedAfter(q.touched, k));
  }

  /** Where the key is. */
  function At<V>(s: seq<Item<V>>, k: Key): (i: nat)
    requires Has(s, k)
    ensures i < |s| && s[i].key == k
  {
    if s[0].key == k then 0
    else
      assert exists i :: 0 <= i < |s[1..]| && s[1..][i].key == k by {
        var i :| 0 <= i < |s| && s[i].key == k;
        assert s[1..][i - 1] == s[i];
      }
      1 + At(s[1..], k)
  }

  lemma HasFront<V>(it: Item<V>, s: seq<Item<V>>)
    ensures Has([it] + s, it.key)
  {
    assert ([it] + s)[0] == it;
  }

  lemma {:induction false} WithoutHas<V>(s: seq<Item<V>>, k: Key, x: Key)
    requires Has(s, x) && x != k
    ensures Has(Without(s, k), x)
  {
    WithoutKeeps(s, k, s[At(s, x)]);
    var i :| 0 <= i < |Without(s, k)| && Without(s, k)[i] == s[At(s, x)];
  }

  lemma SetRetains<V>(p: Past<V>, it: Item<V>, lim: Limits, k: Key)
    requires Faithful(p) && Retains(p, lim)
    ensures Accounted(Step(p, Set(it), lim), lim, k)
  {
    var q := Step(p, Set(it), lim);
    if k == it.key {
      assert q.items[0] == it;
    } else if k in p.touched && k !in p.removed {
      assert Accounted(p, lim, k);
      TouchedAfterGrows(p, lim, k, it.key);
      if Has(p.items, k) && !Has(q.items, k) {
        EvictionIsAccounted(p, it, lim, k);
      }
    }
  }

  lemma GetRetains<V>(p: Past<V>, g: Key, lim: Limits, k: Key)
    requires Retains(p, lim)
    ensures Accounted(Step(p, Get(g), lim), lim, k)
  {
    assert Accounted(p, lim, k);
    if Has(p.items, g) {
      HasFront(Lookup(p.items, g), Without(p.items, g));
      if k != g && k in p.touched {
        TouchedAfterGrows(p, lim, k, g);
        if Has(p.items, k) {
          WithoutHas(p.items, g, k);
          var i := At(Without(p.items, g), k);
          assert ([Lookup(p.items, g)] + Without(p.items, g))[i + 1].key == k;
        }
      }
    }
  }

  lemma ExpireRetains<V>(p: Past<V>, ts: nat, lim: Limits, k: Key)
    requires Faithful(p) && Retains(p, lim)
    ensures Accounted(Step(p, Expire(ts), lim), lim, k)
  {
    assert Accounted(p, lim, k);
    var q := Step(p, Expire(ts), lim);
    if Has(p.items, k) && k !in q.removed {
      LookupIsStored(p, k);
      AliveIsExact(p.items, ts);
      var i :| 0 <= i < |q.items| && q.items[i] == p.stored[k];
    }
  }

  lemma StepRetains<V>(p: Past<V>, op: Op<V>, lim: Limits)
    requires Faithful(p) && Retains(p, lim)
    ensures Retains(Step(p, op, lim), lim)
  {
    forall k
      ensures Accounted(Step(p, op, lim), lim, k)
    {
      match op
      case Set(it) => SetRetains(p, it, lim, k);
      case Get(g) => GetRetains(p, g, lim, k);
      case Del(d) =>
        assert Accounted(p, lim, k);
        if Has(p.items, k) && k != d {
          WithoutHas(p.items, d, k);
        }
      case Expire(ts) => ExpireRetains(p, ts, lim, k);
      case Clear => assert Accounted(p, lim, k);
    }
  }

  lemma {:induction false} RunRetains<V>(ops: seq<Op<V>>, lim: Limits)
    ensures Retains(Run(ops, lim), lim)
  {
    if ops != [] {
      RunIsFaithful(ops[..|ops| - 1], lim);
      RunRetains(ops[..|ops| - 1], lim);
      StepRetains(Run(ops[..|ops| - 1], lim), ops[|ops| - 1], lim);
    }
  }

  /** A key that is among the last `maxSize` keys touched, and has not been removed since, is
      there with what was stored under it last; without a limit every key is. */
  ghost predicate KeepsRecent<V>(p: Past<V>, lim: Limits, k: Key) {
    && k in p.touched && k !in p.removed
    && (lim.maxSize == 0 || |TouchedAfter(p.touched, k)| < lim.maxSize)
    ==> Has(p.items, k) && k in p.stored && Lookup(p.items, k) == p.stored[k]
  }

  /** So it is after any history. */
  lemma {:induction false} RecentIsKept<V>(ops: seq<Op<V>>, lim: Limits, k: Key)
    ensures KeepsRecent(Run(ops, lim), lim, k)
  {
    var p := Run(ops, lim);
    RunRetains(ops, lim);
    assert Accounted(p, lim, k);
    RunIsFaithful(ops, lim);
    if Has(p.items, k) {
      LookupIsStored(p, k);
    }
  }

  /** After any history, a `set` evicts something if and only if its key is new and the items,
      with the new one, come to more than the limit and to the limit and the elasticity at least;
      then exactly as many stay as the limit says, the new one among them. */
  lemma {:induction false} SetEvictsExactly<V>(ops: seq<Op<V>>, it: Item<V>, lim: Limits)
    ensures var s := Run(ops, lim).items;
      var s' := Run(ops + [Set(it)], lim).items;
      && s' != [] && s'[0] == it
      && ((exists k :: Has(s, k) && !Has(s', k)) <==>
          lim.maxSize > 0 && !Has(s, it.key) && |s| + 1 > lim.maxSize && |s| + 1 >= lim.maxSize + lim.elasticity)
      && ((exists k :: Has(s, k) && !Has(s', k)) ==> |s'| == lim.maxSize)
  {
    var p := Run(ops, lim);
    RunMore(ops, Set(it), lim);
    RunIsFaithful(ops, lim);
    FaithfulIsUnique(p);
    if Has(p.items, it.key) {
      OverwritingKeepsAll(p.items, it, lim);
    } else {
      InsertingEvictsExactly(p.items, it, lim);
    }
  }

  lemma {:induction false} OverwritingKeepsAll<V>(s: seq<Item<V>>, it: Item<V>, lim: Limits)
    requires Has(s, it.key)
    ensures forall k :: Has(s, k) ==> Has(AfterSet(s, it, lim), k)
  {
    forall k | Has(s, k)
      ensures Has(AfterSet(s, it, lim), k)
    {
      if k == it.key {
        HasFront(it, Without(s, k));
      } else {
        OverwritingKeeps(s, it, lim, s[At(s, k)]);
      }
    }
  }

  lemma {:induction false} InsertingEvictsExactly<V>(s: seq<Item<V>>, it: Item<V>, lim: Limits)
    requires Unique(s) && !Has(s, it.key)
    ensures var s' := AfterSet(s, it, lim);
      && ((exists k :: Has(s, k) && !Has(s', k)) <==>
          lim.maxSize > 0 && |s| + 1 > lim.maxSize && |s| + 1 >= lim.maxSize + lim.elasticity)
      && ((exists k :: Has(s, k) && !Has(s', k)) ==> |s'| == lim.maxSize)
  {
    var all, s' := [it] + s, AfterSet(s, it, lim);
    if s' == all {
      forall k | Has(s, k)
        ensures Has(s', k)
      {
        assert all[At(s, k) + 1].key == k;
      }
    } else {
      var last := s[|s| - 1].key;
      assert all[|s|].key == last;
      assert Has(s, last) && !Has(s', last);
    }
  }

  /** What was deleted, cleared or found past its deadline is gone until it is set again. */
  lemma {:induction false} RemovedIsGone<V>(ops: seq<Op<V>>, lim: Limits, k: Key)
    requires k in Run(ops, lim).removed
    ensures !Has(Run(ops, lim).items, k)
  {
    if ops != [] {
      var before, last := ops[..|ops| - 1], ops[|ops| - 1];
      RunIsFaithful(before, lim);
      if k in Run(before, lim).removed {
        RemovedIsGone(before, lim, k);
      }
      StepRemoves(Run(before, lim), last, lim, k);
    }
  }

  lemma {:induction false} StepRemoves<V>(p: Past<V>, op: Op<V>, lim: Limits, k: Key)
    requires Faithful(p) && (k in p.removed ==> !Has(p.items, k)) && k in Step(p, op, lim).removed
    ensures !Has(Step(p, op, lim).items, k)
  {
    var q := Step(p, op, lim);
    match op
    case Set(it) => WithoutOnlyLoses(p.items, it.key, k);
    case Get(g) => WithoutOnlyLoses(p.items, g, k);
    case Del(d) => WithoutOnlyLoses(p.items, d, k);
    case Clear =>
    case Expire(ts) =>
      AliveIsExact(p.items, ts);
      if Has(q.items, k) {
        var it := q.items[At(q.items, k)];
        assert it in p.items && it.deadline > ts;
        var i :| 0 <= i < |p.items| && p.items[i] == it;
        DescendsAt(p.items, p.touched, p.stored, p.now, i);
      }
  }

  /** Exactly the items of the key go. */
  lemma {:induction false} WithoutIsExact<V>(s: seq<Item<V>>, k: Key)
    ensures forall it :: it in Without(s, k) <==> it in s && it.key != k
  {
    if s != [] {
      WithoutIsExact(s[1..], k);
      assert forall it :: it in s <==> it == s[0] || it in s[1..];
    }
  }

  lemma {:induction false} WithoutOnlyLoses<V>(s: seq<Item<V>>, k: Key, x: Key)
    ensures Has(Without(s, k), x) ==> Has(s, x) && x != k
  {
    WithoutIsExact(s, k);
    if Has(Without(s, k), x) {
      var it := Without(s, k)[At(Without(s, k), x)];
      assert it in Without(s, k);
    }
  }

  // ---------------------------------------------------------------- shards

  type Hash = Key -> nat

  function Shard(k: Key, hash: Hash, buckets: nat): (i: nat)
    requires buckets > 0
    ensures i < buckets
  {
    hash(k) % buckets
  }

  /** `ceil(n / buckets)`: the limit of one shard. */
  function Share(n: nat, buckets: nat): nat
    requires buckets > 0
  {
    (n + buckets - 1) / buckets
  }

  function ShareLimits(lim: Limits, buckets: nat): Limits
    requires buckets > 0
  {
    Limits(Share(lim.maxSize, buckets), Share(lim.elasticity, buckets))
  }

  /** Operations on a key go to its shard, the others to all. */
  function ShardedStep<V>(ps: seq<Past<V>>, op: Op<V>, hash: Hash, lim: Limits): (r: seq<Past<V>>)
    requires ps != []
    ensures |r| == |ps|
  {
    if op.Expire? || op.Clear? then seq(|ps|, i requires 0 <= i < |ps| => Step(ps[i], op, lim))
    else
      var i := Shard(if op.Set? then op.item.key else op.key, hash, |ps|);
      ps[i := Step(ps[i], op, lim)]
  }

  function ShardedRun<V>(ops: seq<Op<V>>, buckets: nat, hash: Hash, lim: Limits): (ps: seq<Past<V>>)
    requires buckets > 0
    ensures |ps| == buckets
  {
    if ops == [] then seq(buckets, _ => Blank())
    else ShardedStep(ShardedRun(ops[..|ops| - 1], buckets, hash, lim), ops[|ops| - 1], hash, lim)
  }

  predicate AtHome<V>(s: seq<Item<V>>, i: nat, hash: Hash, buckets: nat)
    requires buckets > 0
  {
    forall j :: 0 <= j < |s| ==> Shard(s[j].key, hash, buckets) == i
  }

  lemma {:induction false} FilteredAreThere<V>(s: seq<Item<V>>, k: Key, ts: nat)
    ensures forall it :: it in Without(s, k) ==> it in s
    ensures forall it :: it in Alive(s, ts) ==> it in s
  {
    if s != [] {
      FilteredAreThere(s[1..], k, ts);
    }
  }

  /** An operation brings no key into a shard but its own. */
  lemma StepStaysHome<V>(p: Past<V>, op: Op<V>, i: nat, hash: Hash, buckets: nat, lim: Limits)
    requires buckets > 0 && AtHome(p.items, i, hash, buckets)
    requires op.Set? ==> Shard(op.item.key, hash, buckets) == i
    ensures AtHome(Step(p, op, lim).items, i, hash, buckets)
  {
    var q := Step(p, op, lim);
    var k := if op.Set? then op.item.key else if op.Get? || op.Del? then op.key else 0;
    FilteredAreThere(p.items, k, if op.Expire? then op.ts else 0);
    forall j | 0 <= j < |q.items|
      ensures Shard(q.items[j].key, hash, buckets) == i
    {
      if !(op.Set? && q.items[j] == op.item) {
        assert q.items[j] in p.items;
      }
    }
  }

  ghost predicate ShardsOk<V>(ps: seq<Past<V>>, hash: Hash, lim: Limits)
  {
    && ps != []
    && (forall i :: 0 <= i < |ps| ==> AtHome(ps[i].items, i, hash, |ps|))
    && (forall i :: 0 <= i < |ps| ==> Faithful(ps[i]) && (lim.maxSize > 0 ==> |ps[i].items| <= Ceiling(lim)))
  }

  lemma ShardedStepOk<V>(ps: seq<Past<V>>, op: Op<V>, hash: Hash, lim: Limits)
    requires ShardsOk(ps, hash, lim)
    ensures ShardsOk(ShardedStep(ps, op, hash, lim), hash, lim)
  {
    var qs := ShardedStep(ps, op, hash, lim);
    forall i | 0 <= i < |ps|
      ensures AtHome(qs[i].items, i, hash, |ps|)
      ensures Faithful(qs[i]) && (lim.maxSize > 0 ==> |qs[i].items| <= Ceiling(lim))
    {
      if qs[i] != ps[i] {
        StepStaysHome(ps[i], op, i, hash, |ps|, lim);
        StepIsFaithful(ps[i], op, lim);
        if lim.maxSize > 0 {
          StepIsBounded(ps[i], op, lim);
        }
      }
    }
  }

  lemma {:induction false} ShardedRunOk<V>(ops: seq<Op<V>>, buckets: nat, hash: Hash, lim: Limits)
    requires buckets > 0
    ensures ShardsOk(ShardedRun(ops, buckets, hash, lim), hash, lim)
  {
    if ops != [] {
      ShardedRunOk(ops[..|ops| - 1], buckets, hash, lim);
      ShardedStepOk(ShardedRun(ops[..|ops| - 1], buckets, hash, lim), ops[|ops| - 1], hash, lim);
    }
  }

  /** `size` of the sharded cache. */
  function TotalSize<V>(ps: seq<Past<V>>): nat {
    if ps == [] then 0 else |ps[0].items| + TotalSize(ps[1..])
  }

  lemma {:induction false} TotalIsBounded<V>(ps: seq<Past<V>>, a: nat, b: nat)
    requires forall i :: 0 <= i < |ps| ==> |ps[i].items| <= a + b
    ensures TotalSize(ps) <= |ps| * a + |ps| * b
  {
    if ps != [] {
      TotalIsBounded(ps[1..], a, b);
      assert |ps| * a == a + (|ps| - 1) * a && |ps| * b == b + (|ps| - 1) * b;
    }
  }

  lemma {:induction false} ShardedRunIsBounded<V>(ops: seq<Op<V>>, buckets: nat, hash: Hash, each: Limits)
    requires buckets > 0 && each.maxSize > 0
    ensures var ps := ShardedRun(ops, buckets, hash, each);
      && (forall i :: 0 <= i < buckets ==> AtHome(ps[i].items, i, hash, buckets))
      && TotalSize(ps) <= buckets * each.maxSize + buckets * each.elasticity
  {
    var ps := ShardedRun(ops, buckets, hash, each);
    ShardedRunOk(ops, buckets, hash, each);
    TotalIsBounded(ps, each.maxSize, each.elasticity);
  }

  /** After any history a key is in its own shard only, and there are at most as many items
      as `getMaxAllowedSize` says. */
  lemma {:induction false} EveryShardedRunIsBounded<V>(ops: seq<Op<V>>, buckets: nat, hash: Hash, lim: Limits)
    requires buckets > 0 && lim.maxSize > 0
    ensures var each := ShareLimits(lim, buckets);
      var ps := ShardedRun(ops, buckets, hash, each);
      && (forall i, it :: 0 <= i < buckets && it in ps[i].items ==> hash(it.key) % buckets == i)
      && TotalSize(ps) <= buckets * each.maxSize + buckets * each.elasticity
  {
    ShareIsCeiling(lim.maxSize, buckets);
    ShardedRunIsBounded(ops, buckets, hash, ShareLimits(lim, buckets));
  }

  /** The shards together have room for what was asked for, and none of them has an item more
      than it takes. */
  lemma ShareIsCeiling(n: nat, buckets: nat)
    requires buckets > 0
    ensures n <= buckets * Share(n, buckets) < n + buckets
    ensures n > 0 ==> Share(n, buckets) > 0
  {
    var x := n + buckets - 1;
    assert x == buckets * (x / buckets) + x % buckets;
  }

  // ---------------------------------------------------------------- each shard is a cache of its own

  predicate GoesTo<V>(op: Op<V>, i: nat, hash: Hash, buckets: nat)
    requires buckets > 0
  {
    op.Expire? || op.Clear? || Shard(if op.Set? then op.item.key else op.key, hash, buckets) == i
  }

  /** The operations that reach shard `i`. */
  function OpsOf<V>(ops: seq<Op<V>>, i: nat, hash: Hash, buckets: nat): seq<Op<V>>
    requires buckets > 0
  {
    if ops == [] then []
    else
      var before, last := OpsOf(ops[..|ops| - 1], i, hash, buckets), ops[|ops| - 1];
      if GoesTo(last, i, hash, buckets) then before + [last] else before
  }

  lemma {:induction false} RunMore<V>(ops: seq<Op<V>>, op: Op<V>, lim: Limits)
    ensures Run(ops + [op], lim) == Step(Run(ops, lim), op, lim)
  {
    assert (ops + [op])[..|ops|] == ops;
  }

  /** A shard is the run of the operations that reach it. */
  lemma {:induction false} ShardIsRun<V>(ops: seq<Op<V>>, buckets: nat, hash: Hash, lim: Limits, i: nat)
    requires i < buckets
    ensures ShardedRun(ops, buckets, hash, lim)[i] == Run(OpsOf(ops, i, hash, buckets), lim)
  {
    if ops != [] {
      var before, last := ops[..|ops| - 1], ops[|ops| - 1];
      ShardIsRun(before, buckets, hash, lim, i);
      RunMore(OpsOf(before, i, hash, buckets), last, lim);
    }
  }

  /** After any history every shard is in the order of the last touches of its keys, holds what
      was stored last, and keeps what is recent. */
  lemma {:induction false} EveryShardedRunIsRecent<V>(
      ops: seq<Op<V>>, buckets: nat, hash: Hash, lim: Limits, i: nat, k: Key)
    requires i < buckets
    ensures var p := ShardedRun(ops, buckets, hash, lim)[i];
      IsRecent(p, lim) && KeepsRecent(p, lim, k)
  {
    var own := OpsOf(ops, i, hash, buckets);
    ShardIsRun(ops, buckets, hash, lim, i);
    EveryRunIsRecent(own, lim);
    RecentIsKept(own, lim, k);
  }
}
