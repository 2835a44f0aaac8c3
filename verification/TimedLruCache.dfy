/** The cache with a recency list, a hash index and a deadline index
    (Sylar/DataStructure/timed_lru_cache.h). */
module TimedLruCaches {
  import opened Prelude
  import opened Caches
  import opened CacheIndex

  /** The order of the deadline index. */
  predicate Before<V>(a: Item<V>, b: Item<V>) {
    a.deadline < b.deadline || (a.deadline == b.deadline && a.key < b.key)
  }

  predicate Ordered<V>(ids: seq<Id>, nodes: Nodes<V>)
    requires Stored(ids, nodes)
  {
    forall i, j :: 0 <= i < j < |ids| ==> Before(nodes[ids[i]], nodes[ids[j]])
  }

  /** Insertion in the deadline index. */
  function Inserted<V>(ids: seq<Id>, id: Id, nodes: Nodes<V>): seq<Id>
    requires Stored(ids, nodes) && id in nodes
  {
    if ids == [] || !Before(nodes[ids[0]], nodes[id]) then [id] + ids else [ids[0]] + Inserted(ids[1..], id, nodes)
  }

  /** Erasure from the deadline index takes out what its order cannot tell from the node. */
  function Unindexed<V>(ids: seq<Id>, id: Id, nodes: Nodes<V>): seq<Id>
    requires Stored(ids, nodes) && id in nodes
  {
    if ids == [] then []
    else if !Before(nodes[ids[0]], nodes[id]) && !Before(nodes[id], nodes[ids[0]]) then Unindexed(ids[1..], id, nodes)
    else [ids[0]] + Unindexed(ids[1..], id, nodes)
  }

  /** So does the deadline index, in its own order. */
  ghost predicate Timed<V>(keys: seq<Id>, timed: seq<Id>, nodes: Nodes<V>) {
    && Stored(timed, nodes) && Ordered(timed, nodes)
    && (forall id :: id in timed <==> id in keys)
  }

  predicate KeyIsOwn<V>(ids: seq<Id>, id: Id, nodes: Nodes<V>)
    requires Stored(ids, nodes) && id in nodes
  {
    forall x :: x in ids && nodes[x].key == nodes[id].key ==> x == id
  }

  /** No other node has the same key, so erasure takes out this node and no other. */
  lemma {:induction false} UnindexedIsErased<V>(ids: seq<Id>, id: Id, nodes: Nodes<V>)
    requires Stored(ids, nodes) && id in nodes && KeyIsOwn(ids, id, nodes)
    ensures Unindexed(ids, id, nodes) == Erased(ids, id)
  {
    if ids != [] {
      assert ids[0] in ids;
      UnindexedIsErased(ids[1..], id, nodes);
    }
  }

  lemma {:induction false} ErasedIsOrdered<V>(ids: seq<Id>, id: Id, nodes: Nodes<V>)
    requires Stored(ids, nodes) && Ordered(ids, nodes)
    ensures Stored(Erased(ids, id), nodes) && Ordered(Erased(ids, id), nodes)
  {
    if ids != [] {
      var rest := ids[1..];
      assert forall i :: 0 <= i < |rest| ==> rest[i] == ids[i + 1];
      ErasedIsOrdered(rest, id, nodes);
      ErasedHas(rest, id);
      assert forall x :: x in rest ==> Before(nodes[ids[0]], nodes[x]);
      OrderedFront(ids[0], Erased(rest, id), nodes);
    }
  }

  lemma OrderedFront<V>(id: Id, ids: seq<Id>, nodes: Nodes<V>)
    requires Stored(ids, nodes) && Ordered(ids, nodes) && id in nodes
    requires forall x :: x in ids ==> Before(nodes[id], nodes[x])
    ensures Stored([id] + ids, nodes) && Ordered([id] + ids, nodes)
  {
    assert forall i :: 0 <= i < |ids| ==> ids[i] in ids;
  }

  lemma {:induction false} InsertedIsOrdered<V>(ids: seq<Id>, id: Id, nodes: Nodes<V>)
    requires Stored(ids, nodes) && Ordered(ids, nodes) && id in nodes && id !in ids && KeyIsOwn(ids, id, nodes)
    ensures Stored(Inserted(ids, id, nodes), nodes) && Ordered(Inserted(ids, id, nodes), nodes)
    ensures forall x :: x in Inserted(ids, id, nodes) <==> x in ids || x == id
  {
    if ids != [] {
      var rest := ids[1..];
      assert forall i :: 0 <= i < |rest| ==> rest[i] == ids[i + 1];
      assert ids[0] in ids;
      if !Before(nodes[ids[0]], nodes[id]) {
        assert Before(nodes[id], nodes[ids[0]]);
        assert forall i :: 0 <= i < |ids| ==> Before(nodes[id], nodes[ids[i]]);
      } else {
        InsertedIsOrdered(rest, id, nodes);
        var r := Inserted(rest, id, nodes);
        assert forall x :: x in r ==> Before(nodes[ids[0]], nodes[x]);
        assert forall i :: 0 <= i < |r| ==> r[i] in r;
      }
    }
  }

  lemma {:induction false} AliveWithout<V>(s: seq<Item<V>>, k: Key, ts: nat)
    requires forall it :: it in s && it.key == k ==> it.deadline <= ts
    ensures Alive(Without(s, k), ts) == Alive(s, ts)
  {
    if s != [] {
      AliveWithout(s[1..], k, ts);
      assert s[0] in s;
      assert s[0].key != k ==> Without(s, k)[1..] == Without(s[1..], k);
    }
  }

  lemma {:induction false} AllAlive<V>(s: seq<Item<V>>, ts: nat)
    requires forall it :: it in s ==> it.deadline > ts
    ensures Alive(s, ts) == s
  {
    if s != [] {
      AllAlive(s[1..], ts);
      assert s == [s[0]] + s[1..];
    }
  }

  /** Its place in the deadline index is found anew. */
  lemma Reindexed<V>(keys: seq<Id>, cache: map<Key, Id>, timed: seq<Id>, nodes: Nodes<V>, id: Id, it: Item<V>)
    requires Indexed(keys, cache, nodes) && Timed(keys, timed, nodes) && id in keys && it.key == nodes[id].key
    ensures var rest := Unindexed(timed, id, nodes);
      && Stored(rest, nodes[id := it]) && Timed(keys, Inserted(rest, id, nodes[id := it]), nodes[id := it])
  {
    var rest, now := Unindexed(timed, id, nodes), nodes[id := it];
    OwnKey(keys, cache, nodes, id);
    UnindexedIsErased(timed, id, nodes);
    ErasedIsOrdered(timed, id, nodes);
    ErasedHas(timed, id);
    assert forall i :: 0 <= i < |rest| ==> rest[i] in rest && now[rest[i]] == nodes[rest[i]];
    InsertedIsOrdered(rest, id, now);
  }

  /** A new node is found a place. */
  lemma {:induction false} NewlyIndexed<V>(
      keys: seq<Id>, cache: map<Key, Id>, timed: seq<Id>, nodes: Nodes<V>, id: Id, it: Item<V>)
    requires Indexed(keys, cache, nodes) && Timed(keys, timed, nodes) && id !in nodes && it.key !in cache
    ensures Stored(timed, nodes[id := it]) && Timed([id] + keys, Inserted(timed, id, nodes[id := it]), nodes[id := it])
  {
    var now := nodes[id := it];
    assert forall i :: 0 <= i < |timed| ==> timed[i] in timed && now[timed[i]] == nodes[timed[i]];
    InsertedIsOrdered(timed, id, now);
  }

  /** A node leaves the deadline index, too. */
  lemma {:induction false} DroppedIsTimed<V>(
      keys: seq<Id>, cache: map<Key, Id>, timed: seq<Id>, nodes: Nodes<V>, id: Id)
    requires Indexed(keys, cache, nodes) && Timed(keys, timed, nodes) && id in keys
    ensures Unindexed(timed, id, nodes) == Erased(timed, id) && Timed(Erased(keys, id), Erased(timed, id), nodes)
  {
    OwnKey(keys, cache, nodes, id);
    UnindexedIsErased(timed, id, nodes);
    ErasedIsOrdered(timed, id, nodes);
    ErasedHas(timed, id);
    ErasedHas(keys, id);
  }

  /** The earliest deadline is not over: nothing is past its deadline. */
  lemma {:induction false} NothingExpired<V>(keys: seq<Id>, timed: seq<Id>, nodes: Nodes<V>, ts: nat)
    requires Stored(keys, nodes) && Timed(keys, timed, nodes) && (timed == [] || nodes[timed[0]].deadline > ts)
    ensures Alive(View(keys, nodes), ts) == View(keys, nodes)
  {
    forall i | 0 <= i < |keys|
      ensures nodes[keys[i]].deadline > ts
    {
      assert keys[i] in keys;
      var j :| 0 <= j < |timed| && timed[j] == keys[i];
      assert j > 0 ==> Before(nodes[timed[0]], nodes[timed[j]]);
    }
    AllAlive(View(keys, nodes), ts);
  }

  /** Taking an item that is past its deadline out changes nothing about those that are not. */
  lemma {:induction false} ExpiredIsNotAlive<V>(keys: seq<Id>, cache: map<Key, Id>, nodes: Nodes<V>, id: Id, ts: nat)
    requires Indexed(keys, cache, nodes) && id in keys && nodes[id].deadline <= ts
    ensures Alive(Without(View(keys, nodes), nodes[id].key), ts) == Alive(View(keys, nodes), ts)
  {
    OwnKey(keys, cache, nodes, id);
    assert forall i :: 0 <= i < |keys| ==> keys[i] in keys;
    AliveWithout(View(keys, nodes), nodes[id].key, ts);
  }

  class TimedLruCache<V> {
    var limits: Limits
    var nodes: Nodes<V>
    var keys: seq<Id>
    var cache: map<Key, Id>
    var timed: seq<Id>
    var unused: Id

    ghost predicate Valid()
      reads this
    {
      && Indexed(keys, cache, nodes) && Timed(keys, timed, nodes)
      && (forall id :: id in nodes ==> id < unused)
    }

    /** What the cache holds, latest touched first. */
    function Items(): seq<Item<V>>
      requires Stored(keys, nodes)
      reads this
    {
      View(keys, nodes)
    }

    constructor (limits: Limits)
      ensures Valid() && Items() == [] && this.limits == limits
    {
      this.limits := limits;
      nodes, keys, cache, timed, unused := map[], [], map[], [], 0;
    }

    method Get(k: Key) returns (r: Option<V>)
      requires Valid()
      modifies this`keys
      ensures Valid() && Items() == AfterGet(old(Items()), k)
      ensures r == if Has(old(Items()), k) then Some(Lookup(old(Items()), k).val) else None
    {
      IndexFinds(keys, cache, nodes, k);
      if k !in cache {
        return None;
      }
      Touch(cache[k]);
      r := Some(nodes[cache[k]].val);
    }

    /** Splices a node to the front of the list. */
    method Touch(id: Id)
      requires Valid() && id in keys
      modifies this`keys
      ensures Valid() && keys == [id] + Erased(old(keys), id)
      ensures Items() == [nodes[id]] + Without(old(Items()), nodes[id].key)
    {
      MovedToFront(keys, cache, nodes, id);
      keys := [id] + Erased(keys, id);
    }

    method Del(k: Key) returns (there: bool)
      requires Valid()
      modifies this`keys, this`cache, this`timed
      ensures Valid() && there == Has(old(Items()), k) && Items() == Without(old(Items()), k)
    {
      IndexFinds(keys, cache, nodes, k);
      if k !in cache {
        WithoutAbsent(Items(), k);
        return false;
      }
      Drop(cache[k]);
      return true;
    }

    /** Takes a node out of all three. */
    method Drop(id: Id)
      requires Valid() && id in keys
      modifies this`keys, this`cache, this`timed
      ensures Valid() && keys == Erased(old(keys), id) && timed == Erased(old(timed), id)
      ensures Items() == Without(old(Items()), nodes[id].key) && |cache| == |old(cache)| - 1
    {
      Dropped(keys, cache, nodes, id);
      DroppedIsTimed(keys, cache, timed, nodes, id);
      timed := Unindexed(timed, id, nodes);
      keys := Erased(keys, id);
      cache := cache - {nodes[id].key};
    }
  
    /** `set`; `deadline` is the current time plus the time to live. */
    method Set(k: Key, v: V, deadline: nat)
      requires Valid()
      modifies this
      ensures Valid() && limits == old(limits)
      ensures Items() == AfterSet(old(Items()), Item(k, v, deadline), limits)
    {
      IndexFinds(keys, cache, nodes, k);
      if k in cache {
        Renew(cache[k], Item(k, v, deadline));
      } else {
        Enter(Item(k, v, deadline));
        Prune();
      }
    }

    /** The node leaves the deadline index while its deadline changes. */
    method Renew(id: Id, it: Item<V>)
      requires Valid() && id in keys && nodes[id].key == it.key
      modifies this`keys, this`timed, this`nodes
      ensures Valid() && Items() == [it] + Without(old(Items()), it.key)
    {
      Touch(id);
      Rewrite(it);
    }

    method Rewrite(it: Item<V>)
      requires Valid() && keys != [] && nodes[keys[0]].key == it.key
      modifies this`timed, this`nodes
      ensures Valid() && Items() == [it] + old(Items())[1..]
    {
      var id := keys[0];
      Reindexed(keys, cache, timed, nodes, id, it);
      Replaced(keys, cache, nodes, id, it);
      timed := Unindexed(timed, id, nodes);
      nodes := nodes[id := it];
      timed := Inserted(timed, id, nodes);
    }

    method Enter(it: Item<V>)
      requires Valid() && it.key !in cache
      modifies this`keys, this`timed, this`nodes, this`cache, this`unused
      ensures Valid() && Items() == [it] + old(Items())
    {
      var id := unused;
      assert id !in keys;
      NewlyIndexed(keys, cache, timed, nodes, id, it);
      Added(keys, cache, nodes, id, it);
      nodes, unused := nodes[id := it], unused + 1;
      keys, cache := [id] + keys, cache[it.key := id];
      timed := Inserted(timed, id, nodes);
    }

    method Prune()
      requires Valid()
      modifies this`keys, this`cache, this`timed
      ensures Valid() && Items() == Pruned(old(Items()), limits)
    {
      if limits.maxSize == 0 || |cache| < limits.maxSize + limits.elasticity {
        return;
      }
      ghost var was := Items();
      while |cache| > limits.maxSize
        invariant Valid() && |keys| <= |was| && Items() == was[..|keys|]
        invariant |keys| >= limits.maxSize || |keys| == |was|
        decreases |cache|
      {
        DropBack();
      }
    }

    method DropBack()
      requires Valid() && keys != []
      modifies this`keys, this`cache, this`timed
      ensures Valid() && |cache| == |old(cache)| - 1
      ensures |keys| == |old(keys)| - 1 && Items() == old(Items())[..|keys|]
    {
      ErasedLast(keys);
      ViewPrefix(keys, |keys| - 1, nodes);
      Drop(keys[|keys| - 1]);
    }

    /** `checkTimeout`: from the earliest deadline on, until one lies in the future. */
    method CheckTimeout(ts: nat) returns (count: nat)
      requires Valid()
      modifies this`keys, this`cache, this`timed
      ensures Valid() && Items() == Alive(old(Items()), ts) && count == |old(Items())| - |Items()|
    {
      count := 0;
      while timed != [] && nodes[timed[0]].deadline <= ts
        invariant Valid() && Alive(Items(), ts) == Alive(old(Items()), ts) && |keys| + count == |old(keys)|
        decreases |cache|
      {
        var id := timed[0];
        assert id in keys;
        ExpiredIsNotAlive(keys, cache, nodes, id, ts);
        Drop(id);
        count := count + 1;
      }
      NothingExpired(keys, timed, nodes, ts);
    }

    method Clear()
      requires Valid()
      modifies this`keys, this`cache, this`timed
      ensures Valid() && Items() == []
    {
      cache, keys, timed := map[], [], [];
    }
  }
}
