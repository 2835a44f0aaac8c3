/** The recency list of a cache and the hash index into it, which the two caches share
    (Sylar/DataStructure/LRU_Cache.h and timed_lru_cache.h). */
module CacheIndex {
  import opened Caches

  /** Identity of a list node; iterators name nodes and stay good while a node moves. */
  type Id = nat

  type Nodes<V> = map<Id, Item<V>>

  predicate Stored<V>(ids: seq<Id>, nodes: Nodes<V>) {
    forall i :: 0 <= i < |ids| ==> ids[i] in nodes
  }

  /** The items that a list of nodes holds. */
  function View<V>(ids: seq<Id>, nodes: Nodes<V>): (s: seq<Item<V>>)
    requires Stored(ids, nodes)
    ensures |s| == |ids| && forall i :: 0 <= i < |ids| ==> s[i] == nodes[ids[i]]
  {
    if ids == [] then [] else [nodes[ids[0]]] + View(ids[1..], nodes)
  }

  function Erased(ids: seq<Id>, id: Id): seq<Id> {
    if ids == [] then [] else if ids[0] == id then Erased(ids[1..], id) else [ids[0]] + Erased(ids[1..], id)
  }

  predicate Distinct(ids: seq<Id>) {
    forall i, j :: 0 <= i < j < |ids| ==> ids[i] != ids[j]
  }

  /** The hash index finds every node of the list by its key. */
  ghost predicate Found<V>(keys: seq<Id>, cache: map<Key, Id>, nodes: Nodes<V>) {
    forall id :: id in keys ==> id in nodes && nodes[id].key in cache && cache[nodes[id].key] == id
  }

  /** What the hash index finds is in the list, and has the key. */
  ghost predicate Listed<V>(keys: seq<Id>, cache: map<Key, Id>, nodes: Nodes<V>) {
    forall k :: k in cache ==> cache[k] in keys && cache[k] in nodes && nodes[cache[k]].key == k
  }

  /** The list and the hash index hold the same nodes, one for each key. */
  ghost predicate Indexed<V>(keys: seq<Id>, cache: map<Key, Id>, nodes: Nodes<V>) {
    && Stored(keys, nodes) && Distinct(keys) && |cache| == |keys|
    && Found(keys, cache, nodes) && Listed(keys, cache, nodes)
  }

  // ---------------------------------------------------------------- lists of nodes

  lemma {:induction false} ErasedHas(ids: seq<Id>, id: Id)
    ensures forall x :: x in Erased(ids, id) <==> x in ids && x != id
    ensures |Erased(ids, id)| <= |ids|
  {
    if ids != [] {
      ErasedHas(ids[1..], id);
      forall x
        ensures x in Erased(ids, id) <==> x in ids && x != id
      {
      }
    }
  }

  lemma {:induction false} ErasedIsDistinct(ids: seq<Id>, id: Id)
    requires Distinct(ids)
    ensures Distinct(Erased(ids, id))
    ensures |Erased(ids, id)| == if id in ids then |ids| - 1 else |ids|
  {
    if ids != [] {
      ErasedIsDistinct(ids[1..], id);
      ErasedHas(ids[1..], id);
      assert forall i :: 0 < i < |ids| ==> ids[1..][i - 1] == ids[i];
      assert ids[0] !in ids[1..];
    }
  }

  /** Taking a node out of the list takes the item of its key out of the contents. */
  lemma {:induction false} ViewErased<V>(ids: seq<Id>, id: Id, nodes: Nodes<V>)
    requires Stored(ids, nodes) && id in nodes
    requires forall x :: x in ids && x != id ==> nodes[x].key != nodes[id].key
    ensures Stored(Erased(ids, id), nodes)
    ensures View(Erased(ids, id), nodes) == Without(View(ids, nodes), nodes[id].key)
  {
    if ids != [] {
      ViewErased(ids[1..], id, nodes);
      assert View(ids, nodes)[1..] == View(ids[1..], nodes);
      assert ids[0] in ids;
    }
  }

  lemma {:induction false} ViewElsewhere<V>(ids: seq<Id>, id: Id, it: Item<V>, nodes: Nodes<V>)
    requires Stored(ids, nodes) && id !in ids
    ensures Stored(ids, nodes[id := it]) && View(ids, nodes[id := it]) == View(ids, nodes)
  {
    if ids != [] {
      ViewElsewhere(ids[1..], id, it, nodes);
    }
  }

  // ---------------------------------------------------------------- the hash index

  lemma {:induction false} IndexFinds<V>(keys: seq<Id>, cache: map<Key, Id>, nodes: Nodes<V>, k: Key)
    requires Indexed(keys, cache, nodes)
    ensures Has(View(keys, nodes), k) <==> k in cache
    ensures k in cache ==> Lookup(View(keys, nodes), k) == nodes[cache[k]]
  {
    var s := View(keys, nodes);
    if k in cache {
      var i :| 0 <= i < |keys| && keys[i] == cache[k];
      assert s[i].key == k;
      var it := Lookup(s, k);
      var j :| 0 <= j < |s| && s[j] == it;
      assert keys[j] in keys;
    }
    if Has(s, k) {
      var i :| 0 <= i < |s| && s[i].key == k;
      assert keys[i] in keys;
    }
  }

  /** A node of the list is the only one with its key. */
  lemma OwnKey<V>(keys: seq<Id>, cache: map<Key, Id>, nodes: Nodes<V>, id: Id)
    requires Indexed(keys, cache, nodes) && id in keys
    ensures forall x :: x in keys && nodes[x].key == nodes[id].key ==> x == id
  {
  }

  /** `splice` to the front. */
  lemma {:induction false} MovedToFront<V>(keys: seq<Id>, cache: map<Key, Id>, nodes: Nodes<V>, id: Id)
    requires Indexed(keys, cache, nodes) && id in keys
    ensures var moved := [id] + Erased(keys, id);
      && Indexed(moved, cache, nodes) && (forall x :: x in moved <==> x in keys)
      && View(moved, nodes) == [nodes[id]] + Without(View(keys, nodes), nodes[id].key)
  {
    ErasedHas(keys, id);
    ErasedIsDistinct(keys, id);
    ViewErased(keys, id, nodes);
    ViewFront(id, Erased(keys, id), nodes);
    SameNodes(keys, [id] + Erased(keys, id), cache, nodes);
  }

  lemma {:induction false} ViewFront<V>(id: Id, ids: seq<Id>, nodes: Nodes<V>)
    requires Stored(ids, nodes) && id in nodes
    ensures Stored([id] + ids, nodes) && View([id] + ids, nodes) == [nodes[id]] + View(ids, nodes)
  {
    assert ([id] + ids)[1..] == ids;
  }

  /** The hash index does not depend on the order of the list. */
  lemma SameNodes<V>(keys: seq<Id>, moved: seq<Id>, cache: map<Key, Id>, nodes: Nodes<V>)
    requires Indexed(keys, cache, nodes) && Distinct(moved) && |moved| == |keys|
    requires forall x :: x in moved <==> x in keys
    ensures Indexed(moved, cache, nodes)
  {
    assert forall i :: 0 <= i < |moved| ==> moved[i] in moved;
  }

  /** A node leaves the list and the hash index. */
  lemma {:induction false} Dropped<V>(keys: seq<Id>, cache: map<Key, Id>, nodes: Nodes<V>, id: Id)
    requires Indexed(keys, cache, nodes) && id in keys
    ensures Indexed(Erased(keys, id), cache - {nodes[id].key}, nodes)
    ensures View(Erased(keys, id), nodes) == Without(View(keys, nodes), nodes[id].key)
    ensures |cache - {nodes[id].key}| == |cache| - 1
  {
    ErasedHas(keys, id);
    ErasedIsDistinct(keys, id);
    OwnKey(keys, cache, nodes, id);
    ViewErased(keys, id, nodes);
    MapShrinks(cache, nodes[id].key);
    DroppedIsFound(keys, Erased(keys, id), cache, nodes, id);
  }

  lemma DroppedIsFound<V>(keys: seq<Id>, rest: seq<Id>, cache: map<Key, Id>, nodes: Nodes<V>, id: Id)
    requires Found(keys, cache, nodes) && Listed(keys, cache, nodes) && id in keys
    requires forall x :: x in rest <==> x in keys && x != id
    ensures Found(rest, cache - {nodes[id].key}, nodes) && Listed(rest, cache - {nodes[id].key}, nodes)
  {
  }

  lemma MapShrinks(cache: map<Key, Id>, k: Key)
    requires k in cache
    ensures |cache - {k}| == |cache| - 1
  {
    assert (cache - {k}).Keys == cache.Keys - {k};
    assert |cache.Keys - {k}| == |cache.Keys| - 1;
    assert |cache| == |cache.Keys| && |cache - {k}| == |(cache - {k}).Keys|;
  }

  lemma MapGrows(cache: map<Key, Id>, k: Key, id: Id)
    requires k !in cache
    ensures |cache[k := id]| == |cache| + 1
  {
    assert cache[k := id].Keys == cache.Keys + {k};
  }

  /** A new node enters the list and the hash index. */
  lemma Added<V>(keys: seq<Id>, cache: map<Key, Id>, nodes: Nodes<V>, id: Id, it: Item<V>)
    requires Indexed(keys, cache, nodes) && id !in keys && it.key !in cache
    ensures Indexed([id] + keys, cache[it.key := id], nodes[id := it])
    ensures View([id] + keys, nodes[id := it]) == [it] + View(keys, nodes)
  {
    ViewElsewhere(keys, id, it, nodes);
    ViewFront(id, keys, nodes[id := it]);
    MapGrows(cache, it.key, id);
    DistinctFront(id, keys);
    AddedIsFound(keys, [id] + keys, cache, nodes, id, it);
  }

  lemma DistinctFront(id: Id, keys: seq<Id>)
    requires Distinct(keys) && id !in keys
    ensures Distinct([id] + keys)
  {
  }

  lemma AddedIsFound<V>(
      keys: seq<Id>, more: seq<Id>, cache: map<Key, Id>, nodes: Nodes<V>, id: Id, it: Item<V>)
    requires Found(keys, cache, nodes) && Listed(keys, cache, nodes) && id !in keys && it.key !in cache
    requires forall x :: x in more <==> x in keys || x == id
    ensures Found(more, cache[it.key := id], nodes[id := it]) && Listed(more, cache[it.key := id], nodes[id := it])
  {
  }

  lemma {:induction false} ErasedLast(ids: seq<Id>)
    requires ids != [] && Distinct(ids)
    ensures Erased(ids, ids[|ids| - 1]) == ids[..|ids| - 1]
  {
    if |ids| > 1 {
      ErasedLast(ids[1..]);
      assert ids[..|ids| - 1] == [ids[0]] + ids[1..][..|ids| - 2];
    }
  }

  lemma {:induction false} ViewPrefix<V>(ids: seq<Id>, n: nat, nodes: Nodes<V>)
    requires Stored(ids, nodes) && n <= |ids|
    ensures Stored(ids[..n], nodes) && View(ids[..n], nodes) == View(ids, nodes)[..n]
  {
  }

  /** The item of a node is given another value and deadline. */
  lemma Replaced<V>(keys: seq<Id>, cache: map<Key, Id>, nodes: Nodes<V>, id: Id, it: Item<V>)
    requires Indexed(keys, cache, nodes) && id in keys && it.key == nodes[id].key
    ensures Indexed(keys, cache, nodes[id := it])
    ensures keys[0] == id ==> View(keys, nodes[id := it]) == [it] + View(keys, nodes)[1..]
  {
    ReplacedIsFound(keys, cache, nodes, id, it);
    if keys[0] == id {
      ReplacedView(keys, nodes, it);
    }
  }

  lemma ReplacedIsFound<V>(keys: seq<Id>, cache: map<Key, Id>, nodes: Nodes<V>, id: Id, it: Item<V>)
    requires Found(keys, cache, nodes) && Listed(keys, cache, nodes) && id in keys && it.key == nodes[id].key
    ensures Found(keys, cache, nodes[id := it]) && Listed(keys, cache, nodes[id := it])
  {
  }

  lemma ReplacedView<V>(keys: seq<Id>, nodes: Nodes<V>, it: Item<V>)
    requires keys != [] && Stored(keys, nodes) && Distinct(keys)
    ensures View(keys, nodes[keys[0] := it]) == [it] + View(keys, nodes)[1..]
  {
    var now := View(keys, nodes[keys[0] := it]);
    assert forall i :: 0 < i < |keys| ==> now[i] == View(keys, nodes)[i];
  }
}
