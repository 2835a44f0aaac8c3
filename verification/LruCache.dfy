/** The cache with a recency list and a hash index (Sylar/DataStructure/LRU_Cache.h). Its
    items have no deadline, which is 0 here. */
module LruCaches {
  import opened Prelude
  import opened Caches
  import opened CacheIndex

  class LruCache<V> {
    var limits: Limits
    var nodes: Nodes<V>
    var keys: seq<Id>
    var cache: map<Key, Id>
    var unused: Id

    ghost predicate Valid()
      reads this
    {
      Indexed(keys, cache, nodes) && (forall id :: id in nodes ==> id < unused)
    }

    /** What the cache holds, latest touched first. */
    function Items(): seq<Item<V>>
      requires Stored(keys, nodes)
      reads this
    {
      View(keys, nodes)
    }

    constructor (limits: Limits)
      ensures Valid() && Items() == [] && this.limits == limits
    {
      this.limits := limits;
      nodes, keys, cache, unused := map[], [], map[], 0;
    }

    method Set(k: Key, v: V)
      requires Valid()
      modifies this`nodes, this`keys, this`cache, this`unused
      ensures Valid() && Items() == AfterSet(old(Items()), Item(k, v, 0), limits)
    {
      var it := Item(k, v, 0);
      IndexFinds(keys, cache, nodes, k);
      if k in cache {
        var id := cache[k];
        Touch(id);
        Replaced(keys, cache, nodes, id, it);
        nodes := nodes[id := it];
      } else {
        Enter(it);
        Prune();
      }
    }

    /** Splices a node to the front of the list. */
    method Touch(id: Id)
      requires Valid() && id in keys
      modifies this`keys
      ensures Valid() && keys == [id] + Erased(old(keys), id)
      ensures Items() == [nodes[id]] + Without(old(Items()), nodes[id].key)
    {
      MovedToFront(keys, cache, nodes, id);
      keys := [id] + Erased(keys, id);
    }

    method Enter(it: Item<V>)
      requires Valid() && it.key !in cache
      modifies this`nodes, this`keys, this`cache, this`unused
      ensures Valid() && Items() == [it] + old(Items())
    {
      var id := unused;
      assert id !in keys;
      Added(keys, cache, nodes, id, it);
      nodes, unused := nodes[id := it], unused + 1;
      keys, cache := [id] + keys, cache[it.key := id];
    }

    method Get(k: Key) returns (r: Option<V>)
      requires Valid()
      modifies this`keys
      ensures Valid() && Items() == AfterGet(old(Items()), k)
      ensures r == if Has(old(Items()), k) then Some(Lookup(old(Items()), k).val) else None
    {
      IndexFinds(keys, cache, nodes, k);
      if k !in cache {
        return None;
      }
      Touch(cache[k]);
      r := Some(nodes[cache[k]].val);
    }

    method Del(k: Key) returns (there: bool)
      requires Valid()
      modifies this`keys, this`cache
      ensures Valid() && there == Has(old(Items()), k) && Items() == Without(old(Items()), k)
    {
      IndexFinds(keys, cache, nodes, k);
      if k !in cache {
        WithoutAbsent(Items(), k);
        return false;
      }
      Dropped(keys, cache, nodes, cache[k]);
      keys, cache := Erased(keys, cache[k]), cache - {k};
      return true;
    }

    method Prune()
      requires Valid()
      modifies this`keys, this`cache
      ensures Valid() && Items() == Pruned(old(Items()), limits)
    {
      if limits.maxSize == 0 || |cache| < limits.maxSize + limits.elasticity {
        return;
      }
      ghost var was := Items();
      while |cache| > limits.maxSize
        invariant Valid() && |keys| <= |was| && Items() == was[..|keys|]
        invariant |keys| >= limits.maxSize || |keys| == |was|
        decreases |cache|
      {
        DropBack();
      }
    }

    method DropBack()
      requires Valid() && keys != []
      modifies this`keys, this`cache
      ensures Valid() && |cache| == |old(cache)| - 1
      ensures |keys| == |old(keys)| - 1 && Items() == old(Items())[..|keys|]
    {
      var back := keys[|keys| - 1];
      ErasedLast(keys);
      ViewPrefix(keys, |keys| - 1, nodes);
      Dropped(keys, cache, nodes, back);
      cache, keys := cache - {nodes[back].key}, keys[..|keys| - 1];
    }
  }
}
