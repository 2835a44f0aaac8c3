/** The hash map with sorted buckets (Sylar/DataStructure/hash_map.h). */
module HashMaps {
  import opened Bits
  import opened Buckets
  import opened Prelude

  type Hash = Key -> nat

  function Slot(k: Key, hash: Hash, size: nat): (i: nat)
    requires size > 0
    ensures i < size
  {
    hash(k) % size
  }

  // ---------------------------------------------------------------- how many buckets

  function Log2(n: nat): nat
    requires n > 0
  {
    if n == 1 then 0 else 1 + Log2(n / 2)
  }

  const MAX_SIZE: nat := 0x4000_0000

  /** `basket`, for a number that is a positive `int`. */
  function Basket(n: nat): nat
    requires n > 0
  {
    Pow2(if Log2(n) + 1 < 30 then Log2(n) + 1 else 30)
  }

  lemma {:induction false} Log2Bounds(n: nat)
    requires n > 0
    ensures Pow2(Log2(n)) <= n < Pow2(Log2(n) + 1)
  {
    if n > 1 {
      Log2Bounds(n / 2);
    }
  }

  lemma Pow2Thirty()
    ensures Pow2(30) == MAX_SIZE
  {
    Pow2Values();
  }

  lemma {:induction false} BasketIs(n: nat)
    requires n > 0
    ensures Basket(n) == if n < MAX_SIZE then Pow2(Log2(n) + 1) else MAX_SIZE
  {
    Pow2Thirty();
    Log2Bounds(n);
    Pow2Order(Log2(n), 30);
    Pow2Order(30, Log2(n) + 1);
  }

  /** There are more buckets than pairs if and only if there are fewer than 2^30 pairs. A map
      with a load above 16 gets more buckets in any case. */
  lemma BasketIsLarge(n: nat, size: nat)
    requires 0 < n < TWO_31
    ensures n < Basket(n) <==> n < MAX_SIZE
    ensures Basket(n) <= 2 * n && (16 * size < n ==> size < Basket(n))
  {
    BasketIs(n);
    Log2Bounds(n);
  }

  /** The number of pairs goes to `basket` as an `int`, of which it takes the absolute value; that
      and its logarithm are defined unless the number is a multiple of 2^31. */
  predicate Measurable(total: nat) {
    total % TWO_31 != 0
  }

  function Magnitude(total: nat): nat {
    if Int32(total) < 0 then -Int32(total) else Int32(total)
  }

  lemma {:induction false} MeasurableIsPositive(total: nat)
    requires Measurable(total)
    ensures 0 < Magnitude(total) < TWO_31 && (total < TWO_31 ==> Magnitude(total) == total)
  {
  }

  // ---------------------------------------------------------------- what the buckets hold

  /** Bucket `i` holds the pairs of the map whose keys belong there, in order. */
  ghost predicate Holds<V(!new)>(b: seq<Pair<V>>, i: nat, hash: Hash, size: nat, model: map<Key, V>)
    requires size > 0
  {
    && Increasing(b)
    && (forall p :: p in b <==> Slot(p.key, hash, size) == i && p.key in model && model[p.key] == p.val)
  }

  ghost predicate Represents<V(!new)>(datas: seq<seq<Pair<V>>>, hash: Hash, size: nat, model: map<Key, V>) {
    size > 0 && |datas| == size && forall i :: 0 <= i < size ==> Holds(datas[i], i, hash, size, model)
  }

  lemma BucketHasKey<V(!new)>(b: seq<Pair<V>>, i: nat, hash: Hash, size: nat, model: map<Key, V>, k: Key)
    requires size > 0 && Holds(b, i, hash, size, model) && i == Slot(k, hash, size)
    ensures HasKey(b, k) <==> k in model
    ensures forall j :: 0 <= j < |b| && b[j].key == k ==> k in model && b[j].val == model[k]
  {
    forall j | 0 <= j < |b|
      ensures b[j].key == k ==> k in model && b[j].val == model[k]
    {
      assert b[j] in b;
    }
    if k in model {
      assert Pair(k, model[k]) in b;
      var j :| 0 <= j < |b| && b[j] == Pair(k, model[k]);
      assert b[j].key == k;
    }
  }

  /** A change at one key changes the bucket of that key only. */
  lemma OtherBuckets<V(!new)>(datas: seq<seq<Pair<V>>>, hash: Hash, size: nat, model: map<Key, V>,
                        model': map<Key, V>, k: Key, b: seq<Pair<V>>)
    requires Represents(datas, hash, size, model) && Holds(b, Slot(k, hash, size), hash, size, model')
    requires forall x :: x != k ==> (x in model <==> x in model') && (x in model ==> model[x] == model'[x])
    ensures Represents(datas[Slot(k, hash, size) := b], hash, size, model')
  {
    var at := Slot(k, hash, size);
    var after := datas[at := b];
    forall i | 0 <= i < size
      ensures Holds(after[i], i, hash, size, model')
    {
      if i != at {
        assert Holds(datas[i], i, hash, size, model);
        assert forall p: Pair<V> :: Slot(p.key, hash, size) == i ==> p.key != k;
      }
    }
  }

  lemma {:induction false} PlacedHolds<V(!new)>(
      b: seq<Pair<V>>, i: nat, hash: Hash, size: nat, model: map<Key, V>, k: Key, v: V)
    requires size > 0 && Holds(b, i, hash, size, model) && i == Slot(k, hash, size) && k !in model
    ensures Holds(Placed(b, Pair(k, v)), i, hash, size, model[k := v])
  {
    BucketHasKey(b, i, hash, size, model, k);
    PlacedIsIncreasing(b, Pair(k, v));
    forall p: Pair<V>
      ensures p in Placed(b, Pair(k, v)) <==>
        Slot(p.key, hash, size) == i && p.key in model[k := v] && model[k := v][p.key] == p.val
    {
      PlacedHas(b, Pair(k, v), p);
    }
  }

  lemma ReplacedHolds<V(!new)>(b: seq<Pair<V>>, i: nat, hash: Hash, size: nat, model: map<Key, V>, at: nat, v: V)
    requires size > 0 && Holds(b, i, hash, size, model) && at < |b|
    ensures Holds(b[at := Pair(b[at].key, v)], i, hash, size, model[b[at].key := v])
  {
    var k, r := b[at].key, b[at := Pair(b[at].key, v)];
    assert b[at] in b;
    forall p: Pair<V>
      ensures p in r <==> Slot(p.key, hash, size) == i && p.key in model[k := v] && model[k := v][p.key] == p.val
    {
      if p in r {
        var j :| 0 <= j < |r| && r[j] == p;
        assert b[j] in b;
      }
      if p == Pair(k, v) {
        assert r[at] == p;
      } else if p.key != k && p in b {
        var j :| 0 <= j < |b| && b[j] == p;
        assert r[j] == p;
      }
    }
  }

  /** `del` moves the last pair over the deleted one, and sorts. */
  function SwappedOut<V>(b: seq<Pair<V>>, at: nat): seq<Pair<V>>
    requires at < |b|
  {
    b[at := b[|b| - 1]][..|b| - 1]
  }

  lemma SwappedOutHas<V>(b: seq<Pair<V>>, at: nat, p: Pair<V>)
    requires Increasing(b) && at < |b|
    ensures KeysDiffer(SwappedOut(b, at))
    ensures p in SwappedOut(b, at) <==> p in b && p != b[at]
  {
    var r := SwappedOut(b, at);
    forall i | 0 <= i < |r|
      ensures r[i] == if i == at then b[|b| - 1] else b[i]
    {
    }
    if p in r {
      var i :| 0 <= i < |r| && r[i] == p;
      assert p == b[if i == at then |b| - 1 else i];
    }
    if p in b && p != b[at] {
      var j :| 0 <= j < |b| && b[j] == p;
      assert p == r[if j == |b| - 1 then at else j];
    }
  }

  lemma DeletedHolds<V(!new)>(b: seq<Pair<V>>, i: nat, hash: Hash, size: nat, model: map<Key, V>, at: nat)
    requires size > 0 && Holds(b, i, hash, size, model) && at < |b|
    ensures Holds(Sorted(SwappedOut(b, at)), i, hash, size, model - {b[at].key})
  {
    var k, s := b[at].key, SwappedOut(b, at);
    assert b[at] in b;
    SwappedOutHas(b, at, b[at]);
    SortedIsIncreasing(s);
    forall p: Pair<V>
      ensures p in Sorted(s) <==> Slot(p.key, hash, size) == i && p.key in model - {k} && (model - {k})[p.key] == p.val
    {
      SortedHas(s, p);
      SwappedOutHas(b, at, p);
      if p in b && p.key == k {
        LeastOfKey(b, at, p);
      }
    }
  }

  lemma LeastOfKey<V>(b: seq<Pair<V>>, at: nat, p: Pair<V>)
    requires Increasing(b) && at < |b| && p in b && p.key == b[at].key
    ensures p == b[at]
  {
    var j :| 0 <= j < |b| && b[j] == p;
  }

  // ---------------------------------------------------------------- rehash

  /** The pairs of the first `n` buckets, as `rforeach` visits them. */
  function Listed<V>(datas: seq<seq<Pair<V>>>, n: nat): seq<Pair<V>>
    requires n <= |datas|
  {
    if n == 0 then [] else Listed(datas, n - 1) + datas[n - 1]
  }

  /** Those that belong in bucket `j` of `size`, in the order in which they come. */
  function Chosen<V>(ps: seq<Pair<V>>, j: nat, hash: Hash, size: nat): seq<Pair<V>>
    requires size > 0
  {
    if ps == [] then []
    else
      var front, p := Chosen(ps[..|ps| - 1], j, hash, size), ps[|ps| - 1];
      if Slot(p.key, hash, size) == j then front + [p] else front
  }

  lemma {:induction false} ListedHas<V(!new)>(datas: seq<seq<Pair<V>>>, n: nat, p: Pair<V>)
    requires n <= |datas|
    ensures p in Listed(datas, n) <==> exists i :: 0 <= i < n && p in datas[i]
  {
    if n > 0 {
      ListedHas(datas, n - 1, p);
      if p in Listed(datas, n - 1) {
        var i :| 0 <= i < n - 1 && p in datas[i];
      }
    }
  }

  lemma {:induction false} ChosenHas<V>(ps: seq<Pair<V>>, j: nat, hash: Hash, size: nat, p: Pair<V>)
    requires size > 0
    ensures p in Chosen(ps, j, hash, size) <==> p in ps && Slot(p.key, hash, size) == j
  {
    if ps != [] {
      ChosenHas(ps[..|ps| - 1], j, hash, size, p);
      assert ps == ps[..|ps| - 1] + [ps[|ps| - 1]];
    }
  }

  lemma {:induction false} ChosenDiffer<V>(ps: seq<Pair<V>>, j: nat, hash: Hash, size: nat)
    requires size > 0 && KeysDiffer(ps)
    ensures KeysDiffer(Chosen(ps, j, hash, size))
  {
    if ps != [] {
      var front, p := ps[..|ps| - 1], ps[|ps| - 1];
      ChosenDiffer(front, j, hash, size);
      var c := Chosen(front, j, hash, size);
      forall i | 0 <= i < |c|
        ensures c[i].key != p.key
      {
        ChosenHas(front, j, hash, size, c[i]);
        var n :| 0 <= n < |front| && front[n] == c[i];
        assert ps[n] == c[i];
      }
    }
  }

  lemma {:induction false} ListedDiffer<V(!new)>(
      datas: seq<seq<Pair<V>>>, n: nat, hash: Hash, size: nat, model: map<Key, V>)
    requires Represents(datas, hash, size, model) && n <= size
    ensures KeysDiffer(Listed(datas, n))
  {
    if n > 0 {
      ListedDiffer(datas, n - 1, hash, size, model);
      var a, b := Listed(datas, n - 1), datas[n - 1];
      assert Holds(b, n - 1, hash, size, model);
      forall i, j | 0 <= i < |a| && 0 <= j < |b|
        ensures a[i].key != b[j].key
      {
        ListedHas(datas, n - 1, a[i]);
        var m :| 0 <= m < n - 1 && a[i] in datas[m];
        assert Holds(datas[m], m, hash, size, model);
        assert b[j] in b;
      }
    }
  }

  lemma {:induction false} ListedIsModel<V(!new)>(
      datas: seq<seq<Pair<V>>>, hash: Hash, size: nat, model: map<Key, V>, p: Pair<V>)
    requires Represents(datas, hash, size, model)
    ensures p in Listed(datas, size) <==> p.key in model && model[p.key] == p.val
  {
    ListedHas(datas, size, p);
    if p.key in model && model[p.key] == p.val {
      assert Holds(datas[Slot(p.key, hash, size)], Slot(p.key, hash, size), hash, size, model);
    }
    if p in Listed(datas, size) {
      var i :| 0 <= i < size && p in datas[i];
      assert Holds(datas[i], i, hash, size, model);
    }
  }

  /** Sorting what was pushed into a new bucket gives what it should hold. */
  lemma {:induction false} RehashedHolds<V(!new)>(
      datas: seq<seq<Pair<V>>>, hash: Hash, size: nat, model: map<Key, V>, size': nat, j: nat)
    requires Represents(datas, hash, size, model) && j < size'
    ensures Holds(Sorted(Chosen(Listed(datas, size), j, hash, size')), j, hash, size', model)
  {
    var all := Listed(datas, size);
    var c := Chosen(all, j, hash, size');
    ListedDiffer(datas, size, hash, size, model);
    ChosenDiffer(all, j, hash, size');
    SortedIsIncreasing(c);
    forall p: Pair<V>
      ensures p in Sorted(c) <==> Slot(p.key, hash, size') == j && p.key in model && model[p.key] == p.val
    {
      SortedHas(c, p);
      ChosenHas(all, j, hash, size', p);
      ListedIsModel(datas, hash, size, model, p);
    }
  }

  // ---------------------------------------------------------------- pairs and maps

  /** The map that one gets by setting the pairs one after the other. */
  function Assembled<V>(ps: seq<Pair<V>>): map<Key, V> {
    if ps == [] then map[] else Assembled(ps[..|ps| - 1])[ps[|ps| - 1].key := ps[|ps| - 1].val]
  }

  lemma SizeAfterSet<V>(model: map<Key, V>, k: Key, v: V)
    ensures |model[k := v]| == |model| + if k in model then 0 else 1
  {
    assert model[k := v].Keys == model.Keys + {k};
  }

  lemma SizeAfterDel<V>(model: map<Key, V>, k: Key)
    ensures |model - {k}| == |model| - if k in model then 1 else 0
  {
    assert (model - {k}).Keys == model.Keys - {k};
  }

  lemma {:induction false} AssembledSize<V>(ps: seq<Pair<V>>)
    requires KeysDiffer(ps)
    ensures |Assembled(ps)| == |ps|
    ensures forall k :: k in Assembled(ps) ==> Pair(k, Assembled(ps)[k]) in ps
    ensures forall p :: p in ps ==> p.key in Assembled(ps) && Assembled(ps)[p.key] == p.val
  {
    if ps != [] {
      var front, last := ps[..|ps| - 1], ps[|ps| - 1];
      assert ps == front + [last];
      AssembledSize(front);
      SizeAfterSet(Assembled(front), last.key, last.val);
      assert forall i :: 0 <= i < |front| ==> ps[i] == front[i];
      AssembledKeys(front, last.key);
    }
  }

  lemma {:induction false} AssembledKeys<V>(ps: seq<Pair<V>>, k: Key)
    ensures k in Assembled(ps) <==> HasKey(ps, k)
  {
    if ps != [] {
      var front := ps[..|ps| - 1];
      AssembledKeys(front, k);
      assert forall i :: 0 <= i < |front| ==> ps[i] == front[i];
      if ps[|ps| - 1].key == k {
        assert HasKey(ps, k);
      } else if HasKey(ps, k) {
        var i :| 0 <= i < |ps| && ps[i].key == k;
        assert front[i].key == k;
      }
    }
  }

  lemma AssembledMore<V>(m: map<Key, V>, ps: seq<Pair<V>>, i: nat)
    requires i < |ps|
    ensures (m + Assembled(ps[..i]))[ps[i].key := ps[i].val] == m + Assembled(ps[..i + 1])
  {
    assert ps[..i + 1][..i] == ps[..i];
  }

  lemma {:induction false} ListedAssembles<V(!new)>(datas: seq<seq<Pair<V>>>, hash: Hash, size: nat, model: map<Key, V>)
    requires Represents(datas, hash, size, model)
    ensures Assembled(Listed(datas, size)) == model && |Listed(datas, size)| == |model|
  {
    var ps := Listed(datas, size);
    ListedDiffer(datas, size, hash, size, model);
    AssembledSize(ps);
    forall k
      ensures k in Assembled(ps) <==> k in model
      ensures k in model ==> Assembled(ps)[k] == model[k]
    {
      if k in Assembled(ps) {
        ListedIsModel(datas, hash, size, model, Pair(k, Assembled(ps)[k]));
      }
      if k in model {
        ListedIsModel(datas, hash, size, model, Pair(k, model[k]));
      }
    }
  }

  /** The floating-point test of the load: rounding may miss an excess but reports none that
      is not there. */
  ghost predicate Sound(crowded: (nat, nat) -> bool) {
    forall total, size :: crowded(total, size) ==> total > 16 * size
  }

  class HashMap<V(!new)> {
    const hash: Hash
    const crowded: (nat, nat) -> bool
    var size: nat
    var total: nat
    var datas: seq<seq<Pair<V>>>

    /** The map that the buckets stand for. */
    ghost var model: map<Key, V>

    ghost predicate Valid()
      reads this
    {
      Sound(crowded) && Represents(datas, hash, size, model) && total == |model|
    }

    constructor (n: nat, hash: Hash, crowded: (nat, nat) -> bool)
      requires Measurable(n) && Sound(crowded)
      ensures Valid() && model == map[] && size == Basket(Magnitude(n))
    {
      MeasurableIsPositive(n);
      this.hash := hash;
      this.crowded := crowded;
      size := Basket(Magnitude(n));
      total := 0;
      datas := seq(Basket(Magnitude(n)), _ => []);
      model := map[];
    }

    method Get(k: Key) returns (r: Option<V>)
      requires Valid()
      ensures r == if k in model then Some(model[k]) else None
    {
      var bucket := datas[Slot(k, hash, size)];
      BucketHasKey(bucket, Slot(k, hash, size), hash, size, model, k);
      var at := BinarySearch(bucket, k);
      r := if at < |bucket| then Some(bucket[at].val) else None;
    }

    method Exists(k: Key) returns (r: bool)
      requires Valid()
      ensures r == (k in model)
    {
      var bucket := datas[Slot(k, hash, size)];
      BucketHasKey(bucket, Slot(k, hash, size), hash, size, model, k);
      var at := BinarySearch(bucket, k);
      r := at < |bucket|;
    }

    /** `set`; a load that is too high is dealt with first. */
    method Set(k: Key, v: V) returns (added: bool)
      requires Valid() && (crowded(total, size) ==> Measurable(total))
      modifies this
      ensures Valid() && model == old(model)[k := v] && added == (k !in old(model))
      ensures old(total) < TWO_31 ==> size >= old(size)
    {
      if crowded(total, size) {
        Rehash();
      }
      var bucket := datas[Slot(k, hash, size)];
      BucketHasKey(bucket, Slot(k, hash, size), hash, size, model, k);
      var at := BinarySearch(bucket, k);
      if at == |bucket| {
        Insert(k, v);
        added := true;
      } else {
        Replace(k, v, at);
        added := false;
      }
    }

    method Insert(k: Key, v: V)
      requires Valid() && k !in model
      modifies this`datas, this`total, this`model
      ensures Valid() && model == old(model)[k := v]
    {
      var pos := Slot(k, hash, size);
      var bucket := datas[pos];
      PlacedHolds(bucket, pos, hash, size, model, k, v);
      OtherBuckets(datas, hash, size, model, model[k := v], k, Placed(bucket, Pair(k, v)));
      SizeAfterSet(model, k, v);
      assert (bucket + [Pair(k, v)])[..|bucket|] == bucket;
      bucket := SortLast(bucket + [Pair(k, v)]);
      datas, total := datas[pos := bucket], total + 1;
      model := model[k := v];
    }

    method Replace(k: Key, v: V, at: nat)
      requires Valid() && at < |datas[Slot(k, hash, size)]| && datas[Slot(k, hash, size)][at].key == k && k in model
      modifies this`datas, this`model
      ensures Valid() && model == old(model)[k := v]
    {
      var pos := Slot(k, hash, size);
      var bucket := datas[pos];
      ReplacedHolds(bucket, pos, hash, size, model, at, v);
      OtherBuckets(datas, hash, size, model, model[k := v], k, bucket[at := Pair(k, v)]);
      SizeAfterSet(model, k, v);
      datas := datas[pos := bucket[at := Pair(k, v)]];
      model := model[k := v];
    }

    method Del(k: Key) returns (there: bool)
      requires Valid()
      modifies this`datas, this`total, this`model
      ensures Valid() && model == old(model) - {k} && there == (k in old(model))
    {
      var pos := Slot(k, hash, size);
      var bucket := datas[pos];
      BucketHasKey(bucket, pos, hash, size, model, k);
      var at := BinarySearch(bucket, k);
      SizeAfterDel(model, k);
      if at == |bucket| {
        assert model - {k} == model;
        return false;
      }
      DeletedHolds(bucket, pos, hash, size, model, at);
      OtherBuckets(datas, hash, size, model, model - {k}, k, Sorted(SwappedOut(bucket, at)));
      datas := datas[pos := Sorted(SwappedOut(bucket, at))];
      total := total - 1;
      model := model - {k};
      return true;
    }

    /** `rehash`: the same map, and below 2^31 pairs more buckets than before. They are more than
        there are pairs if and only if there are fewer than 2^30 pairs. */
    method Rehash()
      requires Valid() && crowded(total, size) && Measurable(total)
      modifies this`datas, this`size
      ensures Valid() && size == Basket(Magnitude(total))
      ensures total < TWO_31 ==> old(size) < size <= 2 * total && (total < size <==> total < MAX_SIZE)
    {
      MeasurableIsPositive(total);
      var size' := Basket(Magnitude(total));
      BasketIsLarge(Magnitude(total), size);
      if size' == size {
        return;
      }
      var pushed := Push(size');
      forall j | 0 <= j < size'
        ensures Holds(Sorted(pushed[j]), j, hash, size', model)
      {
        RehashedHolds(datas, hash, size, model, size', j);
      }
      datas := seq(size', j requires 0 <= j < size' => Sorted(pushed[j]));
      size := size';
    }

    /** The loops that push every pair into its new bucket. */
    method Push(size': nat) returns (pushed: seq<seq<Pair<V>>>)
      requires |datas| == size && size' > 0
      ensures |pushed| == size'
      ensures forall j :: 0 <= j < size' ==> pushed[j] == Chosen(Listed(datas, size), j, hash, size')
    {
      pushed := seq(size', _ => []);
      var i := 0;
      while i < size
        invariant 0 <= i <= size && |pushed| == size'
        invariant forall j :: 0 <= j < size' ==> pushed[j] == Chosen(Listed(datas, i), j, hash, size')
      {
        var n := 0;
        assert Listed(datas, i) + datas[i][..0] == Listed(datas, i);
        while n < |datas[i]|
          invariant 0 <= n <= |datas[i]| && |pushed| == size'
          invariant forall j :: 0 <= j < size' ==>
            pushed[j] == Chosen(Listed(datas, i) + datas[i][..n], j, hash, size')
        {
          var p := datas[i][n];
          var target := Slot(p.key, hash, size');
          ghost var before := Listed(datas, i) + datas[i][..n];
          assert Listed(datas, i) + datas[i][..n + 1] == before + [p];
          assert (before + [p])[..|before|] == before;
          pushed := pushed[target := pushed[target] + [p]];
          n := n + 1;
        }
        assert datas[i][..n] == datas[i];
        i := i + 1;
      }
    }

    /** `merge`: the pairs of the other map override. */
    method Merge(oth: HashMap<V>)
      requires Valid() && oth.Valid() && forall n :: total <= n < total + oth.total && n > 0 ==> Measurable(n)
      modifies this
      ensures Valid() && model == old(model) + old(oth.model)
    {
      ListedAssembles(oth.datas, oth.hash, oth.size, oth.model);
      SetAll(Listed(oth.datas, oth.size));
    }

    method SetAll(ps: seq<Pair<V>>)
      requires Valid() && forall n :: total <= n < total + |ps| && n > 0 ==> Measurable(n)
      modifies this
      ensures Valid() && model == old(model) + Assembled(ps)
    {
      var i := 0;
      while i < |ps|
        invariant 0 <= i <= |ps| && Valid() && old(total) <= total <= old(total) + i
        invariant model == old(model) + Assembled(ps[..i])
      {
        AssembledMore(old(model), ps, i);
        SizeAfterSet(model, ps[i].key, ps[i].val);
        var added := Set(ps[i].key, ps[i].val);
        i := i + 1;
      }
      assert ps[..i] == ps;
    }
  }
}
