/**
 * The cache engine of cache.go: a key index over a recency list of heap
 * nodes, a size counter checked against a fixed capacity, and an absolute
 * expiration per node.
 *
 * The recency list is the sequence `list` of node objects from head to
 * tail; the nodes are shared with the index, so an update through the
 * index is seen in the list. Valid() ties the index, the list's nodes and
 * the counter to the abstract view (`order`, `contents`, `events`), and
 * every public method is proved to change that view exactly as the
 * functions of module LruModel say. Metrics events are ghost counters;
 * time is the argument `now`.
 */
module Engine {
  import opened LruModel
  import opened Config

  /** One node of the recency list (cacheItem); its place in the list stands for its prev/next links. */
  class Item<K, V> {
    const key: K
    var value: V
    var expiration: int

    /** A node for a new key. */
    constructor (key: K, value: V, expiration: int)
      ensures this.key == key && this.value == value && this.expiration == expiration
    {
      this.key := key;
      this.value := value;
      this.expiration := expiration;
    }
  }

  /** `ns` carries the keys `ks` position by position, and `idx` maps each of those keys to its node. */
  ghost predicate Indexes<K, V>(ks: seq<K>, idx: map<K, Item<K, V>>, ns: seq<Item<K, V>>)
  {
    && |ks| == |ns|
    && (forall a :: 0 <= a < |ns| ==> ns[a].key == ks[a])
    && (forall a :: 0 <= a < |ks| ==> ks[a] in idx && idx[ks[a]] == ns[a])
  }

  /** The node at each position holds the entry `cs` records for the key at that position. */
  ghost predicate Stores<K, V>(ks: seq<K>, cs: map<K, Entry<V>>, ns: seq<Item<K, V>>)
    reads ns
  {
    && |ks| == |ns|
    && (forall a :: 0 <= a < |ks| ==> ks[a] in cs && cs[ks[a]] == Entry(ns[a].value, ns[a].expiration))
  }

  /**
   * The engine's state agrees with the abstract keys `ks` and entries `cs`:
   * `size` is the length of the list, the index maps exactly the listed
   * keys to their nodes, each node holds its key's entry, and the keys are
   * distinct and within the capacity.
   */
  ghost predicate Consistent<K, V>(ks: seq<K>, cs: map<K, Entry<V>>, idx: map<K, Item<K, V>>,
                                   ns: seq<Item<K, V>>, size: nat, maxsize: nat)
    reads ns
  {
    && |ns| == size
    && Indexes(ks, idx, ns)
    && Stores(ks, cs, ns)
    && idx.Keys == cs.Keys
    && Keyed(ks, cs, maxsize)
  }

  /** Unlinking position `i` keeps the state consistent with the view minus that key. */
  lemma ConsistentRemove<K, V>(ks: seq<K>, cs: map<K, Entry<V>>, idx: map<K, Item<K, V>>,
                               ns: seq<Item<K, V>>, size: nat, maxsize: nat, i: nat)
    requires Consistent(ks, cs, idx, ns, size, maxsize) && i < |ks|
    ensures Consistent(ks[..i] + ks[i + 1..], cs - {ks[i]}, idx - {ks[i]}, ns[..i] + ns[i + 1..], size - 1, maxsize)
  {
    IndexesRemove(ks, idx, ns, i);
    StoresRemove(ks, cs, ns, i);
    DropDistinct(ks, i);
  }

  /** Relinking the tail of a list of two or more nodes in front of the head keeps the state consistent. */
  lemma ConsistentToHead<K, V>(ks: seq<K>, cs: map<K, Entry<V>>, idx: map<K, Item<K, V>>,
                               ns: seq<Item<K, V>>, size: nat, maxsize: nat)
    requires Consistent(ks, cs, idx, ns, size, maxsize) && |ks| > 1
    ensures Consistent(TailToHead(ks), cs, idx, TailToHead(ns), size, maxsize)
  {
    IndexesToHead(ks, idx, ns);
    StoresToHead(ks, cs, ns);
    TouchDistinct(ks, ks[|ks| - 1]);
  }

  /** Linking a node for a new key in at the head keeps the state consistent, given room. */
  lemma ConsistentInsert<K, V>(ks: seq<K>, cs: map<K, Entry<V>>, idx: map<K, Item<K, V>>,
                               ns: seq<Item<K, V>>, size: nat, maxsize: nat, n: Item<K, V>)
    requires Consistent(ks, cs, idx, ns, size, maxsize) && n.key !in cs && (maxsize > 0 ==> size < maxsize)
    ensures Consistent([n.key] + ks, cs[n.key := Entry(n.value, n.expiration)], idx[n.key := n], [n] + ns,
                       size + 1, maxsize)
  {
    IndexesInsert(ks, idx, ns, n);
    StoresInsert(ks, cs, ns, n);
    PrependDistinct(ks, n.key);
  }

  /** Unlinking position `i` keeps the index tied to the remaining nodes. */
  lemma IndexesRemove<K, V>(ks: seq<K>, idx: map<K, Item<K, V>>, ns: seq<Item<K, V>>, i: nat)
    requires Indexes(ks, idx, ns) && Distinct(ks) && i < |ks|
    ensures Indexes(ks[..i] + ks[i + 1..], idx - {ks[i]}, ns[..i] + ns[i + 1..])
  {
    var ks', ns' := ks[..i] + ks[i + 1..], ns[..i] + ns[i + 1..];
    assert |ks'| == |ns'| == |ks| - 1;
    forall a | 0 <= a < |ks'|
      ensures ns'[a].key == ks'[a] && ks'[a] in idx - {ks[i]} && (idx - {ks[i]})[ks'[a]] == ns'[a]
    {
      var b := if a < i then a else a + 1;
      if a >= i {
        assert ks[i + 1..][a - i] == ks[b] && ns[i + 1..][a - i] == ns[b];
      }
      assert ks'[a] == ks[b] && ns'[a] == ns[b];
      assert ks[b] != ks[i];
    }
  }

  /** Unlinking position `i` keeps every other node holding its entry. */
  lemma StoresRemove<K, V>(ks: seq<K>, cs: map<K, Entry<V>>, ns: seq<Item<K, V>>, i: nat)
    requires Stores(ks, cs, ns) && Distinct(ks) && i < |ks|
    ensures Stores(ks[..i] + ks[i + 1..], cs - {ks[i]}, ns[..i] + ns[i + 1..])
  {
    var ks', ns' := ks[..i] + ks[i + 1..], ns[..i] + ns[i + 1..];
    assert |ks'| == |ns'| == |ks| - 1;
    forall a | 0 <= a < |ks'|
      ensures ks'[a] in cs - {ks[i]} && (cs - {ks[i]})[ks'[a]] == Entry(ns'[a].value, ns'[a].expiration)
    {
      var b := if a < i then a else a + 1;
      if a >= i {
        assert ks[i + 1..][a - i] == ks[b] && ns[i + 1..][a - i] == ns[b];
      }
      assert ks'[a] == ks[b] && ns'[a] == ns[b];
      assert ks[b] != ks[i];
    }
  }

  /** Relinking the tail in front of the head keeps the index tied to the nodes. */
  lemma IndexesToHead<K, V>(ks: seq<K>, idx: map<K, Item<K, V>>, ns: seq<Item<K, V>>)
    requires Indexes(ks, idx, ns) && |ks| > 0
    ensures Indexes(TailToHead(ks), idx, TailToHead(ns))
  {
    var ks', ns' := TailToHead(ks), TailToHead(ns);
    forall a | 0 <= a < |ks'|
      ensures ns'[a].key == ks'[a] && ks'[a] in idx && idx[ks'[a]] == ns'[a]
    {
      var b := if a == 0 then |ks| - 1 else a - 1;
      assert ks'[a] == ks[b] && ns'[a] == ns[b];
    }
  }

  /** Relinking the tail in front of the head keeps every node holding its entry. */
  lemma StoresToHead<K, V>(ks: seq<K>, cs: map<K, Entry<V>>, ns: seq<Item<K, V>>)
    requires Stores(ks, cs, ns) && |ks| > 0
    ensures Stores(TailToHead(ks), cs, TailToHead(ns))
  {
    var ks', ns' := TailToHead(ks), TailToHead(ns);
    forall a | 0 <= a < |ks'|
      ensures ks'[a] in cs && cs[ks'[a]] == Entry(ns'[a].value, ns'[a].expiration)
    {
      var b := if a == 0 then |ks| - 1 else a - 1;
      assert ks'[a] == ks[b] && ns'[a] == ns[b];
    }
  }

  /** A node for a new key linked in at the head is indexed under its key. */
  lemma IndexesInsert<K, V>(ks: seq<K>, idx: map<K, Item<K, V>>, ns: seq<Item<K, V>>, n: Item<K, V>)
    requires Indexes(ks, idx, ns) && n.key !in ks
    ensures Indexes([n.key] + ks, idx[n.key := n], [n] + ns)
  {
    var ks', ns' := [n.key] + ks, [n] + ns;
    forall a | 0 <= a < |ks'|
      ensures ns'[a].key == ks'[a] && ks'[a] in idx[n.key := n] && idx[n.key := n][ks'[a]] == ns'[a]
    {
      if a > 0 {
        assert ks'[a] == ks[a - 1] && ns'[a] == ns[a - 1];
      }
    }
  }

  /** A node for a new key linked in at the head holds the entry recorded for it. */
  lemma StoresInsert<K, V>(ks: seq<K>, cs: map<K, Entry<V>>, ns: seq<Item<K, V>>, n: Item<K, V>)
    requires Stores(ks, cs, ns) && n.key !in ks
    ensures Stores([n.key] + ks, cs[n.key := Entry(n.value, n.expiration)], [n] + ns)
  {
    var ks', ns' := [n.key] + ks, [n] + ns;
    var cs' := cs[n.key := Entry(n.value, n.expiration)];
    forall a | 0 <= a < |ks'|
      ensures ks'[a] in cs' && cs'[ks'[a]] == Entry(ns'[a].value, ns'[a].expiration)
    {
      if a > 0 {
        assert ks'[a] == ks[a - 1] && ns'[a] == ns[a - 1];
      }
    }
  }

  /** The node at position `i` is the only one equal to it, so removing it removes exactly that position. */
  lemma RemoveNodeAt<K, V>(ks: seq<K>, idx: map<K, Item<K, V>>, ns: seq<Item<K, V>>, i: nat)
    requires Indexes(ks, idx, ns) && Distinct(ks) && i < |ks|
    ensures Remove(ns, ns[i]) == ns[..i] + ns[i + 1..]
  {
    forall a, b | 0 <= a < b < |ns| ensures ns[a] != ns[b] {
      assert ks[a] != ks[b];
    }
    RemoveAt(ns, i);
  }

  class Cache<K(==), V> {
    const logger: Logger
    const metrics: Sink
    const maxsize: nat
    var index: map<K, Item<K, V>>
    /** The recency list from head (most recent) to tail. */
    var list: seq<Item<K, V>>
    var size: nat

    /** The keys of `list`, and the entry stored under each key. */
    ghost var order: seq<K>
    ghost var contents: map<K, Entry<V>>
    /** The metrics events emitted so far. */
    ghost var events: Events

    ghost function Model(): View<K, V>
      reads this
    {
      View(order, contents, maxsize, events)
    }

    /**
     * The structure invariant: the list, the index and the counter agree
     * with the abstract view (see Consistent), and every Add has been
     * matched by a Delete or by a listed node.
     */
    ghost predicate Valid()
      reads this, list
    {
      && Consistent(order, contents, index, list, size, maxsize)
      && events.adds == events.deletes + |order|
    }

    /** The cache NewCache builds: empty, with the given collaborators and capacity. */
    constructor (logger: Logger, maxsize: nat, metrics: Sink)
      ensures Valid() && Model() == Empty(maxsize)
      ensures this.logger == logger && this.metrics == metrics
      ensures list == [] && size == 0 && index == map[]
    {
      this.logger := logger;
      this.maxsize := maxsize;
      this.metrics := metrics;
      index := map[];
      list, size := [], 0;
      order, contents, events := [], map[], NoEvents;
    }

    /** The list position of a present key. */
    ghost function Position(key: K): (i: nat)
      reads this, list
      requires Valid() && key in index
      ensures i < |order| && order[i] == key && index[key] == list[i]
      ensures forall j :: 0 <= j < |order| && order[j] == key ==> j == i
    {
      assert key in order;
      var i :| 0 <= i < |order| && order[i] == key; i
    }

    /** Only the last position holds the last node, and the last key. */
    lemma LastIsTail(i: nat)
      requires Valid() && i < |order|
      ensures list[|list| - 1] == list[i] <==> i == |order| - 1
      ensures order[|order| - 1] == order[i] <==> i == |order| - 1
    {
      assert Distinct(order);
    }

    /** Record metrics events other than Add and Delete; nothing else changes. */
    ghost method Emit(e: Events)
      requires Valid() && e.adds == events.adds && e.deletes == events.deletes
      modifies this
      ensures Valid() && Model() == old(Model()).(events := e)
      ensures list == old(list) && index == old(index) && size == old(size)
    {
      events := e;
    }

    /**
     * Get(key) at time `now`: a live entry is a hit (and is promoted when it
     * is the tail of a list of more than one node), an entry that is no
     * longer live is removed and misses, an absent key misses.
     */
    method Get(key: K, now: int) returns (r: Lookup<V>)
      requires Valid()
      modifies this
      ensures Valid()
      ensures r == Find(old(Model()), key, now)
      ensures Model() == AfterGet(old(Model()), key, now)
      ensures old(key in contents && contents[key].expiration > now) ==> index == old(index) && size == old(size)
    {
      ghost var v := Model();
      if key in index {
        var item := index[key];
        ghost var i := Position(key);
        assert contents[key] == Entry(item.value, item.expiration);
        if item.expiration > now {
          var value := item.value;
          LastIsTail(i);
          var promote := list[|list| - 1] == item && size > 1;
          assert promote <==> |order| > 1 && order[|order| - 1] == key;
          if promote {
            MoveToHead(key);
          }
          assert Model() == v.(order := Touch(v.order, key));
          Emit(events.(hits := events.hits + 1));
          r := Hit(value);
          assert Model() == AfterGet(v, key, now);
        } else {
          // deleteexpired's removal emits Delete; Get adds Miss and Evict.
          DeleteExpired(key, now);
          assert Model() == DeleteKey(v, key);
          Emit(events.(misses := events.misses + 1, evicts := events.evicts + 1));
          r := Miss;
          assert Model() == AfterGet(v, key, now);
        }
      } else {
        Emit(events.(misses := events.misses + 1));
        r := Miss;
        assert Model() == AfterGet(v, key, now);
      }
    }

    /** movetohead: re-find the key and, if its node is the tail, relink it in front of the head. */
    method MoveToHead(key: K)
      requires Valid() && |order| > 1
      modifies this
      ensures Valid() && index == old(index) && size == old(size)
      ensures Model() == old(Model()).(order := Touch(old(order), key))
    {
      if key in index {
        var item := index[key];
        ghost var i := Position(key);
        LastIsTail(i);
        if list[|list| - 1] == item {
          RelinkTail();
        }
      }
    }

    /** The relinking that movetohead and Set share: the tail node becomes the head. */
    method RelinkTail()
      requires Valid() && |order| > 1
      modifies this
      ensures Valid()
      ensures Model() == old(Model()).(order := TailToHead(old(order)))
      ensures list == TailToHead(old(list)) && index == old(index) && size == old(size)
    {
      ConsistentToHead(order, contents, index, list, size, maxsize);
      list := [list[|list| - 1]] + list[..|list| - 1];
      order := TailToHead(order);
    }

    /**
     * deleteexpired, called by Get only for an entry that is no longer live,
     * with the unlink test made the exact negation of Get's hit test: the
     * entry is unlinked, dropped from the index and from the counter; an
     * absent key changes nothing.
     */
    method DeleteExpired(key: K, now: int)
      requires Valid() && (key in contents ==> contents[key].expiration <= now)
      modifies this
      ensures Valid()
      ensures Model() == DeleteKey(old(Model()), key)
    {
      if key in index {
        var item := index[key];
        ghost var i := Position(key);
        if !(item.expiration > now) {
          Detach(key);
        }
      }
    }

    /**
     * The removal shared by deleteexpired and Delete: unlink the node of a
     * present key, drop the key from the index, lower the counter and emit
     * Delete.
     */
    method Detach(key: K)
      requires Valid() && key in index
      modifies this
      ensures Valid()
      ensures Model() == DeleteKey(old(Model()), key)
    {
      var item := index[key];
      ghost var i := Position(key);
      ghost var v := Model();
      ConsistentRemove(order, contents, index, list, size, maxsize, i);
      RemoveNodeAt(order, index, list, i);
      DeletePresentKey(v, i);
      if size > 0 {
        size := size - 1;
      } else {
        assert false;
      }
      list, index := Remove(list, item), index - {key};
      order, contents := order[..i] + order[i + 1..], contents - {key};
      events := events.(deletes := events.deletes + 1);
    }

    /**
     * Set(key, value, ttl) at time `now`: refresh a present entry in place,
     * or insert a new one at the head after evicting the tail when the size
     * has reached the capacity.
     */
    method Set(key: K, value: V, ttl: int, now: int)
      requires Valid()
      modifies this, index.Values
      ensures Valid()
      ensures Model() == LruModel.Set(old(Model()), key, value, now + ttl)
      ensures old(key in index) ==> index == old(index) && size == old(size)
    {
      var expiration := now + ttl;
      if key in index {
        Refresh(key, value, expiration);
        return;
      }
      if size == maxsize {
        if |list| > 0 {
          Evict();
        }
      }
      var item := AddToHead(key, value, expiration);
    }

    /** The present-key branch of Set: overwrite the node in place, promote it if it is the tail; emits Update. */
    method Refresh(key: K, value: V, expiration: int)
      requires Valid() && key in index
      modifies this, index[key]
      ensures Valid() && index == old(index)
      ensures Model() == LruModel.Set(old(Model()), key, value, expiration)
    {
      var item := index[key];
      ghost var i := Position(key);
      LastIsTail(i);
      Overwrite(key, value, expiration);
      if list[|list| - 1] == item {
        if size > 1 {
          RelinkTail();
        }
      }
      Emit(events.(updates := events.updates + 1));
    }

    /** The in-place update of a present key's node through the index. */
    method Overwrite(key: K, value: V, expiration: int)
      requires Valid() && key in index
      modifies this, index[key]
      ensures Valid() && list == old(list) && index == old(index) && size == old(size)
      ensures Model() == old(Model()).(contents := old(contents)[key := Entry(value, expiration)])
    {
      var item := index[key];
      ghost var i := Position(key);
      SetPreservesWf(Model(), key, value, expiration);
      item.value := value;
      item.expiration := expiration;
      contents := contents[key := Entry(value, expiration)];
      forall a | 0 <= a < |order|
        ensures order[a] in contents && contents[order[a]] == Entry(list[a].value, list[a].expiration)
      {
        assert a != i ==> list[a] != item && order[a] != key;
      }
    }

    /** Capacity eviction inside Set: drop the tail node; emits Delete and Evict. */
    method Evict()
      requires Valid() && |list| > 0
      modifies this
      ensures Valid()
      ensures Model() == EvictTail(old(Model()))
    {
      var item := list[|list| - 1];
      EvictIsDeleteTail(Model());
      Detach(item.key);
      Emit(events.(evicts := events.evicts + 1));
    }

    /** Insertion inside Set: link a fresh node for a new key in at the head; emits Add. */
    method AddToHead(key: K, value: V, expiration: int) returns (item: Item<K, V>)
      requires Valid() && key !in contents && (maxsize > 0 ==> size < maxsize)
      modifies this
      ensures Valid()
      ensures Model() == Insert(old(Model()), key, value, expiration)
      ensures fresh(item) && list == [item] + old(list) && index == old(index)[key := item]
    {
      item := new Item(key, value, expiration);
      Link(item);
    }

    /** Link a node for a new key in front of the head and index it; emits Add. */
    method Link(item: Item<K, V>)
      requires Valid() && item.key !in contents && (maxsize > 0 ==> size < maxsize)
      modifies this
      ensures Valid()
      ensures Model() == Insert(old(Model()), item.key, item.value, item.expiration)
      ensures list == [item] + old(list) && index == old(index)[item.key := item]
    {
      ConsistentInsert(order, contents, index, list, size, maxsize, item);
      order := [item.key] + order;
      contents := contents[item.key := Entry(item.value, item.expiration)];
      events := events.(adds := events.adds + 1);
      list := [item] + list;
      index := index[item.key := item];
      size := size + 1;
    }

    /** Delete(keys...): every present key is removed, absent keys are ignored. */
    method Delete(keys: seq<K>)
      requires Valid()
      modifies this
      ensures Valid()
      ensures Model() == LruModel.Delete(old(Model()), keys)
    {
      for j := 0 to |keys|
        invariant Valid()
        invariant Model() == LruModel.Delete(old(Model()), keys[..j])
      {
        var k := keys[j];
        if k in index {
          Detach(k);
        }
        assert keys[..j + 1][..j] == keys[..j];
      }
      assert keys[..|keys|] == keys;
    }

    /**
     * Reset: pop every node from the head, emitting one Delete per node,
     * then start over with an empty index. The error it returns is always
     * nil (here: false).
     */
    method Reset() returns (err: bool)
      requires Valid()
      modifies this
      ensures Valid()
      ensures Model() == LruModel.Reset(old(Model()))
      ensures list == [] && size == 0 && index == map[]
      ensures !err
    {
      ghost var j := 0;
      while list != []
        invariant 0 <= j <= |old(list)| && list == old(list)[j..]
        invariant events == old(events).(deletes := old(events).deletes + j)
        decreases |list|
      {
        list := list[1..];
        events := events.(deletes := events.deletes + 1);
        j := j + 1;
      }
      index := map[];
      size := 0;
      order, contents := [], map[];
      err := false;
      ResetEmpties(old(Model()));
    }
  }

  /**
   * NewCache: start from the defaults (no-op logger, capacity 1000, no-op
   * metrics), apply the options left to right, and build an empty cache.
   */
  method NewCache<K(==), V>(os: seq<Option>) returns (c: Cache<K, V>)
    ensures fresh(c) && c.Valid()
    ensures c.Model() == Empty(ApplyAll(Defaults, os).maxsize)
    ensures c.logger == ApplyAll(Defaults, os).logger && c.metrics == ApplyAll(Defaults, os).metrics
    ensures c.list == [] && c.size == 0 && c.index == map[]
  {
    var local := new Options.Default();
    for i := 0 to |os|
      invariant local.Current() == ApplyAll(Defaults, os[..i])
    {
      os[i].Apply(local);
      assert os[..i + 1][..i] == os[..i];
    }
    assert os[..|os|] == os;
    c := new Cache(local.logger, local.maxsize, local.metrics);
  }
}
