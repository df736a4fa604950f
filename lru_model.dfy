/**
 * The abstract behaviour of the LRU+TTL cache engine (cache.go).
 *
 * A View is what a caller can observe of a cache: the keys in recency
 * order from head (most recently inserted or promoted) to tail, the
 * value and absolute expiration stored for each key, the capacity, and
 * the metrics events emitted so far. Each public operation of the engine is a function on
 * views here; the heap implementation in module Engine is proved to
 * follow these functions exactly.
 */
module LruModel {

  /** The payload of one entry: its value and its absolute expiration time. */
  datatype Entry<V> = Entry(value: V, expiration: int)

  /** Running counts of the metrics events the engine emits. */
  datatype Events = Events(
    hits: nat, misses: nat, errors: nat, adds: nat, updates: nat, evicts: nat, deletes: nat)

  const NoEvents: Events := Events(0, 0, 0, 0, 0, 0, 0)

  /** What a caller can observe of a cache. `order` lists keys head to tail. */
  datatype View<K, V> = View(order: seq<K>, contents: map<K, Entry<V>>, maxsize: nat, events: Events)

  /** The result of Get: a hit with its value, or a miss (the zero value with false). */
  datatype Lookup<V> = Hit(value: V) | Miss

  predicate Distinct<K(==)>(s: seq<K>)
  {
    forall i, j :: 0 <= i < j < |s| ==> s[i] != s[j]
  }

  /**
   * The invariant every public operation keeps: the list holds each
   * indexed key exactly once, the capacity bound holds whenever the
   * capacity is positive, and Add events minus Delete events is the size.
   */
  predicate Wf<K(==), V>(v: View<K, V>)
  {
    && Keyed(v.order, v.contents, v.maxsize)
    && v.events.adds == v.events.deletes + |v.order|
  }

  /** The part of Wf that does not involve the events. */
  predicate Keyed<K(==), V>(order: seq<K>, contents: map<K, Entry<V>>, maxsize: nat)
  {
    && Distinct(order)
    && (forall k :: k in contents ==> k in order)
    && (forall k :: k in order ==> k in contents)
    && (maxsize > 0 ==> |order| <= maxsize)
  }

  /** A fresh cache of the given capacity. */
  function Empty<K(==), V>(maxsize: nat): (v: View<K, V>)
    ensures Wf(v) && v.order == [] && v.contents == map[]
  {
    View([], map[], maxsize, NoEvents)
  }

  // ---------------------------------------------------------------------
  // Sequence helpers

  /** `s` without the first occurrence of `k` (unlinking one list node). */
  function Remove<K(==)>(s: seq<K>, k: K): (r: seq<K>)
    ensures |r| == if k in s then |s| - 1 else |s|
    ensures forall x :: x in r ==> x in s
    decreases |s|
  {
    if s == [] then []
    else if s[0] == k then s[1..]
    else [s[0]] + Remove(s[1..], k)
  }

  /** The tail entry relinked in front of the head. */
  function TailToHead<K(==)>(s: seq<K>): (r: seq<K>)
    requires |s| > 0
    ensures |r| == |s|
  {
    [s[|s| - 1]] + s[..|s| - 1]
  }

  /**
   * The engine's repositioning rule: a touched key moves to the head only
   * when it is the current tail and the list holds more than one entry.
   */
  function Touch<K(==)>(s: seq<K>, k: K): (r: seq<K>)
    ensures |r| == |s|
    ensures r == s || (k in s && r[0] == k)
  {
    if |s| > 1 && s[|s| - 1] == k then TailToHead(s) else s
  }

  // ---------------------------------------------------------------------
  // The operations

  /** Capacity eviction: drop the tail entry; emits Delete and Evict. */
  function EvictTail<K(==), V>(v: View<K, V>): View<K, V>
    requires |v.order| > 0
  {
    var last := v.order[|v.order| - 1];
    v.(order := v.order[..|v.order| - 1],
       contents := v.contents - {last},
       events := v.events.(deletes := v.events.deletes + 1, evicts := v.events.evicts + 1))
  }

  /** A brand-new key linked in at the head; emits Add. */
  function Insert<K(==), V>(v: View<K, V>, key: K, value: V, expiration: int): View<K, V>
  {
    v.(order := [key] + v.order,
       contents := v.contents[key := Entry(value, expiration)],
       events := v.events.(adds := v.events.adds + 1))
  }

  /**
   * Set(key, value, ttl) with `expiration` = now + ttl. A present key is
   * refreshed in place (emits Update); a new key first evicts the tail when
   * the size has reached the capacity.
   */
  function Set<K(==), V>(v: View<K, V>, key: K, value: V, expiration: int): (r: View<K, V>)
    ensures key in r.contents && r.contents[key] == Entry(value, expiration)
    ensures forall k :: k in r.contents && k != key ==> k in v.contents && r.contents[k] == v.contents[k]
    ensures r.maxsize == v.maxsize
  {
    if key in v.contents then
      v.(order := Touch(v.order, key),
         contents := v.contents[key := Entry(value, expiration)],
         events := v.events.(updates := v.events.updates + 1))
    else
      Insert(if |v.order| == v.maxsize && |v.order| > 0 then EvictTail(v) else v, key, value, expiration)
  }

  /** The result Get(key) returns at time `now`. */
  function Find<K(==), V>(v: View<K, V>, key: K, now: int): Lookup<V>
  {
    if key in v.contents && v.contents[key].expiration > now then Hit(v.contents[key].value) else Miss
  }

  /**
   * Lazy expiration: remove `key` from the index and the list; emits Miss,
   * Evict and Delete.
   */
  function Expire<K(==), V>(v: View<K, V>, key: K): View<K, V>
  {
    v.(order := Remove(v.order, key),
       contents := v.contents - {key},
       events := v.events.(misses := v.events.misses + 1, evicts := v.events.evicts + 1,
                           deletes := v.events.deletes + 1))
  }

  /**
   * The cache after Get(key) at time `now`. An entry whose expiration is
   * not after `now` is removed (see AfterGetAsWritten for the source's
   * boundary case).
   */
  function AfterGet<K(==), V>(v: View<K, V>, key: K, now: int): View<K, V>
  {
    if key !in v.contents then
      v.(events := v.events.(misses := v.events.misses + 1))
    else if v.contents[key].expiration > now then
      v.(order := Touch(v.order, key), events := v.events.(hits := v.events.hits + 1))
    else
      Expire(v, key)
  }

  /**
   * Get with the source's two expiration tests: the hit test is
   * "expiration after now", but the removal only unlinks the node when
   * "expiration before now", while it always drops the index entry. A View
   * has no size counter apart from the length of `order`, so the source's
   * separate size decrement, and its return of the still-linked node to
   * the item pool, are not represented here.
   */
  function AfterGetAsWritten<K(==), V>(v: View<K, V>, key: K, now: int): (r: View<K, V>)
    ensures r.contents == AfterGet(v, key, now).contents && r.events == AfterGet(v, key, now).events
    ensures r.maxsize == v.maxsize
  {
    if key !in v.contents then
      v.(events := v.events.(misses := v.events.misses + 1))
    else if v.contents[key].expiration > now then
      v.(order := Touch(v.order, key), events := v.events.(hits := v.events.hits + 1))
    else
      v.(order := if v.contents[key].expiration < now then Remove(v.order, key) else v.order,
         contents := v.contents - {key},
         events := v.events.(misses := v.events.misses + 1, evicts := v.events.evicts + 1,
                             deletes := v.events.deletes + 1))
  }

  /** Delete of one key: absent keys are ignored; a present one emits Delete. */
  function DeleteKey<K(==), V>(v: View<K, V>, key: K): (r: View<K, V>)
    ensures key !in r.contents && r.maxsize == v.maxsize
    ensures r.contents.Keys == v.contents.Keys - {key}
  {
    if key in v.contents then
      v.(order := Remove(v.order, key),
         contents := v.contents - {key},
         events := v.events.(deletes := v.events.deletes + 1))
    else
      v
  }

  /** Delete(keys...): the keys are processed left to right. */
  function Delete<K(==), V>(v: View<K, V>, keys: seq<K>): View<K, V>
    decreases |keys|
  {
    if keys == [] then v else DeleteKey(Delete(v, keys[..|keys| - 1]), keys[|keys| - 1])
  }

  /** Reset: everything is dropped, with one Delete event per list node. */
  function Reset<K(==), V>(v: View<K, V>): View<K, V>
  {
    v.(order := [], contents := map[], events := v.events.(deletes := v.events.deletes + |v.order|))
  }

  // ---------------------------------------------------------------------
  // Facts about the sequence helpers

  lemma {:induction false} RemoveAt<K>(s: seq<K>, i: nat)
    requires Distinct(s) && i < |s|
    ensures Remove(s, s[i]) == s[..i] + s[i + 1..]
    decreases |s|
  {
    if i > 0 {
      assert s[0] != s[i];
      RemoveAt(s[1..], i - 1);
      assert s[1..][i - 1] == s[i];
      assert [s[0]] + (s[1..][..i - 1] + s[1..][i..]) == s[..i] + s[i + 1..];
    }
  }

  lemma {:induction false} RemoveAbsent<K>(s: seq<K>, k: K)
    requires k !in s
    ensures Remove(s, k) == s
    decreases |s|
  {
    if s != [] {
      RemoveAbsent(s[1..], k);
    }
  }

  /** Dropping position `i` of a duplicate-free list keeps every other element. */
  lemma DropDistinct<K>(s: seq<K>, i: nat)
    requires Distinct(s) && i < |s|
    ensures Distinct(s[..i] + s[i + 1..])
    ensures forall x :: x in s[..i] + s[i + 1..] ==> x in s && x != s[i]
    ensures forall x :: x in s && x != s[i] ==> x in s[..i] + s[i + 1..]
  {
    var r := s[..i] + s[i + 1..];
    assert forall a :: 0 <= a < i ==> r[a] == s[a];
    assert forall a :: i <= a < |r| ==> r[a] == s[a + 1];
    forall x | x in s && x != s[i] ensures x in r {
      var j :| 0 <= j < |s| && s[j] == x;
      assert x == r[if j < i then j else j - 1];
    }
  }

  /** Putting a new element in front of a duplicate-free list keeps it duplicate-free. */
  lemma PrependDistinct<K>(s: seq<K>, k: K)
    requires Distinct(s) && k !in s
    ensures Distinct([k] + s)
  {
    var r := [k] + s;
    forall a, b | 0 <= a < b < |r| ensures r[a] != r[b] {
      assert r[b] == s[b - 1];
      if a > 0 { assert r[a] == s[a - 1]; }
    }
  }

  /** Removing one key from a duplicate-free list keeps every other key. */
  lemma RemoveDistinct<K>(s: seq<K>, k: K)
    requires Distinct(s)
    ensures Distinct(Remove(s, k))
    ensures forall x :: x in Remove(s, k) ==> x in s && x != k
    ensures forall x :: x in s && x != k ==> x in Remove(s, k)
  {
    if k in s {
      var i :| 0 <= i < |s| && s[i] == k;
      RemoveAt(s, i);
      DropDistinct(s, i);
    } else {
      RemoveAbsent(s, k);
    }
  }

  lemma TouchDistinct<K>(s: seq<K>, k: K)
    requires Distinct(s)
    ensures Distinct(Touch(s, k)) && |Touch(s, k)| == |s|
    ensures forall x :: x in Touch(s, k) <==> x in s
  {
    if |s| > 1 && s[|s| - 1] == k {
      var r := TailToHead(s);
      var n := |s|;
      assert forall a :: 0 < a < n ==> r[a] == s[a - 1];
      forall a, b | 0 <= a < b < n ensures r[a] != r[b] {
        if a == 0 { assert r[b] == s[b - 1]; }
      }
      forall x ensures x in r <==> x in s {
        if x in s {
          var j :| 0 <= j < n && s[j] == x;
          assert x == r[if j == n - 1 then 0 else j + 1];
        }
      }
    }
  }

  // ---------------------------------------------------------------------
  // Set

  lemma EvictTailPreservesWf<K, V>(v: View<K, V>)
    requires Wf(v) && |v.order| > 0
    ensures Wf(EvictTail(v))
  {
    var n := |v.order|;
    DropDistinct(v.order, n - 1);
    assert v.order[..n - 1] + v.order[n..] == v.order[..n - 1];
  }

  /** Capacity eviction is the deletion of the tail key plus one Evict event. */
  lemma EvictIsDeleteTail<K, V>(v: View<K, V>)
    requires Wf(v) && |v.order| > 0
    ensures var d := DeleteKey(v, v.order[|v.order| - 1]);
      EvictTail(v) == d.(events := d.events.(evicts := d.events.evicts + 1))
  {
    var n := |v.order|;
    RemoveAt(v.order, n - 1);
    assert v.order[..n - 1] + v.order[n..] == v.order[..n - 1];
  }

  /** Inserting a new key keeps the invariant as long as there is room. */
  lemma InsertPreservesWf<K, V>(v: View<K, V>, key: K, value: V, expiration: int)
    requires Wf(v) && key !in v.contents
    requires v.maxsize > 0 ==> |v.order| < v.maxsize
    ensures Wf(Insert(v, key, value, expiration))
  {
    PrependDistinct(v.order, key);
  }

  /** Set keeps the invariant; in particular the capacity is never exceeded. */
  lemma SetPreservesWf<K, V>(v: View<K, V>, key: K, value: V, expiration: int)
    requires Wf(v)
    ensures Wf(Set(v, key, value, expiration))
  {
    if key in v.contents {
      TouchDistinct(v.order, key);
    } else if |v.order| == v.maxsize && |v.order| > 0 {
      EvictTailPreservesWf(v);
      InsertPreservesWf(EvictTail(v), key, value, expiration);
    } else {
      InsertPreservesWf(v, key, value, expiration);
    }
  }

  /**
   * At capacity, a new key evicts exactly the current tail (whatever its
   * expiration) and goes in at the head: one Delete, one Evict and one Add.
   */
  lemma SetNewKeyAtCapacity<K, V>(v: View<K, V>, key: K, value: V, expiration: int)
    requires Wf(v) && v.maxsize >= 1
    requires key !in v.contents && |v.order| == v.maxsize
    ensures var r := Set(v, key, value, expiration);
      && r.order == [key] + v.order[..|v.order| - 1]
      && |r.order| == v.maxsize
      && v.order[|v.order| - 1] !in r.contents
      && r.contents == (v.contents - {v.order[|v.order| - 1]})[key := Entry(value, expiration)]
      && r.events == v.events.(adds := v.events.adds + 1, deletes := v.events.deletes + 1,
                               evicts := v.events.evicts + 1)
  {
    var n := |v.order|;
    assert v.order[n - 1] != key;
  }

  /** Below capacity, a new key goes in at the head and the size grows by one. */
  lemma SetNewKeyBelowCapacity<K, V>(v: View<K, V>, key: K, value: V, expiration: int)
    requires Wf(v)
    requires key !in v.contents && |v.order| != v.maxsize
    ensures var r := Set(v, key, value, expiration);
      && r.order == [key] + v.order
      && |r.order| == |v.order| + 1
      && r.contents == v.contents[key := Entry(value, expiration)]
      && r.events == v.events.(adds := v.events.adds + 1)
  {
  }

  /**
   * Set on a present key refreshes its entry and emits Update; the size is
   * unchanged, and the key moves to the head only when it was the tail of
   * a list of two or more entries. Otherwise the order is unchanged.
   */
  lemma SetExistingKey<K, V>(v: View<K, V>, key: K, value: V, expiration: int)
    requires Wf(v) && key in v.contents
    ensures var r := Set(v, key, value, expiration);
      && |r.order| == |v.order|
      && r.contents == v.contents[key := Entry(value, expiration)]
      && r.events == v.events.(updates := v.events.updates + 1)
      && (if v.order[|v.order| - 1] == key && |v.order| > 1
          then r.order[0] == key && r.order[1..] == v.order[..|v.order| - 1]
          else r.order == v.order)
  {
  }

  // ---------------------------------------------------------------------
  // Get

  /** Get keeps the invariant. */
  lemma GetPreservesWf<K, V>(v: View<K, V>, key: K, now: int)
    requires Wf(v)
    ensures Wf(AfterGet(v, key, now))
  {
    if key in v.contents {
      if v.contents[key].expiration > now {
        TouchDistinct(v.order, key);
      } else {
        RemoveDistinct(v.order, key);
      }
    }
  }

  /**
   * A live entry is a hit: its value is returned, Hit is emitted, the
   * index and the size are unchanged, and the entry moves to the head
   * only when it is the tail of a list of two or more entries.
   */
  lemma GetLive<K, V>(v: View<K, V>, key: K, now: int)
    requires Wf(v) && key in v.contents && v.contents[key].expiration > now
    ensures Find(v, key, now) == Hit(v.contents[key].value)
    ensures var r := AfterGet(v, key, now);
      && r.contents == v.contents
      && |r.order| == |v.order|
      && r.events == v.events.(hits := v.events.hits + 1)
      && (if v.order[|v.order| - 1] == key && |v.order| > 1
          then r.order[0] == key && r.order[1..] == v.order[..|v.order| - 1]
          else r.order == v.order)
  {
  }

  /**
   * An expired entry is a miss and is removed: the key leaves the index,
   * its node leaves the list with the other keys keeping their order, the
   * size drops by exactly one, and Miss, Evict and Delete are emitted.
   */
  lemma GetExpired<K, V>(v: View<K, V>, key: K, now: int)
    requires Wf(v) && key in v.contents && v.contents[key].expiration <= now
    ensures Find(v, key, now) == Miss
    ensures var r := AfterGet(v, key, now);
      && r.contents == v.contents - {key}
      && key !in r.order
      && |r.order| == |v.order| - 1
      && (forall i :: 0 <= i < |v.order| && v.order[i] == key ==> r.order == v.order[..i] + v.order[i + 1..])
      && r.events == v.events.(misses := v.events.misses + 1, evicts := v.events.evicts + 1,
                               deletes := v.events.deletes + 1)
  {
    assert AfterGet(v, key, now) == Expire(v, key);
    assert key in v.order;
    var i :| 0 <= i < |v.order| && v.order[i] == key;
    RemoveAt(v.order, i);
    DropDistinct(v.order, i);
    forall j | 0 <= j < |v.order| && v.order[j] == key ensures j == i {
    }
  }

  /** An absent key is a miss that changes nothing but the Miss count. */
  lemma GetAbsent<K, V>(v: View<K, V>, key: K, now: int)
    requires key !in v.contents
    ensures Find(v, key, now) == Miss
    ensures AfterGet(v, key, now) == v.(events := v.events.(misses := v.events.misses + 1))
  {
  }

  /**
   * Finding: at the boundary `expiration == now` the source's Get drops
   * the index entry and the size count but leaves the node linked, so a
   * well-formed cache of one entry becomes inconsistent.
   */
  lemma ExpirationBoundaryAsWritten()
    ensures var v := View(["a"], map["a" := Entry(1, 5)], 3, NoEvents.(adds := 1));
      && Wf(v)
      && var r := AfterGetAsWritten(v, "a", 5);
      && !Wf(r) && "a" in r.order && "a" !in r.contents
  {
    var v := View(["a"], map["a" := Entry(1, 5)], 3, NoEvents.(adds := 1));
    var r := AfterGetAsWritten(v, "a", 5);
    assert r.order == ["a"];
    assert r.order[0] == "a";
  }

  /**
   * The same for every well-formed cache: a Get at `now == expiration`
   * leaves the key listed but drops its entry, so the invariant fails.
   */
  lemma BoundaryKeepsNodeAsWritten<K, V>(v: View<K, V>, key: K, now: int)
    requires Wf(v) && key in v.contents && v.contents[key].expiration == now
    ensures var r := AfterGetAsWritten(v, key, now);
      && r.order == v.order
      && r.contents == v.contents - {key}
      && key in r.order && key !in r.contents
      && !Wf(r)
  {
  }

  /** Everywhere except that boundary, the source's Get agrees with AfterGet. */
  lemma AsWrittenAgreesOffBoundary<K, V>(v: View<K, V>, key: K, now: int)
    requires key !in v.contents || v.contents[key].expiration != now
    ensures AfterGetAsWritten(v, key, now) == AfterGet(v, key, now)
  {
  }

  // ---------------------------------------------------------------------
  // Delete

  lemma DeleteKeyPreservesWf<K, V>(v: View<K, V>, key: K)
    requires Wf(v)
    ensures Wf(DeleteKey(v, key))
  {
    RemoveDistinct(v.order, key);
  }

  /**
   * Deleting a present key unlinks it wherever it sits (head, tail,
   * middle or sole entry), keeps the other keys in their order, drops the
   * size by one and emits one Delete.
   */
  lemma DeletePresentKey<K, V>(v: View<K, V>, i: nat)
    requires Wf(v) && i < |v.order|
    ensures var r := DeleteKey(v, v.order[i]);
      && r.order == v.order[..i] + v.order[i + 1..]
      && r.contents == v.contents - {v.order[i]}
      && r.events == v.events.(deletes := v.events.deletes + 1)
  {
    RemoveAt(v.order, i);
  }

  /** Deleting an absent key changes nothing and emits nothing. */
  lemma DeleteAbsentKey<K, V>(v: View<K, V>, key: K)
    requires key !in v.contents
    ensures DeleteKey(v, key) == v
  {
  }

  /** Delete of any number of keys keeps the invariant. */
  lemma {:induction false} DeletePreservesWf<K, V>(v: View<K, V>, keys: seq<K>)
    requires Wf(v)
    ensures Wf(Delete(v, keys))
    decreases |keys|
  {
    if keys != [] {
      DeletePreservesWf(v, keys[..|keys| - 1]);
      DeleteKeyPreservesWf(Delete(v, keys[..|keys| - 1]), keys[|keys| - 1]);
    }
  }

  /** After Delete(keys...) none of the keys is present, and no other key was lost. */
  lemma {:induction false} DeleteRemovesExactly<K, V>(v: View<K, V>, keys: seq<K>)
    ensures Delete(v, keys).contents.Keys == v.contents.Keys - set k | k in keys
    decreases |keys|
  {
    if keys != [] {
      var front := keys[..|keys| - 1];
      DeleteRemovesExactly(v, front);
      assert (set k | k in keys) == (set k | k in front) + {keys[|keys| - 1]};
    }
  }

  // ---------------------------------------------------------------------
  // Reset

  /**
   * Reset empties the cache, emits one Delete per entry, keeps the
   * invariant, and a second Reset emits nothing more.
   */
  lemma ResetEmpties<K, V>(v: View<K, V>)
    requires Wf(v)
    ensures var r := Reset(v);
      && Wf(r) && r.order == [] && r.contents == map[]
      && r.events.deletes == v.events.deletes + |v.order|
      && r.events.adds == r.events.deletes
      && Reset(r) == r
  {
  }

  /** After Reset, every key misses. */
  lemma ResetThenMiss<K, V>(v: View<K, V>, key: K, now: int)
    ensures Find(Reset(v), key, now) == Miss
    ensures AfterGet(Reset(v), key, now).order == []
  {
  }

  // ---------------------------------------------------------------------
  // Sequences of operations

  /** One public call on the cache. */
  datatype Op<K, V> =
    | SetOp(key: K, value: V, expiration: int)
    | GetOp(key: K, now: int)
    | DeleteOp(keys: seq<K>)
    | ResetOp

  function Step<K(==), V>(v: View<K, V>, op: Op<K, V>): View<K, V>
  {
    match op
    case SetOp(k, x, e) => Set(v, k, x, e)
    case GetOp(k, t) => AfterGet(v, k, t)
    case DeleteOp(ks) => Delete(v, ks)
    case ResetOp => Reset(v)
  }

  function Run<K(==), V>(v: View<K, V>, ops: seq<Op<K, V>>): View<K, V>
    decreases |ops|
  {
    if ops == [] then v else Run(Step(v, ops[0]), ops[1..])
  }

  lemma StepPreservesWf<K, V>(v: View<K, V>, op: Op<K, V>)
    requires Wf(v)
    ensures Wf(Step(v, op)) && Step(v, op).maxsize == v.maxsize
  {
    match op
    case SetOp(k, x, e) => SetPreservesWf(v, k, x, e);
    case GetOp(k, t) => GetPreservesWf(v, k, t);
    case DeleteOp(ks) => DeletePreservesWf(v, ks); DeleteKeepsMaxsize(v, ks);
    case ResetOp =>
  }

  lemma {:induction false} DeleteKeepsMaxsize<K, V>(v: View<K, V>, keys: seq<K>)
    ensures Delete(v, keys).maxsize == v.maxsize
    decreases |keys|
  {
    if keys != [] {
      DeleteKeepsMaxsize(v, keys[..|keys| - 1]);
    }
  }

  /**
   * Starting from a new cache with capacity at least one, no sequence of
   * calls makes the size exceed the capacity, and Add events minus Delete
   * events always equals the size.
   */
  lemma {:induction false} CapacityNeverExceeded<K, V>(maxsize: nat, ops: seq<Op<K, V>>)
    requires maxsize >= 1
    ensures var r := Run(Empty<K, V>(maxsize), ops);
      && |r.order| <= maxsize
      && r.events.adds - r.events.deletes == |r.order|
  {
    RunPreservesWf(Empty<K, V>(maxsize), ops);
  }

  lemma {:induction false} RunPreservesWf<K, V>(v: View<K, V>, ops: seq<Op<K, V>>)
    requires Wf(v)
    ensures Wf(Run(v, ops)) && Run(v, ops).maxsize == v.maxsize
    decreases |ops|
  {
    if ops != [] {
      StepPreservesWf(v, ops[0]);
      RunPreservesWf(Step(v, ops[0]), ops[1..]);
    }
  }

  // ---------------------------------------------------------------------
  // Worked scenarios

  /** Inserting keys 1, 2, 3, 4 into an empty cache gives the order 4, 3, 2, 1. */
  lemma InsertionScenario(v0: View<int, int>)
    requires v0 == Empty(10)
    ensures var v4 := Set(Set(Set(Set(v0, 1, 1, 1), 2, 2, 1), 3, 3, 1), 4, 4, 1);
      Wf(v4) && v4.order == [4, 3, 2, 1]
  {
    var v1 := Set(v0, 1, 1, 1);
    SetNewKeyBelowCapacity(v0, 1, 1, 1);
    SetPreservesWf(v0, 1, 1, 1);
    var v2 := Set(v1, 2, 2, 1);
    SetNewKeyBelowCapacity(v1, 2, 2, 1);
    SetPreservesWf(v1, 2, 2, 1);
    var v3 := Set(v2, 3, 3, 1);
    SetNewKeyBelowCapacity(v2, 3, 3, 1);
    SetPreservesWf(v2, 3, 3, 1);
    SetNewKeyBelowCapacity(v3, 4, 4, 1);
    SetPreservesWf(v3, 4, 4, 1);
  }

  /**
   * From the order 4, 3, 2, 1: re-setting the tail 1 moves it to the head,
   * re-setting the middle key 3 changes nothing, and re-setting the new
   * tail 2 moves it to the head.
   */
  lemma RepositionScenario()
    ensures var v := View([4, 3, 2, 1], map[1 := Entry(1, 1), 2 := Entry(2, 1), 3 := Entry(3, 1),
                                            4 := Entry(4, 1)], 10, NoEvents.(adds := 4));
      && Set(v, 1, 1, 1).order == [1, 4, 3, 2]
      && Set(Set(v, 1, 1, 1), 3, 2, 1).order == [1, 4, 3, 2]
      && Set(Set(Set(v, 1, 1, 1), 3, 2, 1), 2, 3, 1).order == [2, 1, 4, 3]
  {
  }

  /** Four keys listed 2, 1, 4, 3 in a cache of capacity 10. */
  const FourKeys: View<int, int> :=
    View([2, 1, 4, 3], map[1 := Entry(1, 1), 2 := Entry(2, 1), 3 := Entry(3, 1), 4 := Entry(4, 1)], 10,
         NoEvents.(adds := 4))

  /** FourKeys with key 4 deleted. */
  const ThreeKeys: View<int, int> :=
    View([2, 1, 3], map[1 := Entry(1, 1), 2 := Entry(2, 1), 3 := Entry(3, 1)], 10,
         NoEvents.(adds := 4, deletes := 1))

  /** Deleting a middle key unlinks it and keeps the others in order. */
  lemma DeleteMiddleScenario()
    ensures Delete(FourKeys, [4]) == ThreeKeys
  {
    assert [2, 1, 4, 3][1..] == [1, 4, 3] && [1, 4, 3][1..] == [4, 3] && [4, 3][1..] == [3];
    assert [4][..0] == [];
    assert FourKeys.contents - {4} == ThreeKeys.contents;
  }

  /** Deleting several keys at once skips the absent one and removes the others. */
  lemma DeleteManyScenario()
    ensures Delete(ThreeKeys, [4, 2, 3]).order == [1]
  {
    assert [4, 2, 3][..2] == [4, 2] && [4, 2][..1] == [4] && [4][..0] == [];
    assert Delete(ThreeKeys, [4]) == ThreeKeys;
    assert [2, 1, 3][1..] == [1, 3] && [1, 3][1..] == [3];
    assert Delete(ThreeKeys, [4, 2]).order == [1, 3];
  }

  /**
   * With capacity 3, setting a, b, c, d evicts a and leaves d, c, b; a then
   * misses.
   */
  lemma EvictionScenario(now: int)
    ensures var v := Set(Set(Set(Set(Empty<string, int>(3), "a", 1, now + 1), "b", 2, now + 1),
                           "c", 3, now + 1), "d", 4, now + 1);
      && v.order == ["d", "c", "b"]
      && Find(v, "a", now) == Miss
      && v.events.evicts == 1
  {
    var v3 := Set(Set(Set(Empty<string, int>(3), "a", 1, now + 1), "b", 2, now + 1), "c", 3, now + 1);
    assert v3.order == ["c", "b", "a"];
    var v := Set(v3, "d", 4, now + 1);
    assert v3.order[..2] == ["c", "b"];
    assert v.order == ["d", "c", "b"];
  }
}
