# go-prehit cache core in Dafny

This project models the in-memory LRU+TTL cache of go-prehit (`cache.go`,
`options.go`).

A cache has the following parts:

- a key index;
- a doubly linked recency list of items, from head (most recently inserted or promoted) to tail;
- a size counter checked against a fixed capacity (`maxsize`, default 1000; 0 means unbounded in practice);
- an absolute expiration time per item;
- a metrics sink that receives Hit, Miss, Add, Update, Evict, Delete and Error events.

Three modules:

- `Config` (`config.dfy`) covers the options layer:
  - the mutable `options` record;
  - the three functional options and their `apply` methods;
  - applying a list of options left to right, as `NewCache` does.
- `LruModel` (`lru_model.dfy`) covers what a caller can observe. It holds:
  - a `View` (keys in recency order, each key's entry, the capacity, and the metrics events emitted so far);
  - one function per public operation;
  - the invariant `Wf`, which says three things:
    - the list holds each indexed key exactly once;
    - the capacity bound holds;
    - Add events minus Delete events equals the size;
  - lemmas stating what each operation does and that it keeps `Wf`;
  - a lemma that no sequence of calls ever pushes the size over the capacity;
  - the list-order scenarios of the package's internal test.
- `Engine` (`engine.dfy`) covers the engine itself:
  - the items are `Item` objects whose value and expiration are updated in place;
  - the index is a map to those objects;
  - the recency list is a sequence of the same objects, so an update through the index shows in the list;
  - `size` is a separate counter.

  `Cache.Valid` ties this state to a ghost `View`. Every public method of `Cache` is proved to change the view exactly as the matching `LruModel` function says. `NewCache` is proved to build an empty, valid cache with the capacity, logger and sink the options select.

Time is an explicit argument `now`. `Set` receives `ttl` and uses `now + ttl`, as `time.Now().Add(ttl)` does.

## Model

| member | source | states |
|---|---|---|
| Config.Option.Apply | options.go:21-47 | each option's apply overwrites exactly its own field of the options record (logger, capacity or metrics sink) and leaves the other two unchanged |
| Config.Option.Applied | options.go:21-47 | the settings after one option: each option changes at most its own field (logger, capacity or sink) |
| Config.Options.Default | cache.go:35-39 | the options record starts with the no-op logger, capacity 1000 and the no-op sink |
| Config.WithLogger | options.go:26-28 | the option it returns, applied to any record, changes exactly the logger |
| Config.WithMaxSize | options.go:37-39 | the option it returns, applied to any record, changes exactly the capacity |
| Config.WithMetrics | options.go:50-52 | the option it returns, applied to any record, changes exactly the metrics sink |
| Config.ApplyAll | cache.go:41-43 | the settings after applying the options from left to right; without a logger option the logger is kept, and without a metrics option the sink is kept |
| Config.LastMaxSizeWins | cache.go:41-43 | options apply in order, so the last capacity option in the list decides the capacity |
| Config.DefaultMaxSizeKept | cache.go:37-43 | when no capacity option is given, the capacity stays 1000 whatever other options are applied |
| Engine.NewCache | cache.go:34-59 | the new cache is valid and empty, with the capacity, logger and sink obtained by applying the options to the defaults |
| Engine.Item.constructor | cache.go:200-203 | a new item carries the given key, value and expiration |
| Engine.Cache.Valid | cache.go:21-31 | the structure invariant: the list and the index hold the same distinct keys, the index maps each key to its list item, each item holds its key's entry, `size` is the list length and within the capacity, and Add minus Delete events is the size |
| Engine.Cache.constructor | cache.go:45-58 | a cache built from a logger, capacity and sink has an empty index and list, size 0, and no events |
| Engine.Cache.Get | cache.go:61-100 | the result is the value of a live entry or a miss. State changes: a live tail of a list of two or more moves to the head; an entry not live at `now` is removed (at `expiration == now` this is the corrected behaviour, see Findings); Hit, Miss, Evict and Delete events follow LruModel.AfterGet; a hit leaves the index and the size unchanged; the structure invariant is kept |
| Engine.Cache.MoveToHead | cache.go:102-119 | for a list of two or more, the key's item moves to the head exactly when it is the tail; index, contents and size are unchanged |
| Engine.Cache.RelinkTail | cache.go:165-174 | the tail item is relinked in front of the head; the index and the size are unchanged |
| Engine.Cache.DeleteExpired | cache.go:121-153 | called for a key Get found no longer live: a present entry is unlinked, dropped from the index and the counter, and one Delete is recorded; an absent key changes nothing |
| Engine.Cache.Detach | cache.go:224-252 | a present key's item is unlinked wherever it sits, the key leaves the index, the size drops by one and one Delete is recorded (the view becomes LruModel.DeleteKey) |
| Engine.Cache.Set | cache.go:156-217 | the view becomes LruModel.Set at expiration now + ttl; for a present key the item is updated in place, so the index and the size are unchanged; the structure invariant is kept |
| Engine.Cache.Refresh | cache.go:162-178 | a present key's item gets the new value and expiration in place (the index is unchanged) and moves to the head if it is the tail of two or more; one Update is recorded |
| Engine.Cache.Overwrite | cache.go:163-164 | only the key's entry changes, through the shared item; list, index and size are unchanged |
| Engine.Cache.Evict | cache.go:180-197 | at capacity, the tail item is dropped from list and index, the size drops by one, and Delete and Evict are recorded |
| Engine.Cache.AddToHead | cache.go:199-216 | a freshly allocated item for a new key is linked in front of the old list and indexed under its key, the size grows by one and one Add is recorded |
| Engine.Cache.Link | cache.go:204-216 | a given item for a new key becomes the head in front of the old list and is indexed under its key; the size grows by one and one Add is recorded |
| Engine.Cache.Delete | cache.go:220-254 | the keys are processed left to right: every present key is removed with one Delete event, absent keys are ignored |
| Engine.Cache.Reset | cache.go:257-276 | list and index become empty and the size 0; one Delete is recorded per listed item; the returned error is always nil |
| Engine.Cache.Position | cache.go:65 | a present key of a valid cache sits at exactly one list position, whose item is the one its index entry points to |
| Engine.Cache.LastIsTail | cache.go:69 | the item has no successor (`next == nil`) exactly when it is at the last list position |
| Engine.Cache.Emit | cache.go:77 | recording a metrics event other than Add or Delete changes nothing else and keeps the invariant |
| Engine.Consistent | cache.go:21-31 | the value-level part of the structure invariant: `size` is the list length, the index maps exactly the listed keys to their items, each item holds its key's entry, and the keys satisfy LruModel.Keyed |
| Engine.ConsistentRemove | cache.go:125-139 | unlinking the item at one position keeps index, list, entries and counter consistent with the view minus that key |
| Engine.ConsistentToHead | cache.go:105-116 | relinking the tail in front of the head keeps the structure consistent |
| Engine.ConsistentInsert | cache.go:200-215 | linking a new key's item at the head keeps the structure consistent, given room under the capacity |
| Engine.IndexesRemove | cache.go:244 | after the unlink, the index still maps each remaining key to its item |
| Engine.StoresRemove | cache.go:227-240 | after the unlink, every remaining item still holds its key's entry |
| Engine.IndexesToHead | cache.go:105-116 | after the relink, the index still maps each key to its item |
| Engine.StoresToHead | cache.go:105-116 | after the relink, every item still holds its key's entry |
| Engine.IndexesInsert | cache.go:213-214 | the new item is indexed under its key and the other keys keep their items |
| Engine.StoresInsert | cache.go:200-203 | the new item holds its entry and the others keep theirs |
| Engine.RemoveNodeAt | cache.go:227-238 | the items of a valid list are distinct, so unlinking one removes exactly its position |
| LruModel.Wf | cache.go:21-31 | the invariant of an observable cache: the keys satisfy Keyed, and Add minus Delete events equals the number of listed keys |
| LruModel.Keyed | cache.go:21-31 | the listed keys are distinct, a key is listed exactly when it has an entry, and when the capacity is positive the list length stays within it |
| LruModel.TailToHead | cache.go:105-116 | the tail key relinked in front of the head (also cache.go:168-173); the length is kept |
| LruModel.Touch | cache.go:69 | the repositioning rule of cache.go:69, 105 and 165-166: the key moves to the head only when it is the tail of a list of two or more; otherwise the order is unchanged. The length is kept, and a changed list starts with the key |
| LruModel.EvictTail | cache.go:180-197 | capacity eviction: the tail key leaves list and entries, with one Delete and one Evict |
| LruModel.Insert | cache.go:199-216 | a new key goes in at the head with its entry, with one Add |
| LruModel.Set | cache.go:156-217 | a present key gets the new entry and one Update, and moves to the head only as the tail of two or more; a new key first evicts the tail when the list is non-empty and at capacity, then goes in at the head with one Add. Afterwards the key holds the new entry, every other remaining key keeps its old entry, and the capacity is unchanged |
| LruModel.Find | cache.go:61-100 | Get's result: the value of an entry whose expiration is after `now`, otherwise a miss |
| LruModel.Expire | cache.go:79-88 | removal of an entry that is no longer live: the key leaves list and entries, with Miss, Evict and Delete (cache.go:83-87 and 121-153) |
| LruModel.AfterGet | cache.go:61-100 | the cache after Get: an absent key records a Miss; a live entry records a Hit and is touched; any other entry is expired (the corrected boundary, see Findings) |
| LruModel.AfterGetAsWritten | cache.go:61-153 | the cache after Get with the source's two expiration tests: at `expiration == now` the entry is dropped but the key stays listed. Its entries and events agree with AfterGet everywhere, and the capacity is unchanged |
| LruModel.DeleteKey | cache.go:225-252 | deleting one key: a present key leaves list and entries with one Delete, and an absent key changes nothing. Afterwards the key is absent, exactly the other keys remain, and the capacity is unchanged |
| LruModel.Delete | cache.go:220-254 | Delete(keys...): DeleteKey applied to the keys from left to right |
| LruModel.Reset | cache.go:257-276 | everything is dropped, with one Delete per listed key |
| LruModel.Step | cache.go:61-276 | one public call (Set, Get, Delete or Reset) on the observable cache |
| LruModel.Run | cache.go:61-276 | a sequence of public calls, applied in order |
| LruModel.Empty | cache.go:45-52 | a new cache is well formed, with no keys and no entries |
| LruModel.Remove | cache.go:125-138 | unlinking a present key shortens the list by one and adds no key; an absent key leaves the length unchanged |
| LruModel.RemoveAt | cache.go:125-138 | in a duplicate-free list, unlinking the key at position i leaves the list with position i cut out |
| LruModel.RemoveAbsent | cache.go:122 | unlinking a key that is not listed changes nothing |
| LruModel.DropDistinct | cache.go:125-138 | cutting out one position keeps the list duplicate free, and every other key stays listed |
| LruModel.PrependDistinct | cache.go:205-213 | a new key in front of a duplicate-free list keeps it duplicate free |
| LruModel.RemoveDistinct | cache.go:227-240 | removing a key keeps the list duplicate free and loses no other key |
| LruModel.TouchDistinct | cache.go:105-116 | promoting the tail keeps the list duplicate free, the same length and the same keys |
| LruModel.EvictTailPreservesWf | cache.go:180-197 | capacity eviction keeps the invariant |
| LruModel.EvictIsDeleteTail | cache.go:180-197 | capacity eviction is the deletion of the tail key plus one Evict event |
| LruModel.InsertPreservesWf | cache.go:199-216 | inserting a new key with room to spare keeps the invariant |
| LruModel.SetPreservesWf | cache.go:156-217 | Set keeps the invariant, in particular the capacity bound |
| LruModel.SetNewKeyAtCapacity | cache.go:180-216 | at capacity, a new key evicts exactly the tail (whatever its expiration), goes in at the head, keeps the size at the capacity, keeps every other key's entry, and records Delete, Evict and Add |
| LruModel.SetNewKeyBelowCapacity | cache.go:199-216 | below capacity, a new key goes in at the head, every other entry is kept, the size grows by one and one Add is recorded |
| LruModel.SetExistingKey | cache.go:162-178 | Set on a present key replaces its entry, keeps the size, records one Update, and moves the key to the head only when it is the tail of two or more; otherwise the order is unchanged |
| LruModel.GetPreservesWf | cache.go:61-100 | Get keeps the invariant (with the corrected expiration boundary) |
| LruModel.GetLive | cache.go:65-78 | a live entry is a hit with its value: the entries and size are unchanged, one Hit is recorded, and the key moves to the head only when it is the tail of two or more |
| LruModel.GetExpired | cache.go:79-88 | an entry not live at `now` is a miss and is removed: the other keys keep their order, the size drops by one, and Miss, Evict and Delete are recorded |
| LruModel.GetAbsent | cache.go:96-99 | an absent key is a miss that changes nothing but the Miss count |
| LruModel.ExpirationBoundaryAsWritten | cache.go:67-88 | as written, a Get at `now == expiration` on a one-entry cache leaves the item linked but no longer indexed, which breaks the invariant |
| LruModel.BoundaryKeepsNodeAsWritten | cache.go:121-153 | as written, a Get at `now == expiration` on any well-formed cache keeps the order unchanged but drops the key's entry, so the key stays listed without an entry and the invariant fails |
| LruModel.AsWrittenAgreesOffBoundary | cache.go:124 | away from `expiration == now`, the as-written Get and the corrected Get agree |
| LruModel.DeleteKeyPreservesWf | cache.go:224-252 | deleting one key keeps the invariant |
| LruModel.DeletePresentKey | cache.go:225-252 | deleting a present key at any position unlinks exactly that position, drops its entry and records one Delete |
| LruModel.DeleteAbsentKey | cache.go:225 | deleting an absent key changes nothing and records nothing |
| LruModel.DeletePreservesWf | cache.go:220-254 | Delete of any number of keys keeps the invariant |
| LruModel.DeleteRemovesExactly | cache.go:220-254 | after Delete(keys...) the present keys are exactly the old ones minus the given ones |
| LruModel.DeleteKeepsMaxsize | cache.go:220-254 | Delete never changes the capacity |
| LruModel.ResetEmpties | cache.go:257-276 | Reset empties list and index, records one Delete per entry, keeps the invariant, and a second Reset changes nothing |
| LruModel.ResetThenMiss | cache.go:270-273 | after Reset every key misses |
| LruModel.StepPreservesWf | cache.go:61-276 | every public call keeps the invariant and the capacity |
| LruModel.RunPreservesWf | cache.go:61-276 | any sequence of public calls keeps the invariant and the capacity |
| LruModel.CapacityNeverExceeded | cache.go:180-197 | from a new cache of capacity at least one, no sequence of calls pushes the size over the capacity, and Add minus Delete events always equals the size |
| LruModel.InsertionScenario | cache_test.go:505-520 | inserting keys 1 to 4 into an empty cache of capacity 10 gives the order 4, 3, 2, 1 |
| LruModel.RepositionScenario | cache_test.go:523-560 | re-setting the tail moves it to the head, re-setting a middle key changes no order |
| LruModel.DeleteMiddleScenario | cache_test.go:575-585 | deleting a middle key keeps the other keys in order |
| LruModel.DeleteManyScenario | cache_test.go:587-598 | deleting several keys at once skips the absent one and removes the rest |
| LruModel.EvictionScenario | cache_test.go:169-286 | with capacity 3, a fourth new key evicts the oldest listed key, which then misses, and one Evict is recorded |

## Left out

- Concurrency: the `RWMutex`, and the gap between Get's read lock and its write lock (cache.go:63-84), are not modelled. Every method is a single atomic step.
- The item pool (`sync.Pool`): new items are freshly allocated, and items that are given back are simply dropped.
- Time: `time.Now()` is the argument `now`. Times are unbounded integers, so `time.Time` overflow and monotonic-clock details are not modelled.
- Unsigned widths: `maxsize` and `size` are `nat`. 64-bit wrap-around is not modelled. In the model `size` equals the number of listed items and every decrement is guarded by `size > 0`. The source guards its decrements at cache.go:146 and 246; the eviction decrement at cache.go:190 is unguarded, but it runs only when `tail != nil`, which under the invariant means `size >= 1`.
- Logger: it is an opaque handle. The `Verbose` and `Warning` calls are not modelled.
- Metrics: the sink is an opaque handle. Events are ghost counters in `LruModel.Events`. The Error event is counted but never emitted, because every branch that emits it is unreachable under `Valid`. Those branches are the nil item (cache.go:90-93, 140-143) and size 0 before a decrement (cache.go:148-150, 248-251).
- Where expiration events are counted: on the expired branch, the source's `deleteexpired` emits nothing and Get then emits Miss, Evict and Delete. In the model, the Delete comes from the shared removal `Engine.Cache.Detach` and Get adds Miss and Evict. The totals are the same. Only their order differs, and the order is not observable without concurrency.
- Engine.Cache.Get: a miss is `Miss`, not Go's zero value paired with `false`. At `expiration == now` it removes the entry completely, which is the corrected boundary of Engine.Cache.DeleteExpired (see Findings), not the source's partial removal.
- Engine.Cache.MoveToHead: requires a list of two or more items. On a one-item list, the source's movetohead would link the item to itself. Get calls it only when `size > 1`.
- Prev/next links: in `Engine` the recency list is the sequence `list` of shared `Item` objects, not prev/next pointers with `head` and `tail` fields. A node's links are its neighbours in `list`, `head` is `list[0]` and `tail` is the last element. The model therefore does not capture the pointer-level rewiring order, and it does not capture a state whose links disagree with the sequence. Pointer-level links, with a footprint over the node set, make the frame reasoning of every method too costly to verify.
- Engine.Cache.Refresh: Set's inline tail-to-head relink (cache.go:168-173) is modelled by the same `RelinkTail` that movetohead uses. The pointer steps are identical.
- Engine.Cache.DeleteExpired: uses the corrected boundary (unlink when the expiration is not after `now`) instead of the source's `Before` test. See Findings. It also requires the key's entry, when present, not to be live, which is what its only caller establishes (cache.go:67, 83). For a present live key the source would drop the index entry and the size count but keep the item linked (cache.go:144-151), which breaks the structure invariant, so that case is not modelled.
- `metrics.go` (the `Metrics` interface and the no-op sink): left out because it defines no core logic. The sink is an opaque handle.

## Findings

| source | as written | input that shows it | evidently intended | confidence | as-written member | corrected member |
|---|---|---|---|---|---|---|
| cache.go:67, cache.go:124 | Get treats an entry as expired when `!expiration.After(now)`. `deleteexpired` then unlinks the item only when `expiration.Before(now)`, but it always deletes the index entry and decrements `size` | a cache holding only "a", with expiration 5, and Get("a") at now = 5: the item stays linked as head and tail while "a" leaves the index and size becomes 0; the still-linked item is also returned to the item pool (cache.go:145), so a later Set can take it from the pool and overwrite it while it is still the head | unlink exactly the entries Get treats as expired (`!expiration.After(now)`), so that list, index and size stay in agreement | not executed | LruModel.ExpirationBoundaryAsWritten | LruModel.GetPreservesWf |
