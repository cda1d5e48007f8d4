# LRU cache with time-to-live — a Dafny model

This project models the cache of `cache/cache.go`, an in-memory key/value store
with a capacity. A hash map gives direct access to the entries. A doubly linked
list orders the keys by recency: the head is the least recently used key and
the tail is the most recently used. `get` moves a hit to the tail. `Put`
overwrites a present key in place, or evicts the head when the map is full
and appends the new key. A background cleaner periodically calls `purge`,
which sweeps the map by creation time and time to live.

The model has four layers:

- `RecencyList` (recency.dfy): the recency order as a duplicate-free
  sequence of keys, index 0 being the head. It defines `MoveToBack`,
  `RemoveFirst` and the order-preserving `Filter`, plus the sequence lemmas
  the rest relies on.
- `LinkedList` (linked.dfy): the doubly linked list itself. Pointers become
  keys into an arena of nodes, and following a nil link is
  `Failure(NilDereference)`. `pushBack`, `moveToBack`, `removeFirst` and
  `unlinkNode` follow the source statement by statement. Refinement lemmas
  prove that each one turns a list that `Represents` the sequence `s` into
  one that represents the sequence the `RecencyList` operation gives.
- `Lru` (lru.dfy): the cache over the sequence view: `New`, `get`, `Get`,
  `Put` and `purge`. It also proves:
  - the cache invariant: the map keys are the list keys, no key appears
    twice, and the size stays within the capacity;
  - the LRU property: the list orders the keys by the time of their last
    successful get or put;
  - the behaviour of whole runs of operations.
- `Scenario` (scenario.dfy): the demonstration in `main.go` and a short
  recency example, played out on the model.

Time is an integer number of milliseconds passed in as `now`. Values are
generic (`V`). `Put` returns `Result`: the source panics in exactly one
situation reachable through the public API, and `Put` reports it as a
`Failure` instead of ruling it out with a precondition. That situation is a
new key arriving when the map size equals a capacity below two.

Where the code and its documentation disagree, the model follows the code:

- `get` performs no expiry check.
- `purge` deletes the entries that have *not* expired (see Findings).
- `New` accepts any capacity. A capacity of zero or one makes `Put` fault
  once the cache is full. A negative capacity is never reached, so the cache
  grows without bound.

## Model

| member | source | states |
|---|---|---|
| Lru.New | cache/cache.go:32-44 | A new cache is empty and consistent. It is valid exactly when the capacity is non-negative. A cleaner is attached exactly when the interval is positive. |
| Lru.Lookup | cache/cache.go:53-60 | A miss returns None and leaves the cache as it was. A hit returns the stored item and makes the key the tail. The other keys keep their relative order, the map is unchanged, and a hit on the tail changes nothing. |
| Lru.Get | cache/cache.go:46-51 | A value comes back exactly when the key is present, and it is the stored value. The effect on the cache is the lookup's effect. |
| Lru.EvictHead | cache/cache.go:132-136 | Removing the first entry succeeds exactly when at least two keys are held. The head key then leaves both the map and the list, and the cache stays consistent. |
| Lru.Put | cache/cache.go:62-73 | Put faults exactly when a new key meets a full map of capacity below two. Otherwise the key holds the new item at the tail, and the cache stays consistent with the same settings. A present key is updated in place, with the other keys keeping their order. A new key is appended when the map is not full. When it is full, the head is evicted first. |
| Lru.PutPreservesValid | cache/cache.go:62-73 | A successful put keeps a valid cache valid. The size grows by one only for a new key in a cache that is not full. |
| Lru.PutEvictsLeastRecentlyUsed | cache/cache.go:67-69 | Putting a new key into a full cache replaces exactly one key, the head. Every other key was used more recently than the evicted one. |
| Lru.GetKeepsUseOrder | cache/cache.go:53-60 | A hit stamps the key with the current step and keeps the list ordered by last use. A miss stamps nothing. |
| Lru.PutKeepsUseOrder | cache/cache.go:62-73 | A put stamps the key with the current step and keeps the list ordered by last use. |
| Lru.GetIdempotent | cache/cache.go:53-60 | A second get of the same key returns the same answer and changes nothing. |
| Lru.Sweep | cache/cache.go:95-102 | A sweep keeps exactly the entries that are not doomed, with their items unchanged. The list is the old list with the doomed keys filtered out, and the cache stays consistent. |
| Lru.PurgeLoop | cache/cache.go:95-102 | With one fixed deletion test for the whole sweep (a frozen clock), the map range visits keys in an arbitrary order and unlinks and deletes each doomed one. Whatever the visiting order, it ends in the same cache as the sweep. |
| Lru.PurgeClocked | cache/cache.go:95-102 | The clock is read again at every visited key, each reading between the sweep's start and finish and never going backwards. The survivors keep their items and their order, and the cache stays consistent. Every entry the source's purge at start would keep survives, and no entry survives that the source's purge at finish would delete. With a frozen clock the outcome is exactly that purge. |
| Lru.Purge | cache/cache.go:95-102 | The source's purge: an entry survives exactly when creation + ttl is not after now, that is, when it has expired. |
| Lru.SweepPreservesValid | cache/cache.go:95-102 | A sweep keeps a valid cache valid and shrinks it by exactly the number of doomed entries. |
| Lru.SweepKeepsOrder | cache/cache.go:95-102 | Two survivors of a sweep are in the same relative order as before it. |
| Lru.SweepKeepsUseOrder | cache/cache.go:95-102 | A sweep keeps the survivors ordered by last use. |
| Lru.SweepsBeforeExpiry | cache/cache.go:95-102 | While no entry has expired, the source's purge empties the cache and the corrected one keeps every entry. |
| Lru.SweepsAfterExpiry | cache/cache.go:95-102 | Once every entry has expired, the source's purge keeps them all and the corrected one empties the cache. |
| Lru.Run | cache/cache.go:46-102 | Any sequence of gets, puts and cleaner ticks keeps the cache consistent and its settings fixed. With capacity at least two it never faults. |
| Lru.RunPreservesValid | cache/cache.go:46-102 | Every successful run keeps a valid cache valid. |
| Lru.RunOrdersByLastUse | cache/cache.go:46-102 | Along any successful run, the list stays ordered by the step of each key's last successful get or put. |
| Lru.LruFromNew | cache/cache.go:32-102 | From New with capacity at least two, every run succeeds. It ends in a valid cache whose list orders the keys by last use. |
| RecencyList.MoveToBack | cache/cache.go:104-119 | On the sequence view, the key leaves its place and becomes the tail. It is a no-op when the key is already the tail, and the keys and their count are unchanged. |
| RecencyList.MoveToBackOthers | cache/cache.go:104-119 | Moving a key to the back leaves the other keys in their relative order. |
| LinkedList.PushBackRefines | cache/cache.go:121-130 | pushBack of a key not in the list yields a list for the sequence with the key appended. Into an empty list, the key becomes both head and tail. |
| LinkedList.MoveToBackRefines | cache/cache.go:104-119 | moveToBack never follows a nil link on a well-formed list. It yields a list for the sequence-level MoveToBack. |
| LinkedList.MoveToBackLinks | cache/cache.go:104-119 | For a key that is not the tail, moveToBack computes the same nodes as unlinking the key and pushing it back. |
| LinkedList.RemoveFirstRefines | cache/cache.go:132-136 | The pointer-level removeFirst succeeds on a well-formed list exactly when the sequence-level RemoveFirst does, which is when at least two keys are held. It then yields a list for the sequence-level result, the sequence without its head. |
| LinkedList.UnlinkRefines | cache/cache.go:138-149 | unlinkNode of any key in the list succeeds and yields a list for the sequence without that key. It repairs the head when the key was first and the tail when the key was last, and leaves nil head and tail when the key was alone. |
| Scenario.DemoPut3 | main.go:10-13 | Three puts into a new cache of capacity 3 give the order "1", "2", "3", all created at time 0, with "2" holding "Math". |
| Scenario.DemoEvictsFirstKey | main.go:14 | The fourth put evicts "1" and leaves the order "2", "3", "4". |
| Scenario.DemoLookups | main.go:15-16 | Get("2") returns "Math" and makes "2" the tail. Get("1") misses. |
| Scenario.DemoSleep | main.go:15-18 | After Get("2") and the missed Get("1"), the cleaner's first tick (200 ms) runs the source's purge, which deletes all three entries although none has expired. The final Get("2") therefore returns nothing. The corrected purge keeps the entries at 200 ms and deletes them at 2000 ms. |
| Scenario.TouchThenEvict | cache/cache.go:53-73 | In a full cache of three holding A, B, C, touching A and then putting D evicts B and leaves the order C, A, D. |
| Lru.PurgeExpired | cache/cache.go:95-102 | The corrected purge: an entry survives exactly when its creation + ttl lies after now. |
| LinkedList.RemoveFirstPanicsOnSoleNode | cache/cache.go:132-136 | On a list holding a single key, the source's removeFirst follows a nil link. The corrected head removal leaves the empty list. |
| LinkedList.RemoveHeadRefines | cache/cache.go:132-136 | The corrected head removal succeeds on a well-formed list exactly when the sequence-level RemoveHead does, which is whenever the list is non-empty. It then yields a list for the sequence without its head. |
| Lru.EvictHeadCorrected | cache/cache.go:132-136 | The corrected eviction faults only on an empty cache. It agrees with the source's eviction wherever that one succeeds. |
| Lru.PutCorrected | cache/cache.go:62-73 | Put with the corrected eviction faults only for capacity below one. It agrees with the source's Put wherever that one succeeds. A full cache of capacity one swaps its entry for the new key. |
| Lru.PutCorrectedPreservesValid | cache/cache.go:62-73 | With the corrected eviction, every put into a valid cache of positive capacity succeeds, stores the item and keeps the cache valid. |

## Left out

- The cleaner goroutine and its ticker (cache/cache.go:75-93) are not modelled. Concurrency and wall-clock scheduling have no counterpart in a pure model. Each tick is one `PurgeOp` with an explicit `now`, and `New` only records whether a cleaner is attached.
- Locking is not modelled. The source has none, so a purge running concurrently with a caller's `Get`/`Put` can race. The model runs operations one at a time.
- `time.Now()` and `time.Duration` are modelled as integer milliseconds passed in as `now`, and `time.Time` arithmetic as plain integer addition. Overflow of `time.Time` is not modelled.
- `interface{}` values are modelled as a type parameter. The source cannot tell a stored nil from a miss; the model's `Option` can.
- Pointer identity and aliasing: nodes are named by their keys. The `item.node` back pointer is the key's place in the list. Dangling pointers and nodes reachable from outside the list are not modelled.
- Lru.Put: the cache-level model runs on the sequence view. The linked list's refinement is proved operation by operation (`LinkedList.*Refines`), not for the composed `Put`.
- main.go's printing, its import and its `time.Sleep` are not modelled. The scenario states the values the three `Println` calls would show. Of the ticks during the sleep it applies only the first, at 200 ms, after which the cache is already empty.
- Lru.PurgeLoop: takes one deletion test for the whole sweep, i.e. a clock frozen for its duration. The source reads `time.Now()` at every visited key; that is Lru.PurgeClocked, whose outcome is bounded rather than fixed. Lru.Run's cleaner ticks (`PurgeOp`) likewise use one `now` per tick.

## Findings

| source | as written | input that shows it | evidently intended | confidence | as-written member | corrected member |
|---|---|---|---|---|---|---|
| cache/cache.go:97 | `purge` deletes an entry when `creation + ttl` is after `now`, i.e. while it is still fresh, and keeps the expired ones | main.go's cache at the first tick (200 ms): entries created at 0 with ttl 2000 ms are all deleted | delete an entry once `creation + ttl` is not after `now` | high (not executed) | Lru.Purge, Scenario.DemoSleep | Lru.PurgeExpired, Lru.SweepsBeforeExpiry |
| cache/cache.go:132-136 | `removeFirst` dereferences the head's successor, which is nil when the list holds one node | `New(1, …)`, `Put("a", …)`, `Put("b", …)`: the second put panics | remove the head whatever its successor, as `unlinkNode` does | high (not executed) | LinkedList.RemoveFirst, LinkedList.RemoveFirstPanicsOnSoleNode | LinkedList.RemoveHead, LinkedList.RemoveHeadRefines, Lru.PutCorrected |
