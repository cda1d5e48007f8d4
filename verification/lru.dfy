/** The cache of cache/cache.go: a map from key to item and the recency order
    of the keys (head = least recently used, tail = most recently used), a
    capacity and a time to live. Time is an explicit integer `now`; the
    background cleaner is not modelled, its sweep is (Purge). */
module Lru {
  import opened Wrappers
  import opened RecencyList

  /** One cached entry: the payload and the time it was stored. The source's
      back pointer to the list node is the key's place in `order`. */
  datatype Item<V> = Item(value: V, creation: int)

  datatype Cache<V> = Cache(
    items: map<string, Item<V>>,
    order: seq<string>,
    capacity: int,
    ttl: int,
    cleaner: Option<int>)

  /** The map and the list hold the same keys, each key once. */
  predicate Consistent<V>(c: Cache<V>) {
    Distinct(c.order) && c.items.Keys == Elems(c.order)
  }

  /** Consistent, and no more entries than the capacity. */
  predicate Valid<V>(c: Cache<V>) {
    Consistent(c) && |c.items| <= c.capacity
  }

  /** The settings Put and Purge never change. */
  predicate SameSettings<V>(c: Cache<V>, d: Cache<V>) {
    d.capacity == c.capacity && d.ttl == c.ttl && d.cleaner == c.cleaner
  }

  lemma SizeAgrees<V>(c: Cache<V>)
    requires Consistent(c)
    ensures |c.items| == |c.order|
  {
    DistinctSize(c.order);
    assert |c.items| == |c.items.Keys|;
  }

  /** New: an empty cache; a cleaner is attached only for a positive interval.
      Any capacity is accepted, including ones Put cannot live with. */
  function New<V>(capacity: int, ttl: int, cleanUpInterval: int): (c: Cache<V>)
    ensures Consistent(c) && |c.items| == 0 && |c.order| == 0
    ensures capacity >= 0 <==> Valid(c)
    ensures c.capacity == capacity && c.ttl == ttl
    ensures c.cleaner.Some? <==> cleanUpInterval > 0
  {
    Cache(map[], [], capacity, ttl, if cleanUpInterval > 0 then Some(cleanUpInterval) else None)
  }

  /** get: a hit returns the item and makes its key the most recently used;
      a miss changes nothing. No expiry check is made. */
  function Lookup<V>(c: Cache<V>, key: string): (r: (Option<Item<V>>, Cache<V>))
    requires Consistent(c)
    ensures key !in c.items ==> r == (None, c)
    ensures key in c.items ==> r.0 == Some(c.items[key])
    ensures Consistent(r.1) && r.1.items == c.items && SameSettings(c, r.1)
    ensures |r.1.order| == |c.order|
    ensures key in c.items ==> r.1.order[|r.1.order| - 1] == key
    ensures key in c.items ==> Filter(r.1.order, {key}) == Filter(c.order, {key})
    ensures key in c.items && c.order[|c.order| - 1] == key ==> r.1 == c
  {
    if key !in c.items then (None, c)
    else
      MoveToBackOthers(c.order, key);
      (Some(c.items[key]), c.(order := MoveToBack(c.order, key)))
  }

  /** Get: the stored value on a hit, None on a miss. A stored nil is
      indistinguishable from a miss in the source; here values are never nil. */
  function Get<V>(c: Cache<V>, key: string): (r: (Option<V>, Cache<V>))
    requires Consistent(c)
    ensures r.0.Some? <==> key in c.items
    ensures r.0.Some? ==> r.0.value == c.items[key].value
    ensures r.1 == Lookup(c, key).1
  {
    var (found, c1) := Lookup(c, key);
    (if found.Some? then Some(found.value.value) else None, c1)
  }

  /** removeFirst at cache level: the head key leaves the map and the list.
      The source faults when fewer than two keys are held. */
  function EvictHead<V>(c: Cache<V>): (r: Result<Cache<V>, Fault>)
    requires Consistent(c)
    ensures r.Success? <==> |c.order| >= 2
    ensures r.Success? ==> r.value == c.(items := c.items - {c.order[0]}, order := c.order[1..])
    ensures r.Success? ==> Consistent(r.value)
  {
    var rest :- RemoveFirst(c.order);
    DistinctTail(c.order);
    assert Elems(rest) == Elems(c.order) - {c.order[0]};
    Success(c.(items := c.items - {c.order[0]}, order := rest))
  }

  /** The corrected eviction: faults only on an empty cache. */
  function EvictHeadCorrected<V>(c: Cache<V>): (r: Result<Cache<V>, Fault>)
    requires Consistent(c)
    ensures r.Success? <==> |c.order| >= 1
    ensures r.Success? ==> r.value == c.(items := c.items - {c.order[0]}, order := c.order[1..])
    ensures r.Success? ==> Consistent(r.value)
    ensures EvictHead(c).Success? ==> r == EvictHead(c)
  {
    var rest :- RemoveHead(c.order);
    DistinctTail(c.order);
    assert Elems(rest) == Elems(c.order) - {c.order[0]};
    Success(c.(items := c.items - {c.order[0]}, order := rest))
  }

  /** The tail of Put for a key not in the cache: store it as the newest entry. */
  function Append<V>(c: Cache<V>, key: string, value: V, now: int): (r: Cache<V>)
    requires Consistent(c) && key !in c.items
    ensures Consistent(r) && SameSettings(c, r)
    ensures r.items == c.items[key := Item(value, now)] && r.order == c.order + [key]
  {
    DistinctAppend(c.order, key);
    c.(items := c.items[key := Item(value, now)], order := c.order + [key])
  }

  /** Put: overwrite a present key (fresh creation time, moved to the tail);
      otherwise evict the head when the map size equals the capacity, then
      store the key as the new tail. */
  function Put<V>(c: Cache<V>, key: string, value: V, now: int): (r: Result<Cache<V>, Fault>)
    requires Consistent(c)
    ensures r.Failure? <==> key !in c.items && |c.items| == c.capacity && c.capacity < 2
    ensures r.Success? ==> Consistent(r.value) && SameSettings(c, r.value)
    ensures r.Success? ==> key in r.value.items && r.value.items[key] == Item(value, now)
    ensures r.Success? ==> r.value.order[|r.value.order| - 1] == key
    ensures key in c.items ==> r.Success? && r.value.items == c.items[key := Item(value, now)]
    ensures key in c.items ==> Filter(r.value.order, {key}) == Filter(c.order, {key})
    ensures key !in c.items && |c.items| != c.capacity ==>
      r.Success? && r.value.items == c.items[key := Item(value, now)] && r.value.order == c.order + [key]
    ensures key !in c.items && |c.items| == c.capacity ==> (r.Success? <==> c.capacity >= 2)
    ensures key !in c.items && |c.items| == c.capacity && r.Success? ==>
      r.value.items == (c.items - {c.order[0]})[key := Item(value, now)] && r.value.order == c.order[1..] + [key]
  {
    SizeAgrees(c);
    if key in c.items then
      var c1 := Lookup(c, key).1;
      Success(c1.(items := c1.items[key := Item(value, now)]))
    else
      var c1 :- if |c.items| == c.capacity then EvictHead(c) else Success(c);
      Success(Append(c1, key, value, now))
  }

  /** Put with the corrected eviction: a full cache of capacity one swaps its
      entry for the new one instead of faulting; only capacity zero (or a
      negative one that a full cache can never match) is left unusable. */
  function PutCorrected<V>(c: Cache<V>, key: string, value: V, now: int): (r: Result<Cache<V>, Fault>)
    requires Consistent(c)
    ensures r.Failure? <==> key !in c.items && |c.items| == c.capacity && c.capacity < 1
    ensures Put(c, key, value, now).Success? ==> r == Put(c, key, value, now)
    ensures key !in c.items && |c.items| == c.capacity == 1 ==>
      r.Success? && r.value.items == map[key := Item(value, now)] && r.value.order == [key]
  {
    SizeAgrees(c);
    if key in c.items then
      var c1 := Lookup(c, key).1;
      Success(c1.(items := c1.items[key := Item(value, now)]))
    else
      var c1 :- if |c.items| == c.capacity then EvictHeadCorrected(c) else Success(c);
      Success(Append(c1, key, value, now))
  }

  /** With the corrected eviction every put into a valid cache of positive
      capacity succeeds and keeps it valid. */
  lemma PutCorrectedPreservesValid<V>(c: Cache<V>, key: string, value: V, now: int)
    requires Valid(c) && c.capacity >= 1
    ensures PutCorrected(c, key, value, now).Success?
    ensures Valid(PutCorrected(c, key, value, now).value)
    ensures PutCorrected(c, key, value, now).value.items[key] == Item(value, now)
  {
    var r := PutCorrected(c, key, value, now).value;
    SizeAgrees(c);
    SizeAgrees(r);
  }

  /** The keys whose entries a sweep with predicate doomed deletes. */
  function Doomed<V>(c: Cache<V>, doomed: Item<V> -> bool): set<string> {
    set k | k in c.items && doomed(c.items[k])
  }

  /** The cache with the keys of gone deleted from the map and the list. */
  function Without<V>(c: Cache<V>, gone: set<string>): Cache<V> {
    c.(items := c.items - gone, order := Filter(c.order, gone))
  }

  /** Deleting one more key is unlinking it from, and deleting it in, the smaller cache. */
  lemma WithoutOneMore<V>(c: Cache<V>, gone: set<string>, k: string)
    ensures Without(c, gone + {k}) == Without(c, gone).(items := Without(c, gone).items - {k}, order := Filter(Without(c, gone).order, {k}))
  {
    FilterFilter(c.order, gone, {k});
    assert c.items - (gone + {k}) == (c.items - gone) - {k};
  }

  /** A sweep deleting every entry that satisfies doomed, from the map and the
      list alike; the survivors keep their items and their relative order. */
  function Sweep<V>(c: Cache<V>, doomed: Item<V> -> bool): (r: Cache<V>)
    requires Consistent(c)
    ensures Consistent(r) && SameSettings(c, r)
    ensures forall k :: k in r.items <==> k in c.items && !doomed(c.items[k])
    ensures forall k :: k in r.items ==> r.items[k] == c.items[k]
    ensures r.order == Filter(c.order, Doomed(c, doomed))
  {
    var gone := Doomed(c, doomed);
    FilterDistinct(c.order, gone);
    Without(c, gone)
  }

  /** purge: Go's range over the map visits the keys in an unspecified order;
      each visited key whose entry is doomed is unlinked and deleted. Whatever
      the visiting order, the outcome is the sweep. */
  method PurgeLoop<V>(c: Cache<V>, doomed: Item<V> -> bool) returns (r: Cache<V>)
    requires Consistent(c)
    ensures r == Sweep(c, doomed)
  {
    r := c;
    var todo := c.items.Keys;
    ghost var gone: set<string> := {};
    FilterMissing(c.order, {});
    assert c.items - {} == c.items;
    while todo != {}
      invariant todo <= c.items.Keys
      invariant forall k :: k in gone <==> k in c.items && k !in todo && doomed(c.items[k])
      invariant r == Without(c, gone)
      decreases todo
    {
      var k :| k in todo;
      if doomed(r.items[k]) {
        WithoutOneMore(c, gone, k);
        r := r.(order := Filter(r.order, {k}), items := r.items - {k});
        gone := gone + {k};
      }
      todo := todo - {k};
    }
    assert gone == Doomed(c, doomed);
  }

  /** purge with the clock read afresh at every visited key, as the source
      does: each reading lies between the sweep's start and finish and never
      goes backwards. A key's fate then depends on when it is visited, so the
      outcome is only bounded: everything the sweep at start would keep
      survives, and nothing survives that the sweep at finish would delete.
      With a frozen clock it is exactly the sweep. */
  method PurgeClocked<V>(c: Cache<V>, start: int, finish: int) returns (r: Cache<V>)
    requires Consistent(c) && start <= finish
    ensures Consistent(r) && SameSettings(c, r)
    ensures forall k :: k in r.items ==> k in c.items && r.items[k] == c.items[k]
    ensures forall k :: k in Purge(c, start).items ==> k in r.items
    ensures forall k :: k in r.items ==> k in Purge(c, finish).items
    ensures r.order == Filter(c.order, c.items.Keys - r.items.Keys)
    ensures start == finish ==> r == Purge(c, start)
  {
    r := c;
    var todo := c.items.Keys;
    var clock := start;
    ghost var gone: set<string> := {};
    FilterMissing(c.order, {});
    assert c.items - {} == c.items;
    while todo != {}
      invariant todo <= c.items.Keys
      invariant start <= clock <= finish
      invariant gone <= c.items.Keys && gone !! todo
      invariant forall k :: k in gone ==> c.items[k].creation + c.ttl > start
      invariant forall k :: k in c.items && k !in todo && k !in gone ==> c.items[k].creation + c.ttl <= finish
      invariant r == Without(c, gone)
      decreases todo
    {
      var k :| k in todo;
      assert clock <= clock <= finish;
      var now :| clock <= now <= finish;
      clock := now;
      if r.items[k].creation + c.ttl > now {
        WithoutOneMore(c, gone, k);
        r := r.(order := Filter(r.order, {k}), items := r.items - {k});
        gone := gone + {k};
      }
      todo := todo - {k};
    }
    FilterDistinct(c.order, gone);
    assert c.items.Keys - r.items.Keys == gone;
    if start == finish {
      assert gone == Doomed(c, (it: Item<V>) => it.creation + c.ttl > start);
    }
  }

  /** purge as written (cache/cache.go:97): deletes the entries whose
      creation + ttl lies strictly after now, i.e. the ones that have NOT yet
      expired, and keeps the expired ones. */
  function Purge<V>(c: Cache<V>, now: int): (r: Cache<V>)
    requires Consistent(c)
    ensures Consistent(r) && SameSettings(c, r)
    ensures forall k :: k in r.items <==> k in c.items && c.items[k].creation + c.ttl <= now
  {
    Sweep(c, (it: Item<V>) => it.creation + c.ttl > now)
  }

  /** The corrected sweep: deletes exactly the expired entries, those whose
      creation + ttl is not after now. */
  function PurgeExpired<V>(c: Cache<V>, now: int): (r: Cache<V>)
    requires Consistent(c)
    ensures Consistent(r) && SameSettings(c, r)
    ensures forall k :: k in r.items <==> k in c.items && now < c.items[k].creation + c.ttl
  {
    Sweep(c, (it: Item<V>) => it.creation + c.ttl <= now)
  }

  /** The sequence lists its keys by strictly increasing stamp. */
  ghost predicate OrderedBy(s: seq<string>, used: map<string, int>) {
    forall x, y :: Precedes(s, x, y) ==> x in used && y in used && used[x] < used[y]
  }

  /** Every key of the cache has a last-use stamp, and the recency order lists
      the keys by strictly increasing stamp: the head is the key whose last
      successful get or put lies furthest back. */
  ghost predicate OrderedByUse<V>(c: Cache<V>, used: map<string, int>) {
    && (forall k :: k in c.items ==> k in used)
    && OrderedBy(c.order, used)
  }

  /** Every stamp lies before time t. */
  ghost predicate Before(used: map<string, int>, t: int) {
    forall k :: k in used ==> used[k] < t
  }

  /** Appending a key stamped later than every other keeps the sequence ordered by stamp. */
  lemma AppendStamped(s: seq<string>, k: string, used: map<string, int>, t: int)
    requires k !in s && OrderedBy(s, used) && Before(used, t)
    requires forall x :: x in s ==> x in used
    ensures OrderedBy(s + [k], used[k := t])
  {
    var used' := used[k := t];
    forall x, y | Precedes(s + [k], x, y)
      ensures x in used' && y in used' && used'[x] < used'[y]
    {
      PrecedesAppend(s, k, x, y);
    }
  }

  /** Taking keys out keeps the sequence ordered by stamp. */
  lemma FilterStamped(s: seq<string>, gone: set<string>, used: map<string, int>)
    requires OrderedBy(s, used)
    ensures OrderedBy(Filter(s, gone), used)
  {
    forall x, y | Precedes(Filter(s, gone), x, y)
      ensures x in used && y in used && used[x] < used[y]
    {
      FilterKeepsOrder(s, gone, x, y);
    }
  }

  /** Dropping the head keeps a duplicate-free sequence ordered by stamp. */
  lemma DropHeadStamped(s: seq<string>, used: map<string, int>)
    requires Distinct(s) && |s| > 0 && OrderedBy(s, used)
    ensures OrderedBy(s[1..], used)
  {
    forall x, y | Precedes(s[1..], x, y)
      ensures x in used && y in used && used[x] < used[y]
    {
      DropHeadKeepsOrder(s, x, y);
    }
  }

  /** A hit stamps the key with the current time t and keeps the order by use; a miss stamps nothing. */
  lemma GetKeepsUseOrder<V>(c: Cache<V>, used: map<string, int>, key: string, t: int)
    requires Consistent(c) && OrderedByUse(c, used) && Before(used, t)
    ensures OrderedByUse(Get(c, key).1, if key in c.items then used[key := t] else used)
  {
    if key in c.items {
      var rest := Filter(c.order, {key});
      FilterStamped(c.order, {key}, used);
      AppendStamped(rest, key, used, t);
      assert Get(c, key).1.order == rest + [key];
    }
  }

  /** Put stamps the key with the current time t and keeps the order by use. */
  lemma PutKeepsUseOrder<V>(c: Cache<V>, used: map<string, int>, key: string, value: V, now: int, t: int)
    requires Consistent(c) && OrderedByUse(c, used) && Before(used, t)
    requires Put(c, key, value, now).Success?
    ensures OrderedByUse(Put(c, key, value, now).value, used[key := t])
  {
    var r := Put(c, key, value, now).value;
    if key in c.items {
      GetKeepsUseOrder(c, used, key, t);
      assert r.order == Get(c, key).1.order;
    } else {
      var full := |c.items| == c.capacity;
      var rest := if full then c.order[1..] else c.order;
      if full {
        SizeAgrees(c);
        DropHeadStamped(c.order, used);
      }
      assert r.order == rest + [key];
      AppendStamped(rest, key, used, t);
    }
  }

  /** A sweep keeps the order by use of the survivors. */
  lemma SweepKeepsUseOrder<V>(c: Cache<V>, used: map<string, int>, doomed: Item<V> -> bool)
    requires Consistent(c) && OrderedByUse(c, used)
    ensures OrderedByUse(Sweep(c, doomed), used)
  {
    FilterStamped(c.order, Doomed(c, doomed), used);
  }

  /** True LRU: a put of a new key into a full cache evicts exactly one key,
      the head, and no other key was used less recently than it. */
  lemma PutEvictsLeastRecentlyUsed<V>(c: Cache<V>, used: map<string, int>, key: string, value: V, now: int)
    requires Consistent(c) && OrderedByUse(c, used)
    requires key !in c.items && |c.items| == c.capacity && c.capacity >= 2
    ensures Put(c, key, value, now).Success?
    ensures var victim := c.order[0];
      && victim in c.items
      && Put(c, key, value, now).value.items.Keys == c.items.Keys - {victim} + {key}
      && forall k :: k in c.items && k != victim ==> used[victim] < used[k]
  {
    SizeAgrees(c);
    var victim := c.order[0];
    forall k | k in c.items && k != victim
      ensures used[victim] < used[k]
    {
      HeadPrecedes(c.order, k);
    }
  }

  /** Put keeps a valid cache valid (size never exceeds the capacity). */
  lemma PutPreservesValid<V>(c: Cache<V>, key: string, value: V, now: int)
    requires Valid(c) && Put(c, key, value, now).Success?
    ensures Valid(Put(c, key, value, now).value)
    ensures |Put(c, key, value, now).value.items| == if key in c.items || |c.items| == c.capacity then |c.items| else |c.items| + 1
  {
    var r := Put(c, key, value, now).value;
    SizeAgrees(c);
    SizeAgrees(r);
  }

  /** A sweep keeps a valid cache valid. */
  lemma SweepPreservesValid<V>(c: Cache<V>, doomed: Item<V> -> bool)
    requires Valid(c)
    ensures Valid(Sweep(c, doomed))
    ensures |Sweep(c, doomed).items| == |c.items| - |Doomed(c, doomed)|
  {
    var r := Sweep(c, doomed);
    assert r.items.Keys == c.items.Keys - Doomed(c, doomed);
    assert |r.items.Keys| == |c.items.Keys| - |Doomed(c, doomed)|;
  }

  /** A sweep keeps the relative order of the keys it keeps. */
  lemma SweepKeepsOrder<V>(c: Cache<V>, doomed: Item<V> -> bool, x: string, y: string)
    requires Consistent(c) && x in Sweep(c, doomed).items && y in Sweep(c, doomed).items
    ensures Precedes(Sweep(c, doomed).order, x, y) <==> Precedes(c.order, x, y)
  {
    FilterKeepsOrder(c.order, Doomed(c, doomed), x, y);
  }

  /** Repeated gets of the same key: the second one returns the same answer and changes nothing. */
  lemma GetIdempotent<V>(c: Cache<V>, key: string)
    requires Consistent(c)
    ensures Get(Get(c, key).1, key) == (Get(c, key).0, Get(c, key).1)
  {
    var c1 := Get(c, key).1;
    if key in c.items {
      assert c1.order[|c1.order| - 1] == key;
    }
  }

  /** A get right after a successful put of the same key returns the value put. */
  lemma PutThenGet<V>(c: Cache<V>, key: string, value: V, now: int)
    requires Consistent(c) && Put(c, key, value, now).Success?
    ensures Get(Put(c, key, value, now).value, key).0 == Some(value)
  {
  }

  /** The source's sweep and the corrected one split the cache between them:
      each entry is deleted by exactly one of the two. */
  lemma PurgeIsInverted<V>(c: Cache<V>, now: int, k: string)
    requires Consistent(c) && k in c.items
    ensures k in Purge(c, now).items <==> k !in PurgeExpired(c, now).items
  {
  }

  /** While no entry has expired, the source's sweep empties the cache and
      the corrected one keeps every entry. */
  lemma SweepsBeforeExpiry<V>(c: Cache<V>, now: int)
    requires Consistent(c)
    requires forall k :: k in c.items ==> now < c.items[k].creation + c.ttl
    ensures Purge(c, now).items == map[]
    ensures PurgeExpired(c, now).items == c.items
  {
    assert Purge(c, now).items.Keys == {};
  }

  /** Once every entry has expired, the source's sweep keeps them all and the
      corrected one empties the cache. */
  lemma SweepsAfterExpiry<V>(c: Cache<V>, now: int)
    requires Consistent(c)
    requires forall k :: k in c.items ==> c.items[k].creation + c.ttl <= now
    ensures Purge(c, now).items == c.items
    ensures PurgeExpired(c, now).items == map[]
  {
    assert PurgeExpired(c, now).items.Keys == {};
  }

  /** A caller's call on the cache, or one tick of the cleaner. */
  datatype Op<V> = GetOp(key: string) | PutOp(key: string, value: V, now: int) | PurgeOp(now: int)

  /** One operation; a Get's answer is dropped, only its effect on the cache is kept. */
  function Step<V>(c: Cache<V>, op: Op<V>): (r: Result<Cache<V>, Fault>)
    requires Consistent(c)
    ensures r.Success? ==> Consistent(r.value) && SameSettings(c, r.value)
    ensures c.capacity >= 2 ==> r.Success?
  {
    match op
    case GetOp(k) => Success(Get(c, k).1)
    case PutOp(k, v, now) => Put(c, k, v, now)
    case PurgeOp(now) => Success(Purge(c, now))
  }

  /** Operations one after the other; the first fault stops the run. */
  function Run<V>(c: Cache<V>, ops: seq<Op<V>>): (r: Result<Cache<V>, Fault>)
    requires Consistent(c)
    ensures r.Success? ==> Consistent(r.value) && SameSettings(c, r.value)
    ensures c.capacity >= 2 ==> r.Success?
    decreases |ops|
  {
    if |ops| == 0 then Success(c)
    else
      var c1 :- Step(c, ops[0]);
      Run(c1, ops[1..])
  }

  /** The stamps after op runs at time t: a hit or a put stamps its key with t. */
  function Touch<V>(c: Cache<V>, used: map<string, int>, op: Op<V>, t: int): map<string, int> {
    match op
    case GetOp(k) => if k in c.items then used[k := t] else used
    case PutOp(k, _, _) => used[k := t]
    case PurgeOp(_) => used
  }

  /** The last-use stamps along a run whose operations happen at t, t + 1, ... */
  function Stamps<V>(c: Cache<V>, used: map<string, int>, t: int, ops: seq<Op<V>>): map<string, int>
    requires Consistent(c)
    decreases |ops|
  {
    if |ops| == 0 then used
    else match Step(c, ops[0])
      case Failure(_) => used
      case Success(c1) => Stamps(c1, Touch(c, used, ops[0], t), t + 1, ops[1..])
  }

  lemma {:induction false} RunPreservesValid<V>(c: Cache<V>, ops: seq<Op<V>>)
    requires Valid(c) && Run(c, ops).Success?
    ensures Valid(Run(c, ops).value)
    decreases |ops|
  {
    if |ops| > 0 {
      var c1 := Step(c, ops[0]).value;
      match ops[0] {
        case GetOp(k) =>
        case PutOp(k, v, now) => PutPreservesValid(c, k, v, now);
        case PurgeOp(now) => SweepPreservesValid(c, (it: Item<V>) => it.creation + c.ttl > now);
      }
      RunPreservesValid(c1, ops[1..]);
    }
  }

  lemma {:induction false} RunOrdersByLastUse<V>(c: Cache<V>, used: map<string, int>, t: int, ops: seq<Op<V>>)
    requires Consistent(c) && OrderedByUse(c, used) && Before(used, t)
    requires Run(c, ops).Success?
    ensures OrderedByUse(Run(c, ops).value, Stamps(c, used, t, ops))
    decreases |ops|
  {
    if |ops| > 0 {
      var c1 := Step(c, ops[0]).value;
      var used1 := Touch(c, used, ops[0], t);
      match ops[0] {
        case GetOp(k) => GetKeepsUseOrder(c, used, k, t);
        case PutOp(k, v, now) => PutKeepsUseOrder(c, used, k, v, now, t);
        case PurgeOp(now) => SweepKeepsUseOrder(c, used, (it: Item<V>) => it.creation + c.ttl > now);
      }
      assert Before(used1, t + 1);
      RunOrdersByLastUse(c1, used1, t + 1, ops[1..]);
    }
  }

  /** Every cache reached from New with capacity at least two, by any sequence
      of gets, puts and sweeps, is valid, and its recency order lists the keys
      by the step of their last successful get or put. */
  lemma LruFromNew<V>(capacity: int, ttl: int, cleanUpInterval: int, ops: seq<Op<V>>)
    requires capacity >= 2
    ensures Run(New<V>(capacity, ttl, cleanUpInterval), ops).Success?
    ensures Valid(Run(New<V>(capacity, ttl, cleanUpInterval), ops).value)
    ensures OrderedByUse(Run(New<V>(capacity, ttl, cleanUpInterval), ops).value, Stamps(New<V>(capacity, ttl, cleanUpInterval), map[], 0, ops))
  {
    var c := New<V>(capacity, ttl, cleanUpInterval);
    RunPreservesValid(c, ops);
    RunOrdersByLastUse(c, map[], 0, ops);
  }
}
