/** The demonstration in main.go, and the recency example it is meant to
    show, replayed on the model. Times are in milliseconds; main.go's puts
    happen within the same instant, taken here as time 0. */
module Scenario {
  import opened Wrappers
  import opened RecencyList
  import opened Lru

  /** Every entry was stored at time t. */
  predicate CreatedAt<V>(c: Cache<V>, t: int) {
    forall k :: k in c.items ==> c.items[k].creation == t
  }

  /** main.go:10-11: the cache, and "1" put into it. */
  function DemoPut1(): (c: Cache<string>)
    ensures Consistent(c) && c.capacity == 3 && c.ttl == 2000 && c.cleaner == Some(200)
    ensures c.order == ["1"] && CreatedAt(c, 0)
  {
    Put(New<string>(3, 2000, 200), "1", "Physics", 0).value
  }

  /** main.go:12 */
  function DemoPut2(): (c: Cache<string>)
    ensures Consistent(c) && c.capacity == 3 && c.ttl == 2000 && c.cleaner == Some(200)
    ensures c.order == ["1", "2"] && CreatedAt(c, 0)
    ensures "2" in c.items && c.items["2"] == Item("Math", 0)
  {
    var c1 := DemoPut1();
    SizeAgrees(c1);
    Put(c1, "2", "Math", 0).value
  }

  /** main.go:13 */
  function DemoPut3(): (c: Cache<string>)
    ensures Consistent(c) && c.capacity == 3 && c.ttl == 2000 && c.cleaner == Some(200)
    ensures c.order == ["1", "2", "3"] && CreatedAt(c, 0)
    ensures "2" in c.items && c.items["2"] == Item("Math", 0)
  {
    var c2 := DemoPut2();
    SizeAgrees(c2);
    Put(c2, "3", "Astronomy", 0).value
  }

  /** main.go:14: the fourth put finds the cache full. */
  function DemoAfterPuts(): Cache<string> {
    var c3 := DemoPut3();
    SizeAgrees(c3);
    Put(c3, "4", "Linear algebra", 0).value
  }

  /** The fourth put evicted "1", the least recently used key; the other three
      keys stay, in the order they were put. */
  lemma DemoEvictsFirstKey()
    ensures Consistent(DemoAfterPuts()) && DemoAfterPuts().ttl == 2000
    ensures DemoAfterPuts().order == ["2", "3", "4"] && CreatedAt(DemoAfterPuts(), 0)
    ensures "2" in DemoAfterPuts().items && DemoAfterPuts().items["2"] == Item("Math", 0)
  {
    FourthPutEvicts(DemoPut3());
  }

  /** A new key put into a full cache of three ordered "1", "2", "3" evicts "1". */
  lemma FourthPutEvicts(c: Cache<string>)
    requires Consistent(c) && c.capacity == 3 && c.order == ["1", "2", "3"] && CreatedAt(c, 0)
    requires "2" in c.items && c.items["2"] == Item("Math", 0)
    ensures Put(c, "4", "Linear algebra", 0).Success?
    ensures Consistent(Put(c, "4", "Linear algebra", 0).value)
    ensures Put(c, "4", "Linear algebra", 0).value.ttl == c.ttl
    ensures Put(c, "4", "Linear algebra", 0).value.order == ["2", "3", "4"]
    ensures CreatedAt(Put(c, "4", "Linear algebra", 0).value, 0)
    ensures "2" in Put(c, "4", "Linear algebra", 0).value.items
    ensures Put(c, "4", "Linear algebra", 0).value.items["2"] == Item("Math", 0)
  {
    SizeAgrees(c);
    assert c.order[1..] + ["4"] == ["2", "3", "4"];
  }

  /** main.go:15-16: Get("2") is "Math" and makes "2" the most recent key;
      Get("1") misses because "1" was evicted. */
  lemma DemoLookups()
    ensures Consistent(DemoAfterPuts())
    ensures Get(DemoAfterPuts(), "2").0 == Some("Math")
    ensures Get(DemoAfterPuts(), "2").1.order == ["3", "4", "2"]
    ensures Get(Get(DemoAfterPuts(), "2").1, "1").0 == None
  {
    DemoEvictsFirstKey();
    LookupsAfterEviction(DemoAfterPuts());
  }

  lemma LookupsAfterEviction(c: Cache<string>)
    requires Consistent(c) && c.order == ["2", "3", "4"]
    requires "2" in c.items && c.items["2"].value == "Math"
    ensures Get(c, "2").0 == Some("Math")
    ensures Get(c, "2").1.order == ["3", "4", "2"]
    ensures Get(Get(c, "2").1, "1").0 == None
  {
    assert Filter(c.order, {"2"}) == ["3", "4"] by {
      FilterAt(c.order, 0);
    }
    assert "1" !in Get(c, "2").1.items;
  }

  /** main.go:17-18: during the 4 s sleep the cleaner's first tick at 200 ms
      runs the source's sweep on the cache left by the two lookups, and
      deletes all three entries because none has expired yet; the final
      Get("2") therefore misses. The corrected sweep keeps them at 200 ms and
      deletes them at 2000 ms. */
  lemma DemoSleep()
    ensures Consistent(DemoAfterPuts()) && Consistent(Get(DemoAfterPuts(), "2").1)
    ensures Consistent(Get(Get(DemoAfterPuts(), "2").1, "1").1)
    ensures Purge(Get(Get(DemoAfterPuts(), "2").1, "1").1, 200).items == map[]
    ensures Get(Purge(Get(Get(DemoAfterPuts(), "2").1, "1").1, 200), "2").0 == None
    ensures PurgeExpired(Get(Get(DemoAfterPuts(), "2").1, "1").1, 200).items.Keys == {"2", "3", "4"}
    ensures PurgeExpired(Get(Get(DemoAfterPuts(), "2").1, "1").1, 2000).items == map[]
  {
    DemoEvictsFirstKey();
    SweepsOfFreshEntries(DemoAfterPuts());
  }

  /** After Get("2") and the missed Get("1"), sweeps at 200 ms and at 2000 ms
      over three entries created at time 0 with a 2000 ms ttl. */
  lemma SweepsOfFreshEntries(c: Cache<string>)
    requires Consistent(c) && c.order == ["2", "3", "4"] && c.ttl == 2000 && CreatedAt(c, 0)
    ensures Consistent(Get(c, "2").1) && Consistent(Get(Get(c, "2").1, "1").1)
    ensures Purge(Get(Get(c, "2").1, "1").1, 200).items == map[]
    ensures Get(Purge(Get(Get(c, "2").1, "1").1, 200), "2").0 == None
    ensures PurgeExpired(Get(Get(c, "2").1, "1").1, 200).items.Keys == {"2", "3", "4"}
    ensures PurgeExpired(Get(Get(c, "2").1, "1").1, 2000).items == map[]
  {
    var c1 := Get(c, "2").1;
    ElemsOfThree("2", "3", "4");
    assert "1" !in c1.items;
    assert Get(c1, "1").1 == c1;
    SweepsBeforeExpiry(c1, 200);
    SweepsAfterExpiry(c1, 2000);
  }

  lemma ElemsOfThree(a: string, b: string, c: string)
    ensures Elems([a, b, c]) == {a, b, c}
  {
  }

  /** The recency example: with capacity 3, put A, B, C, get A, then put D:
      D evicts B, not A, because A was touched after B. */
  function PutsA(): (c: Cache<int>)
    ensures Consistent(c) && c.capacity == 3 && c.order == ["A"]
  {
    Put(New<int>(3, 1000, 0), "A", 1, 0).value
  }

  function PutsAB(): (c: Cache<int>)
    ensures Consistent(c) && c.capacity == 3 && c.order == ["A", "B"]
  {
    var c1 := PutsA();
    SizeAgrees(c1);
    Put(c1, "B", 2, 0).value
  }

  function PutsABC(): (c: Cache<int>)
    ensures Consistent(c) && c.capacity == 3 && c.order == ["A", "B", "C"]
  {
    var c2 := PutsAB();
    SizeAgrees(c2);
    Put(c2, "C", 3, 0).value
  }

  lemma TouchedKeySurvives()
    ensures Put(Get(PutsABC(), "A").1, "D", 4, 0).Success?
    ensures Put(Get(PutsABC(), "A").1, "D", 4, 0).value.items.Keys == {"A", "C", "D"}
  {
    TouchThenEvict(PutsABC(), 4, 0);
  }

  /** Whatever the values and times: after A, B, C in a full cache of three,
      touching A and putting D leaves A, C, D, with D the most recent. */
  lemma TouchThenEvict<V>(c: Cache<V>, v: V, now: int)
    requires Consistent(c) && c.capacity == 3 && c.order == ["A", "B", "C"]
    ensures Put(Get(c, "A").1, "D", v, now).Success?
    ensures Put(Get(c, "A").1, "D", v, now).value.order == ["C", "A", "D"]
    ensures Put(Get(c, "A").1, "D", v, now).value.items.Keys == {"A", "C", "D"}
  {
    TouchHead(c);
    PutIntoFullThree(Get(c, "A").1, v, now);
  }

  /** Touching the head of A, B, C makes the order B, C, A. */
  lemma TouchHead<V>(c: Cache<V>)
    requires Consistent(c) && c.order == ["A", "B", "C"]
    ensures Get(c, "A").1.order == ["B", "C", "A"]
  {
    assert Filter(c.order, {"A"}) == ["B", "C"] by {
      FilterAt(c.order, 0);
    }
  }

  /** Putting D into a full cache of three ordered B, C, A evicts B. */
  lemma PutIntoFullThree<V>(c: Cache<V>, v: V, now: int)
    requires Consistent(c) && c.capacity == 3 && c.order == ["B", "C", "A"]
    ensures Put(c, "D", v, now).Success?
    ensures Put(c, "D", v, now).value.order == ["C", "A", "D"]
    ensures Put(c, "D", v, now).value.items.Keys == {"A", "C", "D"}
  {
    SizeAgrees(c);
    assert c.order[1..] + ["D"] == ["C", "A", "D"];
    ElemsOfThree("C", "A", "D");
  }
}
