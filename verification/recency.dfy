/** The recency order of the cache seen as a sequence of keys: index 0 is the
    head (least recently used), the last index is the tail (most recently used).
    This is the abstract view the linked list of cache/cache.go implements. */
module RecencyList {
  import opened Wrappers

  /** The only way the source's list surgery fails: following a nil link. */
  datatype Fault = NilDereference

  /** No key occurs twice. */
  predicate Distinct(s: seq<string>) {
    forall i, j :: 0 <= i < j < |s| ==> s[i] != s[j]
  }

  /** The keys held by the sequence. */
  function Elems(s: seq<string>): set<string> {
    set x | x in s
  }

  /** Position of the first occurrence of x. */
  function IndexOf(s: seq<string>, x: string): (i: nat)
    requires x in s
    ensures i < |s| && s[i] == x
    ensures forall j :: 0 <= j < i ==> s[j] != x
  {
    if s[0] == x then 0 else 1 + IndexOf(s[1..], x)
  }

  /** x comes strictly before y in the order. */
  predicate Precedes(s: seq<string>, x: string, y: string) {
    x in s && y in s && IndexOf(s, x) < IndexOf(s, y)
  }

  /** s with every key of gone taken out, the remaining keys in their original order. */
  function Filter(s: seq<string>, gone: set<string>): (r: seq<string>)
    ensures forall x :: x in r <==> x in s && x !in gone
    ensures |r| <= |s|
  {
    if |s| == 0 then []
    else if s[0] in gone then Filter(s[1..], gone)
    else [s[0]] + Filter(s[1..], gone)
  }

  /** moveToBack on the sequence view: k leaves its place and becomes the tail;
      already being the tail makes it a no-op. */
  function MoveToBack(s: seq<string>, k: string): (r: seq<string>)
    requires Distinct(s) && k in s
    ensures r == Filter(s, {k}) + [k]
    ensures s[|s| - 1] == k ==> r == s
    ensures Distinct(r) && Elems(r) == Elems(s) && |r| == |s|
  {
    var i := IndexOf(s, k);
    FilterAt(s, i);
    FilterDistinct(s, {k});
    DistinctAppend(Filter(s, {k}), k);
    if s[|s| - 1] == k then
      assert i == |s| - 1;
      assert s == s[..|s| - 1] + [k];
      s
    else
      Filter(s, {k}) + [k]
  }

  /** Moving k to the back leaves the other keys where they were relative to each other. */
  lemma MoveToBackOthers(s: seq<string>, k: string)
    requires Distinct(s) && k in s
    ensures Filter(MoveToBack(s, k), {k}) == Filter(s, {k})
  {
    var f := Filter(s, {k});
    FilterAppend(f, [k], {k});
    assert Filter([k], {k}) == [] by {
      assert [k][1..] == [];
    }
    FilterFilter(s, {k}, {k});
    assert {k} + {k} == {k};
  }

  /** removeFirst on the sequence view. The source's version dereferences the
      head and then the head's successor, so it faults on fewer than two keys. */
  function RemoveFirst(s: seq<string>): (r: Result<seq<string>, Fault>)
    ensures r.Success? <==> |s| >= 2
    ensures r.Success? ==> r.value == s[1..]
  {
    if |s| < 2 then Failure(NilDereference) else Success(s[1..])
  }

  /** removeFirst as evidently intended: any non-empty sequence loses its head. */
  function RemoveHead(s: seq<string>): (r: Result<seq<string>, Fault>)
    ensures r.Success? <==> |s| >= 1
    ensures r.Success? ==> r.value == s[1..]
    ensures RemoveFirst(s).Success? ==> r == RemoveFirst(s)
  {
    if |s| == 0 then Failure(NilDereference) else Success(s[1..])
  }

  lemma DistinctTail(s: seq<string>)
    requires Distinct(s) && |s| > 0
    ensures Distinct(s[1..]) && s[0] !in s[1..]
  {
    assert forall i, j :: 0 <= i < j < |s| - 1 ==> s[1..][i] == s[i + 1] && s[1..][j] == s[j + 1];
  }

  lemma DistinctCons(x: string, s: seq<string>)
    requires Distinct(s) && x !in s
    ensures Distinct([x] + s)
  {
    var r := [x] + s;
    forall i, j | 0 <= i < j < |r|
      ensures r[i] != r[j]
    {
      assert r[j] == s[j - 1];
      if i > 0 {
        assert r[i] == s[i - 1];
      }
    }
  }

  lemma DistinctAppend(s: seq<string>, x: string)
    requires Distinct(s) && x !in s
    ensures Distinct(s + [x])
  {
  }

  lemma {:induction false} FilterDistinct(s: seq<string>, gone: set<string>)
    requires Distinct(s)
    ensures Distinct(Filter(s, gone))
  {
    if |s| > 0 {
      DistinctTail(s);
      FilterDistinct(s[1..], gone);
      if s[0] !in gone {
        DistinctCons(s[0], Filter(s[1..], gone));
      }
    }
  }

  /** Filtering out keys the sequence does not hold changes nothing. */
  lemma {:induction false} FilterMissing(s: seq<string>, gone: set<string>)
    requires forall x :: x in s ==> x !in gone
    ensures Filter(s, gone) == s
  {
    if |s| > 0 {
      FilterMissing(s[1..], gone);
      assert s == [s[0]] + s[1..];
    }
  }

  /** Taking out the single key at position i of a duplicate-free sequence. */
  lemma {:induction false} FilterAt(s: seq<string>, i: nat)
    requires Distinct(s) && i < |s|
    ensures Filter(s, {s[i]}) == s[..i] + s[i + 1..]
  {
    DistinctTail(s);
    if i == 0 {
      FilterMissing(s[1..], {s[0]});
    } else {
      FilterAt(s[1..], i - 1);
      assert s[1..][i - 1] == s[i];
      assert s[..i] == [s[0]] + s[1..][..i - 1];
      assert s[i + 1..] == s[1..][i..];
    }
  }

  lemma {:induction false} FilterAppend(a: seq<string>, b: seq<string>, gone: set<string>)
    ensures Filter(a + b, gone) == Filter(a, gone) + Filter(b, gone)
  {
    if |a| == 0 {
      assert a + b == b;
    } else {
      var tail := Filter(a[1..] + b, gone);
      assert (a + b)[1..] == a[1..] + b;
      assert Filter(a + b, gone) == if a[0] in gone then tail else [a[0]] + tail;
      FilterAppend(a[1..], b, gone);
      if a[0] !in gone {
        var x, y := Filter(a[1..], gone), Filter(b, gone);
        assert [a[0]] + (x + y) == ([a[0]] + x) + y;
      }
    }
  }

  /** Two sweeps in a row are one sweep of the union. */
  lemma {:induction false} FilterFilter(s: seq<string>, a: set<string>, b: set<string>)
    ensures Filter(Filter(s, a), b) == Filter(s, a + b)
  {
    if |s| > 0 {
      FilterFilter(s[1..], a, b);
      if s[0] !in a {
        assert ([s[0]] + Filter(s[1..], a))[1..] == Filter(s[1..], a);
      }
    }
  }

  /** A duplicate-free sequence holds as many keys as it is long. */
  lemma {:induction false} DistinctSize(s: seq<string>)
    requires Distinct(s)
    ensures |Elems(s)| == |s|
  {
    if |s| > 0 {
      DistinctTail(s);
      DistinctSize(s[1..]);
      assert Elems(s) == {s[0]} + Elems(s[1..]);
    }
  }

  /** Filtering keeps the relative order of the keys it keeps. */
  lemma {:induction false} FilterKeepsOrder(s: seq<string>, gone: set<string>, x: string, y: string)
    requires x !in gone && y !in gone
    ensures Precedes(Filter(s, gone), x, y) <==> Precedes(s, x, y)
  {
    if |s| > 0 {
      var f := Filter(s, gone);
      var t := Filter(s[1..], gone);
      FilterKeepsOrder(s[1..], gone, x, y);
      if s[0] !in gone {
        assert f == [s[0]] + t;
        assert f[1..] == t;
      }
    }
  }

  lemma {:induction false} IndexOfAppend(a: seq<string>, k: string, x: string)
    requires x in a
    ensures IndexOf(a + [k], x) == IndexOf(a, x)
  {
    if a[0] != x {
      IndexOfAppend(a[1..], k, x);
      assert (a + [k])[1..] == a[1..] + [k];
    }
  }

  /** Order in a sequence with one key appended: the old order, and every old key before the new one. */
  lemma PrecedesAppend(a: seq<string>, k: string, x: string, y: string)
    requires k !in a
    ensures Precedes(a + [k], x, y) <==> Precedes(a, x, y) || (x in a && y == k)
  {
    if x in a {
      IndexOfAppend(a, k, x);
      if y in a {
        IndexOfAppend(a, k, y);
      } else if y == k {
        assert IndexOf(a + [k], k) == |a|;
      }
    }
    if x == k && x !in a {
      assert IndexOf(a + [k], k) == |a|;
    }
  }

  /** In a duplicate-free sequence the head comes before every other key. */
  lemma HeadPrecedes(s: seq<string>, y: string)
    requires |s| > 0 && y in s && y != s[0]
    ensures Precedes(s, s[0], y)
  {
  }

  /** Dropping the head of a duplicate-free sequence keeps the order of the rest. */
  lemma DropHeadKeepsOrder(s: seq<string>, x: string, y: string)
    requires Distinct(s) && |s| > 0 && x in s[1..] && y in s[1..]
    ensures Precedes(s[1..], x, y) <==> Precedes(s, x, y)
  {
    DistinctTail(s);
    assert s[0] != x && s[0] != y;
    assert IndexOf(s, x) == 1 + IndexOf(s[1..], x);
    assert IndexOf(s, y) == 1 + IndexOf(s[1..], y);
  }
}
