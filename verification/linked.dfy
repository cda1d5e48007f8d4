/** The doubly linked recency list of cache/cache.go, with pointers replaced by
    keys: a node is named by the key it carries, `nodes` is the arena of nodes
    still in the list, and `first`/`last` are the cache's head and tail links.
    Every operation follows the source statement by statement; following a
    nil link (or a link to no node of the arena) is the source's run-time panic
    and yields Failure(NilDereference). */
module LinkedList {
  import opened Wrappers
  import opened RecencyList

  datatype Node = Node(prev: Option<string>, next: Option<string>)

  datatype List = List(nodes: map<string, Node>, first: Option<string>, last: Option<string>)

  /** The list of a freshly built cache: no nodes, nil head and tail. */
  function Empty(): List {
    List(map[], None, None)
  }

  function Head(s: seq<string>): Option<string> {
    if |s| == 0 then None else Some(s[0])
  }

  function Tail(s: seq<string>): Option<string> {
    if |s| == 0 then None else Some(s[|s| - 1])
  }

  function PrevOf(s: seq<string>, i: nat): Option<string>
    requires i < |s|
  {
    if i == 0 then None else Some(s[i - 1])
  }

  function NextOf(s: seq<string>, i: nat): Option<string>
    requires i < |s|
  {
    if i == |s| - 1 then None else Some(s[i + 1])
  }

  /** The node of s[i] carries the links of position i of s. */
  ghost predicate LinkedAt(l: List, s: seq<string>, i: int) {
    0 <= i < |s| && s[i] in l.nodes && l.nodes[s[i]] == Node(PrevOf(s, i), NextOf(s, i))
  }

  /** The linked structure l is exactly the sequence s: one node per key, each
      linked to its neighbours in s, head and tail at the two ends. */
  ghost predicate Represents(l: List, s: seq<string>) {
    && Distinct(s)
    && l.nodes.Keys == Elems(s)
    && l.first == Head(s)
    && l.last == Tail(s)
    && forall i :: 0 <= i < |s| ==> LinkedAt(l, s, i)
  }

  /** Reading the node a link points to. */
  function At(l: List, p: Option<string>): (r: Result<Node, Fault>)
  {
    if p.Some? && p.value in l.nodes then Success(l.nodes[p.value]) else Failure(NilDereference)
  }

  /** `p.nextElemLink = v` */
  function SetNext(l: List, p: Option<string>, v: Option<string>): (r: Result<List, Fault>)
  {
    var n :- At(l, p);
    Success(l.(nodes := l.nodes[p.value := n.(next := v)]))
  }

  /** `p.previousElemLink = v` */
  function SetPrev(l: List, p: Option<string>, v: Option<string>): (r: Result<List, Fault>)
  {
    var n :- At(l, p);
    Success(l.(nodes := l.nodes[p.value := n.(prev := v)]))
  }

  /** pushBack of a freshly allocated node for k (its links start nil). */
  function PushBack(l: List, k: string): (r: Result<List, Fault>)
    requires k !in l.nodes
  {
    var added := l.(nodes := l.nodes[k := Node(None, None)]);
    if l.first.None? then
      Success(added.(first := Some(k), last := Some(k)))
    else
      var l1 :- SetNext(added, l.last, Some(k));
      var l2 :- SetPrev(l1, Some(k), l1.last);
      Success(l2.(last := Some(k)))
  }

  /** The head branch of moveToBack: the successor becomes the head. */
  function DetachHead(l: List): (r: Result<List, Fault>)
  {
    var h :- At(l, l.first);
    var l1 := l.(first := h.next);
    SetPrev(l1, l1.first, None)
  }

  /** The interior branch of moveToBack: the neighbours are linked to each other. */
  function DetachInner(l: List, k: string): (r: Result<List, Fault>)
  {
    var n :- At(l, Some(k));
    var l1 :- SetNext(l, n.prev, n.next);
    var n1 :- At(l1, Some(k));
    SetPrev(l1, n1.next, n1.prev)
  }

  /** moveToBack: a no-op for the tail; otherwise detach the node and relink it after the tail. */
  function MoveToBack(l: List, k: string): (r: Result<List, Fault>)
  {
    if l.last == Some(k) then Success(l)
    else
      var l1 :- if l.first == Some(k) then DetachHead(l) else DetachInner(l, k);
      var l2 :- SetNext(l1, l1.last, Some(k));
      var l3 :- SetPrev(l2, Some(k), l2.last);
      var l4 :- SetNext(l3, Some(k), None);
      Success(l4.(last := Some(k)))
  }

  /** removeFirst's list part: the head leaves the list, its successor becomes
      the head and loses its back link. The tail link is never touched. */
  function RemoveFirst(l: List): (r: Result<List, Fault>)
  {
    var h :- At(l, l.first);
    var l1 := l.(nodes := l.nodes - {l.first.value}, first := h.next);
    SetPrev(l1, l1.first, None)
  }

  /** unlinkNode: bypass the node from both sides, repairing head or tail when
      the node has no predecessor or no successor; the node leaves the list. */
  function Unlink(l: List, k: string): (r: Result<List, Fault>)
  {
    var n :- At(l, Some(k));
    var l1 :- if n.prev.Some? then SetNext(l, n.prev, n.next) else Success(l.(first := n.next));
    var n1 :- At(l1, Some(k));
    var l2 :- if n1.next.Some? then SetPrev(l1, n1.next, n1.prev) else Success(l1.(last := n1.prev));
    Success(l2.(nodes := l2.nodes - {k}))
  }

  /** The corrected removeFirst: unlinking the head, which also handles a sole node. */
  function RemoveHead(l: List): (r: Result<List, Fault>)
  {
    if l.first.None? then Failure(NilDereference) else Unlink(l, l.first.value)
  }

  lemma EmptyRepresents()
    ensures Represents(Empty(), [])
  {
  }

  /** What pushBack computes on a non-empty list: the old tail links forward to k, k back to the old tail. */
  lemma PushBackLinks(l: List, last: string, k: string)
    requires l.first.Some? && l.last == Some(last) && last in l.nodes && k !in l.nodes
    ensures PushBack(l, k) == Success(List(l.nodes[last := l.nodes[last].(next := Some(k))][k := Node(Some(last), None)], l.first, Some(k)))
  {
    var ln := l.nodes[last];
    var added := l.(nodes := l.nodes[k := Node(None, None)]);
    assert At(added, l.last) == Success(ln);
    var l1 := added.(nodes := added.nodes[last := ln.(next := Some(k))]);
    assert SetNext(added, l.last, Some(k)) == Success(l1);
    var l2 := l1.(nodes := l1.nodes[k := Node(Some(last), None)]);
    assert SetPrev(l1, Some(k), l1.last) == Success(l2);
    assert PushBack(l, k) == Success(l2.(last := Some(k)));
    assert l2.nodes == l.nodes[last := ln.(next := Some(k))][k := Node(Some(last), None)];
  }

  /** Linking k after the tail of a list for s gives a list for s + [k]. */
  lemma AppendRepresents(l: List, s: seq<string>, k: string)
    requires Represents(l, s) && k !in s && |s| > 0
    ensures var last := s[|s| - 1];
      Represents(List(l.nodes[last := l.nodes[last].(next := Some(k))][k := Node(Some(last), None)], l.first, Some(k)), s + [k])
  {
    var n := |s|;
    var last := s[n - 1];
    var r := List(l.nodes[last := l.nodes[last].(next := Some(k))][k := Node(Some(last), None)], l.first, Some(k));
    var t := s + [k];
    DistinctAppend(s, k);
    assert Elems(t) == Elems(s) + {k};
    forall i | 0 <= i < |t|
      ensures LinkedAt(r, t, i)
    {
      if i < n - 1 {
        assert LinkedAt(l, s, i);
        assert t[i] == s[i] && s[i] != last && s[i] != k;
        assert NextOf(t, i) == NextOf(s, i) by { assert t[i + 1] == s[i + 1]; }
        assert PrevOf(t, i) == PrevOf(s, i) by { assert i > 0 ==> t[i - 1] == s[i - 1]; }
      } else if i == n - 1 {
        assert LinkedAt(l, s, i);
        assert t[i] == last;
        assert PrevOf(t, i) == PrevOf(s, i) by { assert i > 0 ==> t[i - 1] == s[i - 1]; }
      } else {
        assert t[i] == k && PrevOf(t, i) == Some(last) && NextOf(t, i) == None;
      }
    }
  }

  lemma PushBackRefines(l: List, s: seq<string>, k: string)
    requires Represents(l, s) && k !in s
    ensures k !in l.nodes
    ensures PushBack(l, k).Success?
    ensures Represents(PushBack(l, k).value, s + [k])
    ensures |s| == 0 ==> PushBack(l, k).value.first == Some(k) && PushBack(l, k).value.last == Some(k)
  {
    if |s| > 0 {
      PushBackLinks(l, s[|s| - 1], k);
      AppendRepresents(l, s, k);
    } else {
      assert s + [k] == [k];
    }
  }

  /** The list unlinkNode leaves behind when k's links are p and nx: the
      neighbours point past k, or the head/tail moves when there is none. */
  function Bypass(l: List, k: string, p: Option<string>, nx: Option<string>): List
    requires p.Some? ==> p.value in l.nodes
    requires nx.Some? ==> nx.value in l.nodes
  {
    var nodes1 := if p.Some? then l.nodes[p.value := l.nodes[p.value].(next := nx)] else l.nodes;
    var nodes2 := if nx.Some? then nodes1[nx.value := nodes1[nx.value].(prev := p)] else nodes1;
    List(nodes2 - {k},
         if p.Some? then l.first else nx,
         if nx.Some? then l.last else p)
  }

  lemma UnlinkLinks(l: List, k: string, p: Option<string>, nx: Option<string>)
    requires k in l.nodes && l.nodes[k] == Node(p, nx)
    requires p.Some? ==> p.value in l.nodes && p.value != k
    requires nx.Some? ==> nx.value in l.nodes && nx.value != k
    ensures Unlink(l, k) == Success(Bypass(l, k, p, nx))
  {
    var l1 := if p.Some? then l.(nodes := l.nodes[p.value := l.nodes[p.value].(next := nx)]) else l.(first := nx);
    assert (if p.Some? then SetNext(l, p, nx) else Success(l.(first := nx))) == Success(l1);
    assert At(l1, Some(k)) == Success(Node(p, nx));
    var l2 := if nx.Some? then l1.(nodes := l1.nodes[nx.value := l1.nodes[nx.value].(prev := p)]) else l1.(last := p);
    assert (if nx.Some? then SetPrev(l1, nx, p) else Success(l1.(last := p))) == Success(l2);
    assert Unlink(l, k) == Success(l2.(nodes := l2.nodes - {k}));
  }

  /** The node of a surviving key x after the bypass: its next link is nx if
      it was k's predecessor, its prev link is p if it was k's successor. */
  lemma BypassNode(l: List, k: string, p: Option<string>, nx: Option<string>, x: string)
    requires p.Some? ==> p.value in l.nodes
    requires nx.Some? ==> nx.value in l.nodes
    requires x in l.nodes && x != k
    ensures x in Bypass(l, k, p, nx).nodes
    ensures Bypass(l, k, p, nx).nodes[x] ==
      Node(if nx == Some(x) then p else l.nodes[x].prev, if p == Some(x) then nx else l.nodes[x].next)
  {
  }

  /** Bypassing k takes exactly k out of the arena. */
  lemma BypassKeys(l: List, k: string, p: Option<string>, nx: Option<string>)
    requires p.Some? ==> p.value in l.nodes
    requires nx.Some? ==> nx.value in l.nodes
    ensures Bypass(l, k, p, nx).nodes.Keys == l.nodes.Keys - {k}
  {
  }

  /** Position j of s without s[i] is linked correctly after bypassing s[i]. */
  lemma BypassAt(l: List, s: seq<string>, i: nat, j: nat)
    requires Represents(l, s) && i < |s| && j < |s| - 1
    ensures LinkedAt(Bypass(l, s[i], PrevOf(s, i), NextOf(s, i)), s[..i] + s[i + 1..], j)
  {
    var n := |s|;
    var t := s[..i] + s[i + 1..];
    var p := PrevOf(s, i);
    var nx := NextOf(s, i);
    var sj := if j < i then j else j + 1;
    assert t[j] == s[sj];
    assert j > 0 ==> t[j - 1] == s[sj - 1] || (sj == i + 1 && t[j - 1] == s[i - 1]);
    assert j < |t| - 1 ==> t[j + 1] == s[sj + 1] || (sj == i - 1 && t[j + 1] == s[i + 1]);
    assert LinkedAt(l, s, sj);
    assert i > 0 ==> LinkedAt(l, s, i - 1);
    assert i < n - 1 ==> LinkedAt(l, s, i + 1);
    assert p == Some(s[sj]) <==> sj == i - 1;
    assert nx == Some(s[sj]) <==> sj == i + 1;
    BypassNode(l, s[i], p, nx, s[sj]);
  }

  /** Bypassing position i of a list for s gives a list for s without s[i]. */
  lemma BypassRepresents(l: List, s: seq<string>, i: nat)
    requires Represents(l, s) && i < |s|
    ensures Represents(Bypass(l, s[i], PrevOf(s, i), NextOf(s, i)), s[..i] + s[i + 1..])
  {
    var t := s[..i] + s[i + 1..];
    var r := Bypass(l, s[i], PrevOf(s, i), NextOf(s, i));
    BypassShape(l, s, i);
    FilterAt(s, i);
    FilterDistinct(s, {s[i]});
    forall j | 0 <= j < |t|
      ensures LinkedAt(r, t, j)
    {
      BypassAt(l, s, i, j);
    }
  }

  /** The nodes, head and tail left after bypassing position i. */
  lemma BypassShape(l: List, s: seq<string>, i: nat)
    requires Represents(l, s) && i < |s|
    ensures var r := Bypass(l, s[i], PrevOf(s, i), NextOf(s, i));
      var t := s[..i] + s[i + 1..];
      r.nodes.Keys == Elems(t) && r.first == Head(t) && r.last == Tail(t)
  {
    var t := s[..i] + s[i + 1..];
    assert i > 0 ==> LinkedAt(l, s, i - 1);
    assert i < |s| - 1 ==> LinkedAt(l, s, i + 1);
    BypassKeys(l, s[i], PrevOf(s, i), NextOf(s, i));
    assert Elems(t) == Elems(s) - {s[i]} by {
      FilterAt(s, i);
    }
    RemoveAtEnds(s, i);
  }

  /** The ends of s once position i is taken out. */
  lemma RemoveAtEnds(s: seq<string>, i: nat)
    requires i < |s|
    ensures var t := s[..i] + s[i + 1..];
      && Head(t) == (if i == 0 then NextOf(s, 0) else Head(s))
      && Tail(t) == (if i == |s| - 1 then PrevOf(s, i) else Tail(s))
  {
    var t := s[..i] + s[i + 1..];
    if |t| > 0 {
      assert t[0] == if i == 0 then s[1] else s[0];
      if i == |s| - 1 {
        assert t == s[..i];
      } else {
        assert t[|t| - 1] == s[i + 1..][|s| - i - 2];
      }
    }
  }

  lemma UnlinkRefines(l: List, s: seq<string>, k: string)
    requires Represents(l, s) && k in s
    ensures Unlink(l, k).Success?
    ensures Represents(Unlink(l, k).value, Filter(s, {k}))
    ensures s[0] == k && |s| > 1 ==> Unlink(l, k).value.first == Some(s[1])
    ensures s[|s| - 1] == k && |s| > 1 ==> Unlink(l, k).value.last == Some(s[|s| - 2])
    ensures |s| == 1 ==> Unlink(l, k).value.first == None && Unlink(l, k).value.last == None
  {
    var i := IndexOf(s, k);
    FilterAt(s, i);
    BypassRepresents(l, s, i);
    assert LinkedAt(l, s, i);
    assert i > 0 ==> LinkedAt(l, s, i - 1);
    assert i < |s| - 1 ==> LinkedAt(l, s, i + 1);
    UnlinkLinks(l, k, PrevOf(s, i), NextOf(s, i));
  }

  /** moveToBack of a node that is not the tail computes the same list as
      unlinking it and pushing it back as a new tail. */
  lemma MoveToBackLinks(l: List, k: string, p: Option<string>, nx: Option<string>, last: string)
    requires k in l.nodes && l.nodes[k] == Node(p, nx)
    requires l.first == Some(k) <==> p.None?
    requires p.Some? ==> p.value in l.nodes && p.value != k
    requires nx.Some? && nx.value in l.nodes && nx.value != k
    requires l.first.Some? && l.last == Some(last) && last in l.nodes && last != k
    ensures Bypass(l, k, p, nx).first.Some? && Bypass(l, k, p, nx).last == Some(last)
    ensures last in Bypass(l, k, p, nx).nodes && k !in Bypass(l, k, p, nx).nodes
    ensures MoveToBack(l, k) == PushBack(Bypass(l, k, p, nx), k)
  {
    var l1 := if p.Some? then l.(nodes := l.nodes[p.value := l.nodes[p.value].(next := nx)]) else l.(first := nx);
    var d := l1.(nodes := l1.nodes[nx.value := l1.nodes[nx.value].(prev := p)]);
    var b := Bypass(l, k, p, nx);
    assert b == d.(nodes := d.nodes - {k});
    if p.None? {
      assert DetachHead(l) == Success(d);
    } else {
      assert SetNext(l, p, nx) == Success(l1);
      assert At(l1, Some(k)) == Success(Node(p, nx));
      assert DetachInner(l, k) == Success(d);
    }
    var ln := d.nodes[last];
    assert b.nodes[last] == ln;
    var l2 := d.(nodes := d.nodes[last := ln.(next := Some(k))]);
    assert SetNext(d, d.last, Some(k)) == Success(l2);
    var l3 := l2.(nodes := l2.nodes[k := l2.nodes[k].(prev := Some(last))]);
    assert SetPrev(l2, Some(k), l2.last) == Success(l3);
    var l4 := l3.(nodes := l3.nodes[k := Node(Some(last), None)]);
    assert SetNext(l3, Some(k), None) == Success(l4);
    assert MoveToBack(l, k) == Success(l4.(last := Some(k)));
    PushBackLinks(b, last, k);
    assert l4.nodes == b.nodes[last := ln.(next := Some(k))][k := Node(Some(last), None)];
  }

  lemma MoveToBackRefines(l: List, s: seq<string>, k: string)
    requires Represents(l, s) && k in s
    ensures MoveToBack(l, k).Success?
    ensures Represents(MoveToBack(l, k).value, RecencyList.MoveToBack(s, k))
  {
    var i := IndexOf(s, k);
    var t := RecencyList.MoveToBack(s, k);
    if i < |s| - 1 {
      assert LinkedAt(l, s, i);
      assert i > 0 ==> LinkedAt(l, s, i - 1);
      assert LinkedAt(l, s, i + 1);
      assert LinkedAt(l, s, |s| - 1);
      assert s[0] != k || i == 0;
      MoveToBackLinks(l, k, PrevOf(s, i), NextOf(s, i), s[|s| - 1]);
      UnlinkLinks(l, k, PrevOf(s, i), NextOf(s, i));
      UnlinkRefines(l, s, k);
      PushBackRefines(Unlink(l, k).value, Filter(s, {k}), k);
    }
  }

  /** What removeFirst computes from a head k whose successor is nx. */
  lemma RemoveFirstLinks(l: List, k: string, nx: Option<string>)
    requires l.first == Some(k) && k in l.nodes && l.nodes[k] == Node(None, nx)
    requires nx.Some? ==> nx.value in l.nodes && nx.value != k
    ensures RemoveFirst(l) == if nx.Some? then Success(Bypass(l, k, None, nx)) else Failure(NilDereference)
  {
    var l1 := l.(nodes := l.nodes - {k}, first := nx);
    assert RemoveFirst(l) == SetPrev(l1, l1.first, None);
    if nx.Some? {
      var m := l.nodes[nx.value].(prev := None);
      assert l1.nodes[nx.value] == l.nodes[nx.value];
      assert l1.nodes[nx.value := m] == l.nodes[nx.value := m] - {k};
    }
  }

  /** removeFirst works exactly when the list holds at least two keys, and then
      drops the head; on one key it follows the nil successor, on none the nil head. */
  lemma RemoveFirstRefines(l: List, s: seq<string>)
    requires Represents(l, s)
    ensures RemoveFirst(l).Success? <==> RecencyList.RemoveFirst(s).Success?
    ensures RemoveFirst(l).Success? ==> Represents(RemoveFirst(l).value, RecencyList.RemoveFirst(s).value)
  {
    if |s| > 0 {
      assert LinkedAt(l, s, 0);
      assert |s| > 1 ==> LinkedAt(l, s, 1);
      RemoveFirstLinks(l, s[0], NextOf(s, 0));
      if |s| >= 2 {
        BypassHeadRepresents(l, s);
      }
    }
  }

  /** The corrected head removal drops the head of any non-empty list. */
  lemma RemoveHeadRefines(l: List, s: seq<string>)
    requires Represents(l, s)
    ensures RemoveHead(l).Success? <==> RecencyList.RemoveHead(s).Success?
    ensures RemoveHead(l).Success? ==> Represents(RemoveHead(l).value, RecencyList.RemoveHead(s).value)
  {
    if |s| > 0 {
      RemoveHeadLinks(l, s);
      BypassHeadRepresents(l, s);
    }
  }

  lemma RemoveHeadLinks(l: List, s: seq<string>)
    requires Represents(l, s) && |s| > 0
    ensures RemoveHead(l) == Success(Bypass(l, s[0], None, NextOf(s, 0)))
  {
    assert LinkedAt(l, s, 0);
    assert |s| > 1 ==> LinkedAt(l, s, 1);
    UnlinkLinks(l, s[0], None, NextOf(s, 0));
  }

  lemma BypassHeadRepresents(l: List, s: seq<string>)
    requires Represents(l, s) && |s| > 0
    ensures Represents(Bypass(l, s[0], None, NextOf(s, 0)), s[1..])
  {
    BypassRepresents(l, s, 0);
    assert s[..0] + s[1..] == s[1..];
  }

  /** The source's removeFirst panics on a list holding a single key, where the
      corrected head removal leaves the empty list. */
  lemma RemoveFirstPanicsOnSoleNode(k: string)
    ensures Represents(List(map[k := Node(None, None)], Some(k), Some(k)), [k])
    ensures RemoveFirst(List(map[k := Node(None, None)], Some(k), Some(k))) == Failure(NilDereference)
    ensures RemoveHead(List(map[k := Node(None, None)], Some(k), Some(k))) == Success(Empty())
  {
    var l := List(map[k := Node(None, None)], Some(k), Some(k));
    assert LinkedAt(l, [k], 0);
    assert Elems([k]) == {k};
    UnlinkLinks(l, k, None, None);
    assert map[k := Node(None, None)] - {k} == map[];
  }
}
