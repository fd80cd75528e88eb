/** `top_sort` of make_dafsa.py: Kahn's algorithm over reference counts. */
module DafsaTopSort {
  import opened DafsaGraph
  import opened DafsaBuild
  import opened DafsaReferences

  ghost predicate Distinct<T>(s: seq<T>) {
    forall a, b :: 0 <= a < b < |s| ==> s[a] != s[b]
  }

  lemma DistinctAppend<T>(s: seq<T>, x: T)
    requires Distinct(s) && x !in s
    ensures Distinct(s + [x])
  {
  }

  lemma Twice<T>(s: seq<T>, a: nat, b: nat)
    requires a < b < |s| && s[a] == s[b]
    ensures multiset(s)[s[a]] >= 2
  {
    assert s == s[..b] + s[b..];
    assert s[..b][a] in s[..b] && s[b..][0] in s[b..];
    assert multiset(s[..b])[s[a]] >= 1 && multiset(s[b..])[s[a]] >= 1;
  }

  lemma {:induction false} NotTwice<T>(s: seq<T>, x: T)
    requires Distinct(s)
    ensures multiset(s)[x] <= 1
  {
    if |s| > 0 {
      NotTwice(s[..|s| - 1], x);
      assert s == s[..|s| - 1] + [s[|s| - 1]];
      if x == s[|s| - 1] {
        assert x !in s[..|s| - 1];
      }
    }
  }

  lemma {:induction false} AllTheSame<T>(s: seq<T>, x: T)
    requires forall k :: 0 <= k < |s| ==> s[k] == x
    ensures multiset(s)[x] == |s|
  {
    if s != [] {
      assert s == [s[0]] + s[1..];
      AllTheSame(s[1..], x);
      assert multiset(s) == multiset{s[0]} + multiset(s[1..]);
    }
  }

  ghost function Elements(s: seq<nat>): set<nat> {
    set x | x in s
  }

  /** Every reachable node, and nothing else, once, each before its children. */
  ghost predicate TopSorted(g: Dafsa, nodes: seq<nat>) {
    && Distinct(nodes) && Elements(nodes) == Live(g)
    && (forall i :: i in nodes ==> i in g.heap)
    && (forall c :: c in g.source && c.To? ==> c.id in nodes)
    && (forall i, c :: i in nodes && i in g.heap && c in g.heap[i].children && c.To? ==> c.id in nodes)
    && (forall a: nat, c :: a < |nodes| && nodes[a] in g.heap && c in g.heap[nodes[a]].children && c.To? ==>
          c.id !in nodes[..a + 1])
  }

  /** The nodes still to be listed. */
  ghost function Left(v: set<nat>, nodes: seq<nat>): set<nat> {
    v - Elements(nodes)
  }

  /** `nodes` is part of a topological order of `v`: nothing listed is a child of what is left. */
  ghost predicate Listing(g: Dafsa, v: set<nat>, nodes: seq<nat>) {
    && Distinct(nodes) && Elements(nodes) <= v <= g.heap.Keys
    && (forall a: nat, c :: a < |nodes| && c in g.heap[nodes[a]].children && c.To? ==> c.id !in nodes[..a + 1])
    && (forall n, c :: n in Left(v, nodes) && c in g.heap[n].children && c.To? ==> c.id !in nodes)
  }

  /** The counts cover the references held by what is left and, besides, `rest`. */
  ghost predicate Counting(g: Dafsa, left: set<nat>, incoming: map<nat, int>, rest: multiset<Ref>) {
    && left <= incoming.Keys
    && forall i :: i in left ==> incoming[i] == Refs(g.heap, left, g.next)[To(i)] + rest[To(i)]
  }

  /** The waiting list holds what is left and no longer referred to. */
  ghost predicate Waiting(left: set<nat>, incoming: map<nat, int>, waiting: seq<nat>) {
    && Distinct(waiting) && left <= incoming.Keys
    && forall i :: i in waiting <==> i in left && incoming[i] == 0
  }

  lemma NodeListed(g: Dafsa, v: set<nat>, nodes: seq<nat>, n: nat)
    requires Valid(g) && Listing(g, v, nodes) && n in Left(v, nodes)
    requires Refs(g.heap, Left(v, nodes), g.next)[To(n)] == 0
    ensures Listing(g, v, nodes + [n]) && Left(v, nodes + [n]) == Left(v, nodes) - {n}
  {
    var left := Left(v, nodes);
    assert Elements(nodes + [n]) == Elements(nodes) + {n};
    assert n !in nodes;
    DistinctAppend(nodes, n);
    RefsFrom(g.heap, left, g.next, To(n));
    assert ValidNode(g.heap, n, g.heap[n]);
    forall a: nat, c | a < |nodes + [n]| && c in g.heap[(nodes + [n])[a]].children && c.To?
      ensures c.id !in (nodes + [n])[..a + 1]
    {
      if a < |nodes| {
        assert (nodes + [n])[..a + 1] == nodes[..a + 1];
      } else {
        assert (nodes + [n])[..a + 1] == nodes + [n];
      }
    }
  }

  lemma CountsReleased(g: Dafsa, left: set<nat>, incoming: map<nat, int>, n: nat)
    requires Valid(g) && Counting(g, left, incoming, multiset{}) && n in left && n in g.heap
    ensures Counting(g, left - {n}, incoming, multiset(g.heap[n].children))
  {
    RefsWithout(g.heap, left - {n}, n, g.next);
    assert left - {n} + {n} == left;
  }

  /** The nodes that may still be released. */
  ghost function Held(incoming: map<nat, int>): set<nat> {
    set i | i in incoming && incoming[i] > 0
  }

  /** Takes one reference from `i`. */
  lemma Released(incoming: map<nat, int>, i: nat)
    requires i in incoming
    ensures var t := incoming[i := incoming[i] - 1];
            Held(t) == if incoming[i] == 1 then Held(incoming) - {i} else Held(incoming)
  {
  }

  /** Takes the reference to one child; `once`: the counts are exact and every node waits at most once. */
  method ReleaseChild(g: Dafsa, ghost once: bool, ghost left: set<nat>, c: Ref, ghost rest: multiset<Ref>,
                      incoming0: map<nat, int>, waiting0: seq<nat>) returns (incoming: map<nat, int>, waiting: seq<nat>)
    requires once ==> Counting(g, left, incoming0, multiset{c} + rest) && Waiting(left, incoming0, waiting0) && (c.To? ==> c.id in left)
    requires c.To? ==> c.id in incoming0
    ensures once ==> Counting(g, left, incoming, rest) && Waiting(left, incoming, waiting)
    ensures incoming.Keys == incoming0.Keys && multiset(waiting0) <= multiset(waiting)
    ensures forall i :: i in waiting ==> i in waiting0 || i in incoming
    ensures |Held(incoming)| + |waiting| <= |Held(incoming0)| + |waiting0|
  {
    incoming, waiting := incoming0, waiting0;
    if c.To? {
      assert once ==> incoming[c.id] > 0;
      Released(incoming, c.id);
      incoming := incoming[c.id := incoming[c.id] - 1];
      if incoming[c.id] == 0 {
        if once {
          DistinctAppend(waiting, c.id);
        }
        waiting := waiting + [c.id];
      }
    }
  }

  method ReleaseChildren(g: Dafsa, ghost once: bool, ghost left: set<nat>, children: seq<Ref>, incoming0: map<nat, int>, waiting0: seq<nat>)
      returns (incoming: map<nat, int>, waiting: seq<nat>)
    requires once ==> Counting(g, left, incoming0, multiset(children)) && Waiting(left, incoming0, waiting0)
    requires once ==> forall c :: c in children && c.To? ==> c.id in left
    requires forall c :: c in children && c.To? ==> c.id in incoming0
    ensures once ==> Counting(g, left, incoming, multiset{}) && Waiting(left, incoming, waiting)
    ensures incoming.Keys == incoming0.Keys && multiset(waiting0) <= multiset(waiting)
    ensures forall i :: i in waiting ==> i in waiting0 || i in incoming
    ensures |Held(incoming)| + |waiting| <= |Held(incoming0)| + |waiting0|
  {
    incoming, waiting := incoming0, waiting0;
    assert children[0..] == children;
    for k := 0 to |children|
      invariant once ==> Counting(g, left, incoming, multiset(children[k..])) && Waiting(left, incoming, waiting)
      invariant incoming.Keys == incoming0.Keys && multiset(waiting0) <= multiset(waiting)
      invariant forall i :: i in waiting ==> i in waiting0 || i in incoming
      invariant |Held(incoming)| + |waiting| <= |Held(incoming0)| + |waiting0|
    {
      assert children[k..] == [children[k]] + children[k + 1..];
      assert children[k] in children;
      incoming, waiting := ReleaseChild(g, once, left, children[k], multiset(children[k + 1..]), incoming, waiting);
    }
  }

  /** With nothing waiting, nothing is left: what has no parent left would be waiting. */
  lemma {:induction false} NothingLeft(g: Dafsa, left: set<nat>, incoming: map<nat, int>, n: nat)
    requires Valid(g) && left <= g.heap.Keys
    requires Counting(g, left, incoming, multiset{}) && Waiting(left, incoming, [])
    requires n in left
    ensures false
    decreases g.next - n
  {
    RefsFrom(g.heap, left, g.next, To(n));
    var p :| p in left && p in g.heap && To(n) in g.heap[p].children;
    assert ValidNode(g.heap, p, g.heap[p]);
    NothingLeft(g, left, incoming, p);
  }

  lemma CountedOut(g: Dafsa, left: set<nat>, incoming: map<nat, int>, c: Ref, rest: multiset<Ref>)
    requires Counting(g, left, incoming, multiset{c} + rest) && (c.To? ==> c.id in incoming)
    ensures Counting(g, left, if c.To? then incoming[c.id := incoming[c.id] - 1] else incoming, rest)
  {
  }

  lemma CountedAll(g: Dafsa, counts: Counts, incoming: map<nat, int>)
    requires ReferenceCounts(g, counts) && incoming.Keys == counts.Keys && forall i :: i in counts ==> incoming[i] == counts[i]
    ensures Counting(g, counts.Keys, incoming, multiset(g.source))
  {
  }

  /** Takes the references from the source list out of the counts. */
  method SubtractSource(g: Dafsa, counts: Counts) returns (incoming: map<nat, int>)
    requires ReferenceCounts(g, counts)
    ensures Counting(g, counts.Keys, incoming, multiset{}) && incoming.Keys == counts.Keys
  {
    incoming := map i | i in counts :: counts[i] as int;
    CountedAll(g, counts, incoming);
    assert g.source[0..] == g.source;
    for k := 0 to |g.source|
      invariant incoming.Keys == counts.Keys
      invariant Counting(g, counts.Keys, incoming, multiset(g.source[k..]))
    {
      var c := g.source[k];
      ghost var rest := g.source[k + 1..];
      assert g.source[k..] == [c] + rest;
      assert c in g.source;
      assert multiset(g.source[k..]) == multiset{c} + multiset(rest);
      CountedOut(g, counts.Keys, incoming, c, multiset(rest));
      if c.To? {
        incoming := incoming[c.id := incoming[c.id] - 1];
      }
    }
  }

  /** The nodes of the source list that no node refers to, as often as they are listed. */
  method SelectWaiting(g: Dafsa, incoming: map<nat, int>) returns (waiting: seq<nat>)
    requires forall c :: c in g.source && c.To? ==> c.id in incoming
    ensures forall i :: i in waiting ==> i in incoming
    ensures forall i: nat :: multiset(waiting)[i] == if i in incoming && incoming[i] == 0 then multiset(g.source)[To(i)] else 0
  {
    waiting := [];
    for k := 0 to |g.source|
      invariant forall i :: i in waiting ==> i in incoming
      invariant forall i: nat ::
                  multiset(waiting)[i] == if i in incoming && incoming[i] == 0 then multiset(g.source[..k])[To(i)] else 0
    {
      var c := g.source[k];
      assert c in g.source;
      assert g.source[..k + 1] == g.source[..k] + [c];
      if c.To? && incoming[c.id] == 0 {
        waiting := waiting + [c.id];
      }
    }
    assert g.source[..|g.source|] == g.source;
  }

  /** No node is listed twice by the source list and by nothing else. */
  ghost predicate RootsOnce(g: Dafsa) {
    forall i: nat {:trigger multiset(g.source)[To(i)]} ::
      multiset(g.source)[To(i)] > 1 ==> exists p :: Reachable(g, p) && ParentOf(g, p, i)
  }

  /** The roots wait once each iff the source list names each of them once. */
  lemma FirstWaiting(g: Dafsa, counts: Counts, incoming: map<nat, int>, waiting: seq<nat>)
    requires Valid(g) && ReferenceCounts(g, counts) && Counting(g, counts.Keys, incoming, multiset{}) && incoming.Keys == counts.Keys
    requires forall i: nat :: multiset(waiting)[i] == if i in incoming && incoming[i] == 0 then multiset(g.source)[To(i)] else 0
    ensures RootsOnce(g) ==> Waiting(counts.Keys, incoming, waiting)
    ensures !RootsOnce(g) ==> !Distinct(waiting) && exists x :: multiset(waiting)[x] > 1
  {
    forall i: nat | i in counts
      ensures incoming[i] == 0 <==> !exists p :: Reachable(g, p) && ParentOf(g, p, i)
      ensures incoming[i] == 0 ==> multiset(g.source)[To(i)] > 0
    {
      RootCount(g, counts, incoming, i);
    }
    forall i: nat | multiset(g.source)[To(i)] > 0 ensures i in counts {
      assert To(i) in g.source;
    }
    if RootsOnce(g) {
      forall a, b | 0 <= a < b < |waiting| ensures waiting[a] != waiting[b] {
        if waiting[a] == waiting[b] {
          Twice(waiting, a, b);
        }
      }
      forall i ensures i in waiting <==> i in counts && incoming[i] == 0 {
        assert i in waiting <==> multiset(waiting)[i] > 0;
      }
    } else {
      var i: nat :| multiset(g.source)[To(i)] > 1 && !exists p :: Reachable(g, p) && ParentOf(g, p, i);
      assert multiset(waiting)[i] > 1;
      if Distinct(waiting) {
        NotTwice(waiting, i);
      }
    }
  }

  lemma RootCount(g: Dafsa, counts: Counts, incoming: map<nat, int>, i: nat)
    requires Valid(g) && ReferenceCounts(g, counts) && Counting(g, counts.Keys, incoming, multiset{}) && i in counts
    ensures incoming[i] == 0 <==> !exists p :: Reachable(g, p) && ParentOf(g, p, i)
    ensures incoming[i] == 0 ==> multiset(g.source)[To(i)] > 0
  {
    RefsFrom(g.heap, counts.Keys, g.next, To(i));
    if p :| p in counts && p in g.heap && p < g.next && To(i) in g.heap[p].children {
      CountedIsReachable(g, counts, p);
      assert Reachable(g, p) && ParentOf(g, p, i);
    }
    if p :| Reachable(g, p) && ParentOf(g, p, i) {
      CountedIsReachable(g, counts, p);
    }
  }

  lemma AllListed(g: Dafsa, counts: Counts, nodes: seq<nat>)
    requires Valid(g) && ReferenceCounts(g, counts) && Listing(g, counts.Keys, nodes) && Left(counts.Keys, nodes) == {}
    ensures TopSorted(g, nodes)
  {
    forall i | i in counts ensures i in nodes {
      assert i !in Left(counts.Keys, nodes);
    }
    forall i | i in nodes ensures i in counts {
      assert i in Elements(nodes);
    }
    forall i ensures i in Elements(nodes) <==> i in Live(g) {
      if i in g.heap {
        CountedIsReachable(g, counts, i);
      }
    }
  }

  lemma ChildrenAreLeft(g: Dafsa, counts: Counts, nodes: seq<nat>, n: nat)
    requires Valid(g) && ReferenceCounts(g, counts)
    requires Listing(g, counts.Keys, nodes) && n in Left(counts.Keys, nodes)
    ensures forall c :: c in g.heap[n].children && c.To? ==> c.id in Left(counts.Keys, nodes) - {n}
  {
    assert ValidNode(g.heap, n, g.heap[n]);
  }

  /** Where the loop stands, if every root waited once. */
  ghost predicate Sorting(g: Dafsa, v: set<nat>, nodes: seq<nat>, incoming: map<nat, int>, waiting: seq<nat>) {
    && Listing(g, v, nodes) && Counting(g, Left(v, nodes), incoming, multiset{})
    && Waiting(Left(v, nodes), incoming, waiting)
  }

  /** The node that comes next can be listed, and its children released. */
  lemma NextListed(g: Dafsa, counts: Counts, nodes: seq<nat>, incoming: map<nat, int>, waiting: seq<nat>)
    requires Valid(g) && ReferenceCounts(g, counts) && waiting != [] && Sorting(g, counts.Keys, nodes, incoming, waiting)
    ensures var n := waiting[|waiting| - 1];
            var left := Left(counts.Keys, nodes + [n]);
            && n in g.heap && incoming[n] == 0 && Listing(g, counts.Keys, nodes + [n])
            && Counting(g, left, incoming, multiset(g.heap[n].children)) && Waiting(left, incoming, waiting[..|waiting| - 1])
            && forall c :: c in g.heap[n].children && c.To? ==> c.id in left
  {
    var n, left := waiting[|waiting| - 1], Left(counts.Keys, nodes);
    assert n in waiting;
    ChildrenAreLeft(g, counts, nodes, n);
    NodeListed(g, counts.Keys, nodes, n);
    CountsReleased(g, left, incoming, n);
    PopWaiting(left, incoming, waiting, n);
  }

  lemma SortingDone(g: Dafsa, counts: Counts, nodes: seq<nat>, incoming: map<nat, int>)
    requires Valid(g) && ReferenceCounts(g, counts) && Sorting(g, counts.Keys, nodes, incoming, [])
    ensures TopSorted(g, nodes)
  {
    var left := Left(counts.Keys, nodes);
    if n :| n in left {
      NothingLeft(g, left, incoming, n);
    }
    AllListed(g, counts, nodes);
  }

  /** The loop over the waiting list; `once`: every root waits once. */
  method ListWaiting(g: Dafsa, counts: Counts, incoming0: map<nat, int>, waiting0: seq<nat>, ghost once: bool) returns (r: Result<seq<nat>>)
    requires Valid(g) && ReferenceCounts(g, counts) && incoming0.Keys == counts.Keys && forall i :: i in waiting0 ==> i in counts
    requires once ==> Sorting(g, counts.Keys, [], incoming0, waiting0)
    ensures once ==> r.Ok? && TopSorted(g, r.value)
    ensures r.Ok? ==> multiset(waiting0) <= multiset(r.value)
    ensures r.Err? ==> r.error == AssertionFailed
  {
    var incoming, waiting := incoming0, waiting0;
    var nodes := [];
    while waiting != []
      invariant incoming.Keys == counts.Keys && forall i :: i in waiting ==> i in counts
      invariant multiset(waiting0) <= multiset(nodes) + multiset(waiting)
      invariant once ==> Sorting(g, counts.Keys, nodes, incoming, waiting)
      decreases |Held(incoming)| + |waiting|
    {
      var n := waiting[|waiting| - 1];
      assert n in waiting;
      if once {
        NextListed(g, counts, nodes, incoming, waiting);
      }
      if incoming[n] != 0 {
        return Err(AssertionFailed);
      }
      nodes := nodes + [n];
      assert waiting == waiting[..|waiting| - 1] + [n];
      incoming, waiting := ReleaseChildren(g, once, Left(counts.Keys, nodes), g.heap[n].children, incoming, waiting[..|waiting| - 1]);
    }
    if once {
      SortingDone(g, counts, nodes, incoming);
    }
    r := Ok(nodes);
  }

  /** A topological order, iff no root is listed twice. A root listed twice is put out twice, or its
      second turn takes a count below zero, which the assertion of the loop notices. */
  method TopSort(g: Dafsa) returns (r: Result<seq<nat>>)
    requires Valid(g)
    ensures r.Ok? && TopSorted(g, r.value) <==> RootsOnce(g)
    ensures r.Err? ==> r.error == AssertionFailed
  {
    var counts := CountReferences(g);
    var incoming := SubtractSource(g, counts);
    var waiting := SelectWaiting(g, incoming);
    FirstWaiting(g, counts, incoming, waiting);
    assert Left(counts.Keys, []) == counts.Keys;
    r := ListWaiting(g, counts, incoming, waiting, RootsOnce(g));
    if !RootsOnce(g) && r.Ok? {
      var x :| multiset(waiting)[x] > 1;
      if Distinct(r.value) {
        NotTwice(r.value, x);
      }
    }
  }

  lemma PopWaiting(left: set<nat>, incoming: map<nat, int>, waiting: seq<nat>, n: nat)
    requires waiting != [] && waiting[|waiting| - 1] == n
    requires Waiting(left, incoming, waiting)
    ensures Waiting(left - {n}, incoming, waiting[..|waiting| - 1])
  {
    var rest := waiting[..|waiting| - 1];
    assert waiting == rest + [n];
    assert n !in rest;
  }
}
