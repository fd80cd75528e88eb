/** Counting the references to each node, as `join_labels` and `top_sort` of make_dafsa.py do
    with the same depth-first walk. */
module DafsaReferences {
  import opened DafsaGraph

  type Counts = map<nat, nat>

  /** All child references held by the nodes of `v` with identities below `n`. */
  ghost function Refs(h: Heap, v: set<nat>, n: nat): multiset<Ref> {
    if n == 0 then multiset{}
    else Refs(h, v, n - 1) + if n - 1 in v && n - 1 in h then multiset(h[n - 1].children) else multiset{}
  }

  lemma {:induction false} RefsWithout(h: Heap, v: set<nat>, p: nat, n: nat)
    requires p !in v || n <= p
    ensures Refs(h, v + {p}, n) == Refs(h, v, n) + if p < n && p in h then multiset(h[p].children) else multiset{}
  {
    if n > 0 {
      RefsWithout(h, v, p, n - 1);
      assert n - 1 in v + {p} <==> n - 1 in v || n - 1 == p;
    }
  }

  /** A child of a node in `v` is among the references of `v`, and only such children are. */
  lemma {:induction false} RefsFrom(h: Heap, v: set<nat>, n: nat, c: Ref)
    ensures Refs(h, v, n)[c] > 0 <==> exists p :: p in v && p in h && p < n && c in h[p].children
  {
    if n > 0 {
      RefsFrom(h, v, n - 1, c);
    }
  }

  ghost function Get(s: Counts, i: nat): nat {
    if i in s then s[i] else 0
  }

  /** From `s` to `t` the references `rs` were counted, and all those held by the nodes met for
      the first time. */
  ghost predicate Counted(g: Dafsa, s: Counts, t: Counts, rs: multiset<Ref>) {
    && s.Keys <= t.Keys <= g.heap.Keys
    && (forall i :: i in t ==> t[i] > 0)
    && forall i: nat :: Get(t, i) + Refs(g.heap, s.Keys, g.next)[To(i)] ==
                        Get(s, i) + rs[To(i)] + Refs(g.heap, t.Keys, g.next)[To(i)]
  }

  lemma CountedTrans(g: Dafsa, s: Counts, t: Counts, u: Counts, a: multiset<Ref>, b: multiset<Ref>)
    requires Counted(g, s, t, a) && Counted(g, t, u, b)
    ensures Counted(g, s, u, a + b)
  {
  }

  /** Entering a node for the first time leaves its children to be counted. */
  lemma NodeCounted(g: Dafsa, s: Counts, u: Counts, i: nat)
    requires Valid(g) && i in g.heap && i !in s
    requires Counted(g, s[i := 1], u, multiset(g.heap[i].children))
    ensures Counted(g, s, u, multiset{To(i)})
  {
    RefsWithout(g.heap, s.Keys, i, g.next);
    assert s[i := 1].Keys == s.Keys + {i};
  }

  lemma FirstCount(g: Dafsa, s: Counts, i: nat)
    requires Counted(g, s, s, multiset{}) && i in g.heap
    ensures Counted(g, s[i := 1], s[i := 1], multiset{})
  {
  }

  lemma CountedAgain(g: Dafsa, s: Counts, i: nat)
    requires Counted(g, s, s, multiset{}) && i in s
    ensures Counted(g, s, s[i := s[i] + 1], multiset{To(i)})
  {
    assert s[i := s[i] + 1].Keys == s.Keys;
  }

  /** Each node that the source list reaches, with the number of references to it. */
  ghost predicate ReferenceCounts(g: Dafsa, t: Counts) {
    && t.Keys <= g.heap.Keys
    && (forall c :: c in g.source && c.To? ==> c.id in t)
    && (forall p, c :: p in t && c in g.heap[p].children && c.To? ==> c.id in t)
    && (forall i :: i in t ==> t[i] > 0)
    && (forall i :: i in t ==> t[i] == multiset(g.source)[To(i)] + Refs(g.heap, t.Keys, g.next)[To(i)])
  }

  /** A path leads from the source list to node `i`; parents have larger identities. */
  ghost predicate Reachable(g: Dafsa, i: nat)
    decreases g.next - i
  {
    i in g.heap && (To(i) in g.source || exists p :: i < p < g.next && ParentOf(g, p, i) && Reachable(g, p))
  }

  ghost predicate ParentOf(g: Dafsa, p: nat, i: nat) {
    p in g.heap && To(i) in g.heap[p].children
  }

  ghost function Live(g: Dafsa): set<nat> {
    set i | i in g.heap && Reachable(g, i)
  }

  /** What has a count is what the source list reaches. */
  lemma {:induction false} CountedIsReachable(g: Dafsa, t: Counts, i: nat)
    requires Valid(g) && ReferenceCounts(g, t) && i in g.heap
    ensures i in t <==> Reachable(g, i)
    decreases g.next - i
  {
    if i in t && To(i) !in g.source {
      RefsFrom(g.heap, t.Keys, g.next, To(i));
      var p :| p in t.Keys && p in g.heap && p < g.next && To(i) in g.heap[p].children;
      assert ValidNode(g.heap, p, g.heap[p]) && ParentOf(g, p, i);
      CountedIsReachable(g, t, p);
    }
    if i !in t && Reachable(g, i) {
      var p :| i < p < g.next && ParentOf(g, p, i) && Reachable(g, p);
      CountedIsReachable(g, t, p);
    }
  }

  /** A node with one reference is not on the source list if some node refers to it, and no second
      node refers to it. */
  lemma OneReference(g: Dafsa, t: Counts, p: nat, i: nat)
    requires Valid(g) && ReferenceCounts(g, t) && p in t && ParentOf(g, p, i) && i in t && t[i] == 1
    ensures To(i) !in g.source
    ensures forall q :: q in t && ParentOf(g, q, i) ==> q == p
  {
    var rest := t.Keys - {p};
    assert rest + {p} == t.Keys && p < g.next;
    RefsWithout(g.heap, rest, p, g.next);
    RefsFrom(g.heap, rest, g.next, To(i));
    assert multiset(g.heap[p].children)[To(i)] > 0;
    forall q | q in t && ParentOf(g, q, i) ensures q == p {
      assert q < g.next;
      assert q != p ==> q in rest;
    }
  }

  class Counter {
    const g: Dafsa
    var incoming: Counts

    constructor (g: Dafsa)
      ensures this.g == g && incoming == map[]
    {
      this.g := g;
      incoming := map[];
    }

    method Count(node: Ref)
      requires Valid(g) && ValidRef(g.heap, node) && Counted(g, incoming, incoming, multiset{})
      modifies this
      ensures Counted(g, old(incoming), incoming, multiset{node})
      decreases if node.Sink? then 0 else node.id + 1, 1
    {
      if node.To? {
        if node.id !in incoming {
          FirstCount(g, incoming, node.id);
          incoming := incoming[node.id := 1];
          CountChildren(node.id);
          NodeCounted(g, old(incoming), incoming, node.id);
        } else {
          CountedAgain(g, incoming, node.id);
          incoming := incoming[node.id := incoming[node.id] + 1];
        }
      }
    }

    method CountChildren(i: nat)
      requires Valid(g) && i in g.heap && Counted(g, incoming, incoming, multiset{})
      modifies this
      ensures Counted(g, old(incoming), incoming, multiset(g.heap[i].children))
      decreases i + 1, 0
    {
      var children := g.heap[i].children;
      assert ValidNode(g.heap, i, g.heap[i]);
      for k := 0 to |children|
        invariant Counted(g, old(incoming), incoming, multiset(children[..k]))
      {
        ghost var u := incoming;
        Count(children[k]);
        CountedTrans(g, old(incoming), u, incoming, multiset(children[..k]), multiset{children[k]});
        assert children[..k + 1] == children[..k] + [children[k]];
      }
      assert children[..|children|] == children;
    }
  }

  lemma CountsAreComplete(g: Dafsa, t: Counts)
    requires Valid(g) && Counted(g, map[], t, multiset(g.source))
    ensures ReferenceCounts(g, t)
  {
    NoRefs(g.heap, g.next);
    var none: Counts := map[];
    assert none.Keys == {};
    assert forall i: nat :: Get(t, i) == multiset(g.source)[To(i)] + Refs(g.heap, t.Keys, g.next)[To(i)];
    forall p, c | p in t && c in g.heap[p].children && c.To? ensures c.id in t {
      RefsFrom(g.heap, t.Keys, g.next, c);
      assert Get(t, c.id) > 0;
    }
    forall c | c in g.source && c.To? ensures c.id in t {
      assert Get(t, c.id) > 0;
    }
    forall i | i in t ensures t[i] == multiset(g.source)[To(i)] + Refs(g.heap, t.Keys, g.next)[To(i)] {
      assert Get(t, i) == t[i];
    }
  }

  lemma {:induction false} NoRefs(h: Heap, n: nat)
    ensures Refs(h, {}, n) == multiset{}
  {
    if n > 0 {
      NoRefs(h, n - 1);
    }
  }

  method CountReferences(g: Dafsa) returns (incoming: Counts)
    requires Valid(g)
    ensures ReferenceCounts(g, incoming)
  {
    var counter := new Counter(g);
    for k := 0 to |g.source|
      invariant counter.g == g && Counted(g, map[], counter.incoming, multiset(g.source[..k]))
    {
      ghost var u := counter.incoming;
      counter.Count(g.source[k]);
      CountedTrans(g, map[], u, counter.incoming, multiset(g.source[..k]), multiset{g.source[k]});
      assert g.source[..k + 1] == g.source[..k] + [g.source[k]];
    }
    assert g.source[..|g.source|] == g.source;
    incoming := counter.incoming;
    CountsAreComplete(g, incoming);
  }
}
