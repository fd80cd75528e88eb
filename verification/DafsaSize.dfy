/** How many bytes the passes of make_dafsa.py can leave: none of them adds nodes, the trie has one edge
    to each node, and labels that are joined are not kept twice. */
module DafsaSize {
  import opened DafsaGraph
  import opened DafsaReverse
  import opened DafsaJoinSuffixes
  import JoinLabels = DafsaJoinLabels
  import opened DafsaReferences
  import opened DafsaTopSort
  import opened DafsaStages
  import opened DafsaEncode
  import opened Sums

  // No pass adds nodes

  lemma ReversedHeap(g: Dafsa, r: Dafsa)
    requires Valid(g) && Transposed(g, r)
    ensures |r.heap.Keys| <= |g.heap.Keys|
  {
    InjectedSet(r.heap.Keys, g.heap.Keys, map j | j in r.heap :: Mirror(g.next, j));
  }

  /** A node that `j` was made from. */
  ghost function Origin(g: Dafsa, r: Dafsa, j: nat): (o: nat)
    requires SuffixesJoined(g, r) && j in r.heap
    ensures MadeFrom(g.heap, o, r.heap, j)
  {
    var o :| MadeFrom(g.heap, o, r.heap, j);
    o
  }

  lemma OriginsDiffer(g: Dafsa, r: Dafsa, i: nat, j: nat)
    requires Valid(g) && SuffixesJoined(g, r) && i in r.heap && j in r.heap && Origin(g, r, i) == Origin(g, r, j)
    ensures i == j
  {
    var o := Origin(g, r, i);
    MadeFromSameLanguage(g, o, r, i);
    MadeFromSameLanguage(g, o, r, j);
    assert SameLanguage(r.heap, To(i), r.heap, To(j));
  }

  /** Joining suffixes leaves no more nodes, and none larger. */
  lemma JoinedSize(g: Dafsa, r: Dafsa)
    requires Valid(g) && SuffixesJoined(g, r)
    ensures |r.heap.Keys| <= |g.heap.Keys| && Size(r.heap, r.heap.Keys) <= Size(g.heap, g.heap.Keys)
  {
    var m := map j | j in r.heap :: Origin(g, r, j);
    forall i, j | i in r.heap && j in r.heap && m[i] == m[j] ensures i == j {
      OriginsDiffer(g, r, i, j);
    }
    InjectedSet(r.heap.Keys, g.heap.Keys, m);
    TotalInjected(Costs(r.heap, r.heap.Keys), Costs(g.heap, g.heap.Keys), m);
  }

  // The trie

  ghost function Targets(rs: seq<Ref>): set<nat> {
    set c | c in rs && c.To? :: c.id
  }

  lemma {:induction false} DistinctTargets(rs: seq<Ref>)
    requires Distinct(rs) && Sink !in rs
    ensures |Targets(rs)| == |rs|
  {
    if rs != [] {
      var rest, c := rs[..|rs| - 1], rs[|rs| - 1];
      assert rs == rest + [c] && c in rs && c !in rest;
      DistinctTargets(rest);
      assert Targets(rs) == Targets(rest) + {c.id};
      assert To(c.id) == c && c.id !in Targets(rest);
    }
  }

  /** In a reversed trie, turned around, every node has one parent: a node, or the source list. */
  lemma ParentOfTarget(g: Dafsa, r: Dafsa, i: nat, c: nat)
    requires ReversedTrie(g) && Transposed(g, r) && i in r.heap && c in Targets(r.heap[i].children)
    ensures Mirror(g.next, c) in g.heap && g.heap[Mirror(g.next, c)].children == [To(Mirror(g.next, i))]
    ensures To(c) in r.heap[i].children && c in r.heap && Mirror(g.next, i) in g.heap
  {
    var p, children := Mirror(g.next, i), r.heap[i].children;
    assert To(c) in children;
    assert TrieNode(g.heap, p);
    if To(p) in g.source {
      ValueInFrontOfSink(g, r, i, To(c));
    }
    assert Recorders(g, r, To(p), children);
    TrieLink(g, r, To(p), children, To(c));
  }

  lemma OneParent(g: Dafsa, r: Dafsa, i: nat, j: nat, c: nat)
    requires ReversedTrie(g) && Transposed(g, r) && i in r.heap && j in r.heap
    requires c in Targets(r.heap[i].children) && c in Targets(r.heap[j].children)
    ensures i == j
  {
    ParentOfTarget(g, r, i, c);
    ParentOfTarget(g, r, j, c);
  }

  lemma SourceHasNoParent(g: Dafsa, r: Dafsa, i: nat, c: nat)
    requires ReversedTrie(g) && Transposed(g, r) && i in r.heap && c in Targets(r.heap[i].children)
    ensures To(c) !in r.source
  {
    ParentOfTarget(g, r, i, c);
    if To(c) in r.source {
      assert Recorders(g, r, Sink, r.source);
      TrieLink(g, r, Sink, r.source, To(c));
    }
  }

  /** How often the nodes of `v`, turned around, are on a source list. */
  ghost function Occurrences(v: set<nat>, next: nat, source: seq<Ref>): map<nat, nat> {
    map i | i in v :: multiset(source)[To(Mirror(next, i))]
  }

  lemma {:induction false} OccurrencesBound(v: set<nat>, next: nat, source: seq<Ref>)
    ensures Total(Occurrences(v, next, source)) <= |source|
    decreases |source|
  {
    if source == [] {
      NothingTotal(Occurrences(v, next, source));
    } else {
      var rest, c := source[..|source| - 1], source[|source| - 1];
      OccurrencesBound(v, next, rest);
      assert source == rest + [c];
      OneMoreOccurs(v, next, rest, c);
    }
  }

  lemma OneMoreOccurs(v: set<nat>, next: nat, rest: seq<Ref>, c: Ref)
    ensures Total(Occurrences(v, next, rest + [c])) <= Total(Occurrences(v, next, rest)) + 1
  {
    var before, after := Occurrences(v, next, rest), Occurrences(v, next, rest + [c]);
    forall i | i in v ensures after[i] == before[i] + if c == To(Mirror(next, i)) then 1 else 0 {
      AppendedCount(rest, c, To(Mirror(next, i)));
    }
    if i :| i in v && c == To(Mirror(next, i)) {
      TotalStep(before, after, i);
    } else {
      assert after == before;
    }
  }

  lemma TrieCost(g: Dafsa, r: Dafsa, i: nat)
    requires ReversedTrie(g) && Transposed(g, r) && GoodGraph(r) && i in r.heap
    ensures Cost(r.heap[i]) <= 1 + 3 * |Targets(r.heap[i].children)| + 3 * multiset(g.source)[To(Mirror(g.next, i))]
  {
    var n := r.heap[i];
    assert TrieNode(g.heap, Mirror(g.next, i)) && GoodNode(r.heap, i);
    assert |n.text| == 1;
    if Sink !in n.children {
      assert Distinct(n.children);
      DistinctTargets(n.children);
    } else {
      AllTheSame(n.children, Sink);
      assert Mirror(g.next, Mirror(g.next, i)) == i;
      assert Links(g.next, Walk(r.heap, r.source), Sink, To(Mirror(g.next, i))) == multiset(g.source)[To(Mirror(g.next, i))];
    }
  }

  ghost function TargetSets(h: Heap): map<nat, set<nat>> {
    map i | i in h :: Targets(h[i].children)
  }

  lemma TrieEdges(g: Dafsa, r: Dafsa)
    requires ReversedTrie(g) && Transposed(g, r)
    ensures Total(Sizes(TargetSets(r.heap))) <= |r.heap.Keys - Targets(r.source)|
  {
    var t, z := TargetSets(r.heap), r.heap.Keys - Targets(r.source);
    forall i, c | i in t && c in t[i] ensures c in z {
      ParentOfTarget(g, r, i, c);
      SourceHasNoParent(g, r, i, c);
      assert c in Targets(r.source) ==> To(c) in r.source;
    }
    forall i, j, c | i in t && j in t && c in t[i] && c in t[j] ensures i == j {
      OneParent(g, r, i, j, c);
    }
    DisjointBound(t, z);
  }

  lemma TrieCostAt(g: Dafsa, r: Dafsa, i: nat)
    requires ReversedTrie(g) && Transposed(g, r) && GoodGraph(r) && i in r.heap
    ensures Costs(r.heap, r.heap.Keys)[i] <=
              1 + 3 * Sizes(TargetSets(r.heap))[i] + 3 * Occurrences(r.heap.Keys, g.next, g.source)[i]
  {
    TrieCost(g, r, i);
  }

  lemma TrieSize(g: Dafsa, r: Dafsa)
    requires ReversedTrie(g) && Transposed(g, r) && GoodGraph(r)
    ensures Size(r.heap, r.heap.Keys) <= |r.heap.Keys| + 3 * Total(Sizes(TargetSets(r.heap))) + 3 * |g.source|
  {
    var costs, edges := Costs(r.heap, r.heap.Keys), Sizes(TargetSets(r.heap));
    var ends := Occurrences(r.heap.Keys, g.next, g.source);
    forall i | i in r.heap ensures costs[i] <= 1 + 3 * edges[i] + 3 * ends[i] {
      TrieCostAt(g, r, i);
    }
    assert costs.Keys == r.heap.Keys;
    TotalAtMost(costs, edges, ends);
    OccurrencesBound(r.heap.Keys, g.next, g.source);
  }

  /** The trie takes at most four bytes a node and three for each word. */
  lemma TrieFootprint(g: Dafsa, r: Dafsa)
    requires ReversedTrie(g) && Transposed(g, r) && GoodGraph(r)
    ensures Size(r.heap, r.heap.Keys) + 3 * |r.source| <= 4 * |r.heap.Keys| + 3 * |g.source|
  {
    TrieSize(g, r);
    TrieEdges(g, r);
    DeterministicDistinct(r);
    DistinctTargets(r.source);
    RootsInHeap(r);
  }

  lemma RootsInHeap(r: Dafsa)
    requires Valid(r)
    ensures |r.heap.Keys - Targets(r.source)| + |Targets(r.source)| == |r.heap.Keys|
  {
    var roots := Targets(r.source);
    assert roots <= r.heap.Keys;
    assert r.heap.Keys == (r.heap.Keys - roots) + roots;
  }

  // Joined labels

  type Merged = JoinLabels.Merged

  /** What the last pass leaves: exact counts, and a replacement for every node. */
  ghost predicate LabelsDone(g: Dafsa, counts: Counts, s: Merged) {
    && Valid(g) && ReferenceCounts(g, counts)
    && JoinLabels.Merging(g, counts, s) && JoinLabels.Separate(counts, s)
  }

  /** The replacement of `p` takes in its only child `i`. */
  ghost predicate Absorbs(g: Dafsa, counts: Counts, p: nat, i: nat) {
    p in g.heap && JoinLabels.OneToOne(counts, g.heap[p]) && g.heap[p].children[0] == To(i)
  }

  /** An absorbed node has no other parent and is not on the source list. */
  lemma AbsorbedOnce(g: Dafsa, counts: Counts, p: nat, i: nat)
    requires Valid(g) && ReferenceCounts(g, counts) && p in counts && Absorbs(g, counts, p, i)
    ensures i in counts && i < p && To(i) !in g.source
    ensures forall q :: q in counts && ParentOf(g, q, i) ==> q == p
  {
    assert ValidNode(g.heap, p, g.heap[p]) && g.heap[p].children[0] in g.heap[p].children;
    OneReference(g, counts, p, i);
  }

  ghost function Weight(s: Merged, i: nat): nat {
    if i in s.nodemap && s.nodemap[i].To? && s.nodemap[i].id in s.heap then Cost(s.heap[s.nodemap[i].id]) else 0
  }

  ghost function Weights(s: Merged, v: set<nat>): map<nat, nat> {
    map i | i in v :: Weight(s, i)
  }

  /** A replacement costs what its node costs, and what the child costs that it took in. */
  lemma WeightBound(g: Dafsa, counts: Counts, s: Merged, i: nat)
    requires LabelsDone(g, counts, s) && i in s.nodemap
    ensures i in g.heap
    ensures if JoinLabels.OneToOne(counts, g.heap[i])
            then var c := g.heap[i].children[0].id;
                 c in s.nodemap && c < i && Weight(s, i) <= Cost(g.heap[i]) + Weight(s, c)
            else Weight(s, i) == Cost(g.heap[i])
  {
    assert JoinLabels.Replaced(g, counts, s, i);
    if JoinLabels.OneToOne(counts, g.heap[i]) {
      assert ValidNode(g.heap, i, g.heap[i]) && g.heap[i].children[0] in g.heap[i].children;
      assert JoinLabels.Replaced(g, counts, s, g.heap[i].children[0].id);
    }
  }

  /** The nodes below `n` that nothing below `n` absorbs. */
  ghost function Unabsorbed(g: Dafsa, counts: Counts, s: Merged, n: nat): set<nat> {
    set i | i in s.nodemap && i < n && !AbsorbedBelow(g, counts, s, i, n)
  }

  ghost predicate AbsorbedBelow(g: Dafsa, counts: Counts, s: Merged, i: nat, n: nat) {
    exists p :: p in s.nodemap && p < n && Absorbs(g, counts, p, i)
  }

  ghost function Below(s: Merged, n: nat): set<nat> {
    set i | i in s.nodemap && i < n
  }

  lemma AbsorbedNext(g: Dafsa, counts: Counts, s: Merged, i: nat, n: nat)
    requires n in s.nodemap
    ensures AbsorbedBelow(g, counts, s, i, n + 1) <==> AbsorbedBelow(g, counts, s, i, n) || Absorbs(g, counts, n, i)
  {
  }

  /** Nothing up to `n` absorbs `n`, and only `n` absorbs the child that it took in. */
  lemma AbsorbedBy(g: Dafsa, counts: Counts, s: Merged, n: nat)
    requires LabelsDone(g, counts, s) && n in s.nodemap && n in g.heap
    ensures !AbsorbedBelow(g, counts, s, n, n + 1)
    ensures JoinLabels.OneToOne(counts, g.heap[n]) ==> !AbsorbedBelow(g, counts, s, g.heap[n].children[0].id, n)
  {
    if p :| p in s.nodemap && p < n + 1 && Absorbs(g, counts, p, n) {
      AbsorbedOnce(g, counts, p, n);
    }
    if JoinLabels.OneToOne(counts, g.heap[n]) {
      var c := g.heap[n].children[0].id;
      assert Absorbs(g, counts, n, c);
      assert g.heap[n].children[0] in g.heap[n].children && ParentOf(g, n, c);
      if p :| p in s.nodemap && p < n && Absorbs(g, counts, p, c) {
        AbsorbedOnce(g, counts, p, c);
      }
    }
  }

  lemma NextUnabsorbed(g: Dafsa, counts: Counts, s: Merged, n: nat)
    requires LabelsDone(g, counts, s) && n in s.nodemap && n in g.heap
    ensures var u, t := Unabsorbed(g, counts, s, n), Unabsorbed(g, counts, s, n + 1);
            if JoinLabels.OneToOne(counts, g.heap[n])
            then var c := g.heap[n].children[0].id; c in s.nodemap && c in u && t == u - {c} + {n}
            else t == u + {n}
  {
    WeightBound(g, counts, s, n);
    AbsorbedBy(g, counts, s, n);
    forall i ensures AbsorbedBelow(g, counts, s, i, n + 1) <==> AbsorbedBelow(g, counts, s, i, n) || Absorbs(g, counts, n, i) {
      AbsorbedNext(g, counts, s, i, n);
    }
  }

  lemma WeightsWith(s: Merged, v: set<nat>, i: nat)
    requires i !in v
    ensures Total(Weights(s, v + {i})) == Total(Weights(s, v)) + Weight(s, i)
  {
    TotalWithout(Weights(s, v + {i}), i);
    assert Weights(s, v + {i}) - {i} == Weights(s, v);
  }

  /** One more node: what its replacement takes in is no longer counted by itself. */
  lemma Exchange(s: Merged, u: set<nat>, t: set<nat>, m: nat, c: nat)
    requires c in u && m !in u && t == u - {c} + {m}
    ensures Total(Weights(s, t)) + Weight(s, c) == Total(Weights(s, u)) + Weight(s, m)
  {
    WeightsWith(s, u - {c}, c);
    assert u - {c} + {c} == u;
    WeightsWith(s, u - {c}, m);
  }

  lemma BelowNext(g: Dafsa, s: Merged, m: nat)
    requires m in s.nodemap && m in g.heap
    ensures Size(g.heap, Below(s, m + 1)) == Size(g.heap, Below(s, m)) + Cost(g.heap[m])
  {
    assert Below(s, m + 1) == Below(s, m) + {m};
    SizeWith(g.heap, Below(s, m), m);
  }

  lemma NothingNext(g: Dafsa, counts: Counts, s: Merged, m: nat)
    requires m !in s.nodemap
    ensures Below(s, m + 1) == Below(s, m) && Unabsorbed(g, counts, s, m + 1) == Unabsorbed(g, counts, s, m)
  {
    forall i ensures AbsorbedBelow(g, counts, s, i, m + 1) <==> AbsorbedBelow(g, counts, s, i, m) {
    }
  }

  lemma OneMoreMerged(g: Dafsa, counts: Counts, s: Merged, m: nat)
    requires LabelsDone(g, counts, s) && m in s.nodemap
    ensures Total(Weights(s, Unabsorbed(g, counts, s, m + 1))) + Size(g.heap, Below(s, m))
            <= Total(Weights(s, Unabsorbed(g, counts, s, m))) + Size(g.heap, Below(s, m + 1))
  {
    var u, t := Unabsorbed(g, counts, s, m), Unabsorbed(g, counts, s, m + 1);
    WeightBound(g, counts, s, m);
    NextUnabsorbed(g, counts, s, m);
    BelowNext(g, s, m);
    if JoinLabels.OneToOne(counts, g.heap[m]) {
      Exchange(s, u, t, m, g.heap[m].children[0].id);
    } else {
      WeightsWith(s, u, m);
    }
  }

  /** The unabsorbed replacements together cost no more than the nodes they replace. */
  ghost predicate MergedWithin(g: Dafsa, counts: Counts, s: Merged, n: nat) {
    Total(Weights(s, Unabsorbed(g, counts, s, n))) <= Size(g.heap, Below(s, n))
  }

  lemma {:induction false} MergeBound(g: Dafsa, counts: Counts, s: Merged, n: nat)
    requires LabelsDone(g, counts, s)
    ensures MergedWithin(g, counts, s, n)
    decreases n
  {
    if n == 0 {
      NothingMerged(g, counts, s);
    } else {
      var m: nat := n - 1;
      MergeBound(g, counts, s, m);
      assert MergedWithin(g, counts, s, m);
      MergeStep(g, counts, s, m, n);
    }
  }

  lemma NothingMerged(g: Dafsa, counts: Counts, s: Merged)
    ensures MergedWithin(g, counts, s, 0)
  {
    assert Unabsorbed(g, counts, s, 0) == {};
    assert Weights(s, {}) == map[];
  }

  lemma MergeStep(g: Dafsa, counts: Counts, s: Merged, m: nat, n: nat)
    requires LabelsDone(g, counts, s) && MergedWithin(g, counts, s, m) && n == m + 1
    ensures MergedWithin(g, counts, s, n)
  {
    if m in s.nodemap {
      OneMoreMerged(g, counts, s, m);
    } else {
      NothingNext(g, counts, s, m);
    }
  }

  /** Nothing refers to the replacement of an absorbed node. */
  lemma {:induction false} NotReferenced(g: Dafsa, counts: Counts, s: Merged, p: nat, c: nat, i: nat)
    requires LabelsDone(g, counts, s) && p in s.nodemap && c in s.nodemap && Absorbs(g, counts, p, c) && i in s.nodemap
    ensures s.nodemap[i].To? && s.nodemap[i].id in s.heap && s.nodemap[c] !in s.heap[s.nodemap[i].id].children
    decreases i
  {
    assert JoinLabels.Replaced(g, counts, s, i) && JoinLabels.Replaced(g, counts, s, c);
    AbsorbedOnce(g, counts, p, c);
    var n := g.heap[i];
    if JoinLabels.OneToOne(counts, n) {
      WeightBound(g, counts, s, i);
      NotReferenced(g, counts, s, p, c, n.children[0].id);
    } else if s.nodemap[c] in s.heap[s.nodemap[i].id].children {
      var k :| 0 <= k < |n.children| && JoinLabels.Images(s.nodemap, n.children)[k] == s.nodemap[c];
      assert n.children[k] in n.children && (n.children[k] == To(c) ==> ParentOf(g, i, c));
      SameImage(counts, s, n.children[k], c);
    }
  }

  lemma SameImage(counts: Counts, s: Merged, r: Ref, c: nat)
    requires JoinLabels.Separate(counts, s) && c in s.nodemap && s.nodemap[c].To? && JoinLabels.Image(s.nodemap, r) == s.nodemap[c]
    ensures r == To(c)
  {
    assert r.To? && r.id in s.nodemap && r.id != c ==> JoinLabels.Apart(s, r.id, c);
  }

  /** What is absorbed cannot be reached in the result. */
  lemma AbsorbedIsDead(g: Dafsa, counts: Counts, r: Dafsa, nodemap: map<nat, Ref>, p: nat, i: nat, j: nat)
    requires Valid(g) && ReferenceCounts(g, counts) && JoinLabels.LabelsJoined(g, counts, r, nodemap)
    requires p in nodemap && Absorbs(g, counts, p, i) && i in nodemap && nodemap[i] == To(j)
    ensures !Reachable(r, j)
  {
    var s := JoinLabels.Merged(r.heap, r.next, nodemap);
    AbsorbedOnce(g, counts, p, i);
    if To(j) in r.source {
      var k :| 0 <= k < |g.source| && JoinLabels.Images(nodemap, g.source)[k] == To(j);
      assert g.source[k] in g.source;
      SameImage(counts, s, g.source[k], i);
    } else if Reachable(r, j) {
      var q :| j < q < r.next && ParentOf(r, q, j) && Reachable(r, q);
      var o :| o in nodemap && nodemap[o] == To(q);
      NotReferenced(g, counts, s, p, i, o);
    }
  }

  /** What can be reached in the result replaces a node that nothing absorbed. */
  lemma LiveIsUnabsorbed(g: Dafsa, counts: Counts, r: Dafsa, nodemap: map<nat, Ref>, i: nat, j: nat)
    requires Valid(g) && ReferenceCounts(g, counts) && JoinLabels.LabelsJoined(g, counts, r, nodemap)
    requires i in nodemap && nodemap[i] == To(j) && Reachable(r, j)
    ensures i in Unabsorbed(g, counts, JoinLabels.Merged(r.heap, r.next, nodemap), g.next)
  {
    var s := JoinLabels.Merged(r.heap, r.next, nodemap);
    assert JoinLabels.Replaced(g, counts, s, i);
    if p :| p in nodemap && p < g.next && Absorbs(g, counts, p, i) {
      AbsorbedIsDead(g, counts, r, nodemap, p, i, j);
    }
  }

  ghost function Preimage(nodemap: map<nat, Ref>, j: nat): (i: nat)
    requires exists i :: i in nodemap && nodemap[i] == To(j)
    ensures i in nodemap && nodemap[i] == To(j)
  {
    var i :| i in nodemap && nodemap[i] == To(j);
    i
  }

  lemma LiveSize(g: Dafsa, counts: Counts, r: Dafsa, nodemap: map<nat, Ref>)
    requires Valid(g) && ReferenceCounts(g, counts) && JoinLabels.LabelsJoined(g, counts, r, nodemap)
    ensures var s := JoinLabels.Merged(r.heap, r.next, nodemap);
            Size(r.heap, Live(r)) <= Total(Weights(s, Unabsorbed(g, counts, s, g.next)))
  {
    var s := JoinLabels.Merged(r.heap, r.next, nodemap);
    var u := Unabsorbed(g, counts, s, g.next);
    var m := map j | j in Live(r) :: Preimage(nodemap, j);
    forall j | j in Live(r) ensures m[j] in u && Cost(r.heap[j]) == Weight(s, m[j]) {
      LiveIsUnabsorbed(g, counts, r, nodemap, m[j], j);
    }
    TotalInjected(Costs(r.heap, Live(r)), Weights(s, u), m);
  }

  /** Joining labels leaves a graph whose reachable part takes no more than the old one. */
  lemma MergedSize(g: Dafsa, counts: Counts, r: Dafsa, nodemap: map<nat, Ref>)
    requires Valid(g) && ReferenceCounts(g, counts) && JoinLabels.LabelsJoined(g, counts, r, nodemap)
    ensures Size(r.heap, Live(r)) <= Size(g.heap, g.heap.Keys)
  {
    var s := JoinLabels.Merged(r.heap, r.next, nodemap);
    LiveSize(g, counts, r, nodemap);
    MergeBound(g, counts, s, g.next);
    BelowInHeap(g, counts, s);
  }

  lemma BelowInHeap(g: Dafsa, counts: Counts, s: Merged)
    requires JoinLabels.Merging(g, counts, s)
    ensures Size(g.heap, Below(s, g.next)) <= Size(g.heap, g.heap.Keys)
  {
    forall i | i in Below(s, g.next) ensures i in g.heap {
      assert JoinLabels.Replaced(g, counts, s, i);
    }
    SizeMonotone(g.heap, Below(s, g.next), g.heap.Keys);
  }
}
