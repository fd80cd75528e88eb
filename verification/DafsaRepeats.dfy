/** What becomes of repeated words: the trie lists the sink once for each repetition, `join_suffixes` keeps
    the first node of each value, and `encode` refuses a node that lists the sink twice. */
module DafsaRepeats {
  import opened DafsaGraph
  import opened DafsaReverse
  import opened DafsaJoinSuffixes
  import JoinLabels = DafsaJoinLabels
  import opened DafsaReferences
  import opened DafsaStages
  import opened DafsaEncode
  import opened DafsaSize

  /** The trie has one character to a node. */
  lemma TrieIsPlain(g: Dafsa, r: Dafsa)
    requires ReversedTrie(g) && Transposed(g, r) && GoodGraph(r)
    ensures SingleLetters(r)
  {
    forall j | j in r.heap ensures |r.heap[j].text| == 1 {
      assert TrieNode(g.heap, Mirror(g.next, j));
    }
  }

  /** The first node of some value, in the order of the walk, lists the sink more than once. */
  ghost predicate Repeats(g: Dafsa)
    requires Valid(g)
  {
    exists a :: RepeatsAt(g, a)
  }

  ghost predicate RepeatsAt(g: Dafsa, a: nat)
    requires Valid(g)
  {
    && a < |Values(g)| && Values(g)[a] in g.heap && |g.heap[Values(g)[a]].children| > 1
    && forall b :: 0 <= b < a ==> Values(g)[b] in g.heap && g.heap[Values(g)[b]].text != g.heap[Values(g)[a]].text
  }

  /** A node in front of the sink spells its label and nothing else. */
  lemma LastAccepts(h: Heap, x: nat, w: Word)
    requires ValidHeap(h) && x in h && OnlySinks(h[x])
    ensures Accepts(h, To(x), w) <==> w == h[x].text
  {
    var n := h[x];
    assert ValidNode(h, x, n);
    if |n.text| <= |w| {
      var v := w[|n.text|..];
      assert n.children[0] in n.children;
      assert AcceptsAny(h, n.children, v) <==> v == [];
      assert w == w[..|n.text|] + v;
    }
    if w == n.text {
      assert w[..|n.text|] == w;
    }
  }

  lemma SameTextSameLanguage(h: Heap, x: nat, k: Heap, y: nat)
    requires ValidHeap(h) && x in h && OnlySinks(h[x]) && ValidHeap(k) && y in k && OnlySinks(k[y])
    ensures SameLanguage(h, To(x), k, To(y)) <==> h[x].text == k[y].text
  {
    forall w ensures (Accepts(h, To(x), w) <==> w == h[x].text) && (Accepts(k, To(y), w) <==> w == k[y].text) {
      LastAccepts(h, x, w);
      LastAccepts(k, y, w);
    }
    assert Accepts(h, To(x), h[x].text);
  }

  /** Some word ends in each value that the walk meets. */
  lemma {:induction false} ValueBelow(h: Heap, r: Ref, x: nat) returns (u: Word)
    requires ValidHeap(h) && ValidRef(h, r) && x in ValueOrder(h, r)
    ensures x in h && OnlySinks(h[x]) && Accepts(h, r, u + h[x].text)
    decreases if r.Sink? then 0 else r.id + 1, 0
  {
    var n := h[r.id];
    assert ValidNode(h, r.id, n);
    if OnlySinks(n) {
      u := [];
      assert u + h[x].text == h[x].text;
      LastAccepts(h, x, h[x].text);
    } else {
      var c, v := ValueBelowOne(h, n.children, r.id, |n.children|, x);
      AcceptsStep(h, r.id, c, v + h[x].text);
      u := n.text + v;
      assert n.text + (v + h[x].text) == u + h[x].text;
    }
  }

  lemma {:induction false} ValueBelowOne(h: Heap, rs: seq<Ref>, n: nat, k: nat, x: nat) returns (c: Ref, u: Word)
    requires ValidHeap(h) && Bounded(h, rs, n) && k <= |rs| && x in ValuesOf(h, rs, n, k)
    ensures x in h && OnlySinks(h[x]) && c in rs && Accepts(h, c, u + h[x].text)
    decreases n, k
  {
    if x in ValueOrder(h, rs[k - 1]) {
      c := rs[k - 1];
      u := ValueBelow(h, c, x);
    } else {
      c, u := ValueBelowOne(h, rs, n, k - 1, x);
    }
  }

  // What is kept

  /** The kept node of a value is as the first one in the walk. */
  lemma KeptAsFirst(g: Dafsa, r: Dafsa, j: nat) returns (a: nat)
    requires SingleLetters(g) && SuffixesJoined(g, r) && FirstValues(g, r) && GoodGraph(r) && j in r.heap && Sink in r.heap[j].children
    ensures a < |Values(g)| && Values(g)[a] in g.heap
    ensures g.heap[Values(g)[a]].text == r.heap[j].text && |g.heap[Values(g)[a]].children| == |r.heap[j].children|
    ensures forall b :: 0 <= b < a ==> Values(g)[b] in g.heap && g.heap[Values(g)[b]].text != r.heap[j].text
  {
    var v := Values(g);
    assert GoodNode(r.heap, j);
    assert OnlySinks(r.heap[j]);
    assert FirstFor(g, r.heap, v, j);
    a :| FirstAt(g, r.heap, v, j, a);
    forall b | 0 <= b < a ensures v[b] in g.heap && g.heap[v[b]].text != r.heap[j].text {
      var c, u := ValueBelowOne(g.heap, g.source, g.next, |g.source|, v[b]);
      SameTextSameLanguage(g.heap, v[b], r.heap, j);
    }
  }

  lemma NothingRepeated(g: Dafsa, r: Dafsa)
    requires SingleLetters(g) && SuffixesJoined(g, r) && FirstValues(g, r) && GoodGraph(r) && !Repeats(g)
    ensures SoleSinks(r.heap)
  {
    forall j | j in r.heap && Sink in r.heap[j].children ensures |r.heap[j].children| == 1 {
      var a := KeptAsFirst(g, r, j);
      assert !RepeatsAt(g, a);
      assert GoodNode(r.heap, j);
    }
  }

  /** A reachable node in front of the sink that ends a given word. */
  lemma {:induction false} LastBelow(g: Dafsa, i: nat, w: Word) returns (z: nat)
    requires GoodGraph(g) && Reachable(g, i) && Accepts(g.heap, To(i), w)
    ensures z in Live(g) && Sink in g.heap[z].children && |w| > 0 && |g.heap[z].text| > 0
    ensures g.heap[z].text[|g.heap[z].text| - 1] == w[|w| - 1]
    decreases |w|
  {
    var n := g.heap[i];
    assert ValidNode(g.heap, i, n);
    var rest := w[|n.text|..];
    assert AcceptsAny(g.heap, n.children, rest);
    var c :| c in n.children && Accepts(g.heap, c, rest);
    if c.Sink? {
      z := i;
      assert w == w[..|n.text|] == n.text;
    } else {
      assert ParentOf(g, i, c.id) && c.id in g.heap && c.id < i < g.next;
      z := LastBelow(g, c.id, rest);
    }
  }

  /** The replacement of `i` has the children of old node `e`, and its label ends in that of `e`. */
  ghost predicate EndsIn(g: Dafsa, s: Merged, i: nat, e: nat) {
    && i in s.nodemap && s.nodemap[i].To? && s.nodemap[i].id in s.heap && e in g.heap
    && SameEnd(s.heap[s.nodemap[i].id].text, g.heap[e].text)
    && s.heap[s.nodemap[i].id].children == JoinLabels.Images(s.nodemap, g.heap[e].children)
    && forall c :: c in g.heap[e].children && c.To? ==> c.id in s.nodemap && s.nodemap[c.id].To?
  }

  ghost predicate SameEnd(v: Word, w: Word) {
    |v| > 0 && |w| > 0 && v[|v| - 1] == w[|w| - 1]
  }

  lemma ChainStart(g: Dafsa, counts: Counts, s: Merged, i: nat)
    requires LabelsDone(g, counts, s) && i in s.nodemap && i in g.heap && !JoinLabels.OneToOne(counts, g.heap[i])
    ensures EndsIn(g, s, i, i)
  {
    assert JoinLabels.Replaced(g, counts, s, i);
    assert ValidNode(g.heap, i, g.heap[i]);
    forall c | c in g.heap[i].children && c.To? ensures c.id in s.nodemap && s.nodemap[c.id].To? {
      assert JoinLabels.Replaced(g, counts, s, c.id);
    }
  }

  lemma ChainStep(g: Dafsa, counts: Counts, s: Merged, i: nat, c: nat, e: nat)
    requires LabelsDone(g, counts, s) && i in s.nodemap && Absorbs(g, counts, i, c) && EndsIn(g, s, c, e)
    ensures EndsIn(g, s, i, e)
  {
    assert JoinLabels.Replaced(g, counts, s, i);
    LongerEnd(counts, g, s, i, c);
  }

  lemma LongerEnd(counts: Counts, g: Dafsa, s: Merged, i: nat, c: nat)
    requires JoinLabels.Replaced(g, counts, s, i) && Absorbs(g, counts, i, c) && c in s.nodemap
    requires s.nodemap[c].To? && s.nodemap[c].id in s.heap && s.heap[s.nodemap[c].id].text != []
    ensures s.nodemap[i].To? && s.nodemap[i].id in s.heap
    ensures var long, short := s.heap[s.nodemap[i].id], s.heap[s.nodemap[c].id];
            SameEnd(long.text, short.text) && long.children == short.children
  {
  }

  lemma {:induction false} ChainEnd(g: Dafsa, counts: Counts, s: Merged, i: nat) returns (e: nat)
    requires LabelsDone(g, counts, s) && i in s.nodemap
    ensures EndsIn(g, s, i, e)
    decreases i
  {
    WeightBound(g, counts, s, i);
    if JoinLabels.OneToOne(counts, g.heap[i]) {
      var c := g.heap[i].children[0].id;
      e := ChainEnd(g, counts, s, c);
      ChainStep(g, counts, s, i, c, e);
    } else {
      ChainStart(g, counts, s, i);
      e := i;
    }
  }

  /** The node before joining labels that a node in front of the sink ends in. */
  lemma EndOf(r: Dafsa, counts: Counts, t: Dafsa, nodemap: map<nat, Ref>, z: nat) returns (e: nat)
    requires Valid(r) && ReferenceCounts(r, counts) && JoinLabels.LabelsJoined(r, counts, t, nodemap)
    requires z in t.heap && Sink in t.heap[z].children
    ensures e in r.heap && Sink in r.heap[e].children && |r.heap[e].children| == |t.heap[z].children|
    ensures SameEnd(t.heap[z].text, r.heap[e].text)
  {
    var s := JoinLabels.Merged(t.heap, t.next, nodemap);
    e := ChainEnd(r, counts, s, Preimage(nodemap, z));
    SinkInImages(s, r.heap[e].children);
  }

  lemma KeptRepeats(g: Dafsa, r: Dafsa, a: nat, e: nat)
    requires SingleLetters(g) && SuffixesJoined(g, r) && FirstValues(g, r) && GoodGraph(r) && RepeatsAt(g, a)
    requires e in r.heap && Sink in r.heap[e].children && SameEnd(g.heap[Values(g)[a]].text, r.heap[e].text)
    ensures |r.heap[e].children| > 1
  {
    var b := KeptAsFirst(g, r, e);
    var v := Values(g);
    assert |g.heap[v[a]].text| == 1 && |g.heap[v[b]].text| == 1;
    assert g.heap[v[a]].text == r.heap[e].text;
    assert a == b;
  }

  /** The kept node of a value shows in the final graph. */
  lemma RepeatShows(g: Dafsa, r: Dafsa, counts: Counts, t: Dafsa, nodemap: map<nat, Ref>)
    requires SingleLetters(g) && SuffixesJoined(g, r) && FirstValues(g, r) && GoodGraph(r) && Repeats(g)
    requires ReferenceCounts(r, counts) && JoinLabels.LabelsJoined(r, counts, t, nodemap) && GoodGraph(t)
    ensures !NoRepeats(t)
  {
    var a: nat :| RepeatsAt(g, a);
    var z := ValueInResult(g, r, counts, t, nodemap, Values(g)[a]);
    var e := EndOf(r, counts, t, nodemap, z);
    KeptRepeats(g, r, a, e);
    assert RepeatedSink(t.heap[z]);
  }

  lemma SinkInImages(s: Merged, rs: seq<Ref>)
    requires forall c :: c in rs && c.To? ==> c.id in s.nodemap && s.nodemap[c.id].To?
    ensures Sink in JoinLabels.Images(s.nodemap, rs) <==> Sink in rs
  {
    forall k | 0 <= k < |rs| ensures JoinLabels.Images(s.nodemap, rs)[k] == Sink <==> rs[k] == Sink {
      assert rs[k] in rs;
    }
  }

  lemma ValueInResult(g: Dafsa, r: Dafsa, counts: Counts, t: Dafsa, nodemap: map<nat, Ref>, x: nat) returns (z: nat)
    requires SingleLetters(g) && SuffixesJoined(g, r) && Valid(r) && x in Values(g)
    requires ReferenceCounts(r, counts) && JoinLabels.LabelsJoined(r, counts, t, nodemap) && GoodGraph(t)
    ensures x in g.heap && |g.heap[x].text| == 1
    ensures z in Live(t) && Sink in t.heap[z].children && |t.heap[z].text| > 0
    ensures t.heap[z].text[|t.heap[z].text| - 1] == g.heap[x].text[0]
  {
    var c, u := ValueBelowOne(g.heap, g.source, g.next, |g.source|, x);
    var w := u + g.heap[x].text;
    assert Spells(g, w);
    SuffixesJoinedSpells(g, r, w);
    JoinLabels.LabelsJoinedSpells(r, counts, t, nodemap, w);
    var d :| d in t.source && Accepts(t.heap, d, w);
    assert d.To? && To(d.id) in t.source && d.id in t.heap;
    z := LastBelow(t, d.id, w);
  }

  /** A repetition survives to the encoder iff the first node of its value, in the walk over the trie, is
      one that carries it. */
  lemma RepetitionSurvives(g: Dafsa, r: Dafsa, counts: Counts, t: Dafsa, nodemap: map<nat, Ref>)
    requires SingleLetters(g) && SuffixesJoined(g, r) && FirstValues(g, r) && GoodGraph(r)
    requires ReferenceCounts(r, counts) && JoinLabels.LabelsJoined(r, counts, t, nodemap) && GoodGraph(t)
    ensures NoRepeats(t) <==> !Repeats(g)
  {
    if Repeats(g) {
      RepeatShows(g, r, counts, t, nodemap);
    } else {
      NothingRepeated(g, r);
      GoodGraphMerged(r, counts, t, nodemap);
    }
  }
}
