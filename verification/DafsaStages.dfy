/** Why the order of the passes matters: chains, reversed and joined, make a reversed trie;
    reversed again it is deterministic, and the last two passes keep it so. */
module DafsaStages {
  import opened DafsaGraph
  import opened DafsaBuild
  import opened DafsaReverse
  import opened DafsaJoinSuffixes
  import JoinLabels = DafsaJoinLabels
  import opened DafsaReferences
  import opened DafsaTopSort

  lemma OnlyOne<T>(s: seq<T>, x: T)
    requires forall y :: multiset(s)[y] == if y == x then 1 else 0
    ensures s == [x]
  {
    assert multiset(s) == multiset{x};
    assert |multiset(s)| == |s|;
    assert s[0] in multiset(s);
  }

  /** A node of a reversed trie: one character, one child, and no value below anything. */
  ghost predicate TrieNode(h: Heap, i: nat)
    requires i in h
  {
    var n := h[i];
    && |n.text| == 1 && |n.children| == 1
    && (IsValue(n.text[0]) || Printable(n.text[0]))
    && (n.children[0].To? ==> n.children[0].id in h && |h[n.children[0].id].text| > 0 && Printable(h[n.children[0].id].text[0]))
  }

  /** The values, and nothing else, are on the source list. */
  ghost predicate ReversedTrie(g: Dafsa) {
    && Valid(g) && Sink !in g.source
    && (forall i {:trigger TrieNode(g.heap, i)} :: i in g.heap ==> TrieNode(g.heap, i))
    && (forall i {:trigger To(i) in g.source} :: i in g.heap ==> (To(i) in g.source <==> IsValue(Head(g.heap, To(i)))))
  }

  // Chains to reversed trie

  ghost function ChainParent(g: Dafsa, i: nat): Ref {
    if i + 1 in g.heap && To(i) in g.heap[i + 1].children then To(Mirror(g.next, i + 1)) else Sink
  }

  lemma ReversedChainLink(g: Dafsa, r: Dafsa, j: nat, c: Ref)
    requires Chains(g) && Transposed(g, r) && j in r.heap && c in r.heap[j].children
    ensures c == ChainParent(g, Mirror(g.next, j)) && multiset(r.heap[j].children)[c] == 1
  {
    var i := Mirror(g.next, j);
    LinkIsEdge(g, r, j, c);
    assert multiset(r.heap[j].children)[c] == Links(g.next, Walk(r.heap, r.source), c, To(i));
    if c.To? {
      assert LinkNode(Mirror(g.next, c.id), g.heap[Mirror(g.next, c.id)]);
    } else {
      assert ListedOnce(g, i);
    }
  }

  lemma ReversedChainNode(g: Dafsa, r: Dafsa, j: nat)
    requires Chains(g) && Transposed(g, r) && j in r.heap
    ensures TrieNode(r.heap, j)
    ensures To(j) in r.source <==> IsValue(r.heap[j].text[0])
    ensures r.heap[j].text == g.heap[Mirror(g.next, j)].text
    ensures r.heap[j].children == [ChainParent(g, Mirror(g.next, j))]
  {
    var i := Mirror(g.next, j);
    assert LinkNode(i, g.heap[i]);
    var children := r.heap[j].children;
    ReversedChainLink(g, r, j, children[0]);
    forall x ensures multiset(children)[x] == if x == children[0] then 1 else 0 {
      if x in children {
        ReversedChainLink(g, r, j, x);
      }
    }
    OnlyOne(children, children[0]);
    LinkIsEdge(g, r, j, children[0]);
    if children[0].To? {
      assert LinkNode(i + 1, g.heap[i + 1]);
    }
    assert multiset(r.source)[To(j)] == Links(g.next, Walk(r.heap, r.source), To(j), Sink) == Edges(g, i, Sink);
  }

  lemma ChainsReversed(g: Dafsa, r: Dafsa)
    requires Chains(g) && Transposed(g, r)
    ensures ReversedTrie(r)
  {
    TransposedValid(g, r);
    forall j | j in r.heap ensures TrieNode(r.heap, j) && (To(j) in r.source <==> IsValue(r.heap[j].text[0])) {
      ReversedChainNode(g, r, j);
    }
    if Sink in r.source {
      SourceLinkIsEdge(g, r, Sink);
    }
  }

  // Joined reversed trie

  /** Whatever was made from a node spells its words. */
  lemma MadeFromSameLanguage(g: Dafsa, o: nat, r: Dafsa, j: nat)
    requires Valid(g) && MadeFrom(g.heap, o, r.heap, j)
    ensures SameLanguage(g.heap, To(o), r.heap, To(j))
  {
    assert ValidNode(g.heap, o, g.heap[o]);
    SameNodeSameLanguage(g.heap, o, r.heap, j);
  }

  lemma JoinedTrieNode(g: Dafsa, r: Dafsa, j: nat)
    requires ReversedTrie(g) && SuffixesJoined(g, r) && j in r.heap
    ensures TrieNode(r.heap, j)
    ensures To(j) in r.source <==> IsValue(r.heap[j].text[0])
  {
    var o :| MadeFrom(g.heap, o, r.heap, j);
    assert TrieNode(g.heap, o) && ValidNode(r.heap, j, r.heap[j]) && ValidNode(g.heap, o, g.heap[o]);
    SameLanguageSameHead(g.heap, g.heap[o].children[0], r.heap, r.heap[j].children[0]);
    MadeFromSameLanguage(g, o, r, j);
    if r.heap[j].children[0].To? {
      assert ValidNode(r.heap, r.heap[j].children[0].id, r.heap[r.heap[j].children[0].id]);
    }
    if To(j) in r.source {
      var c :| 0 <= c < |r.source| && r.source[c] == To(j);
      SameLanguageSameHead(g.heap, g.source[c], r.heap, r.source[c]);
      assert g.source[c] in g.source && To(g.source[c].id) in g.source;
    }
    if IsValue(r.heap[j].text[0]) {
      assert To(o) in g.source;
      var c :| 0 <= c < |g.source| && g.source[c] == To(o);
      SameLanguageSameHead(g.heap, g.source[c], r.heap, r.source[c]);
      assert r.source[c] in r.source;
      assert SameLanguage(r.heap, r.source[c], r.heap, To(j));
    }
  }

  lemma ReversedTrieJoined(g: Dafsa, r: Dafsa)
    requires ReversedTrie(g) && SuffixesJoined(g, r)
    ensures ReversedTrie(r)
  {
    forall j | j in r.heap ensures TrieNode(r.heap, j) && (To(j) in r.source <==> IsValue(r.heap[j].text[0])) {
      JoinedTrieNode(g, r, j);
    }
    forall c | 0 <= c < |r.source| ensures r.source[c] != Sink {
      assert g.source[c] in g.source;
      assert r.source[c] in r.source;
      SameLanguageSameHead(g.heap, g.source[c], r.heap, r.source[c]);
    }
  }

  // Reversed trie to trie

  /** In a joined reversed trie, a node is known by its character and its child. */
  lemma SameCharacterSameChild(g: Dafsa, p: nat, q: nat)
    requires ReversedTrie(g) && Injective(g.heap) && p in g.heap && q in g.heap
    requires Head(g.heap, To(p)) == Head(g.heap, To(q)) && g.heap[p].children == g.heap[q].children
    ensures p == q
  {
    assert TrieNode(g.heap, p) && TrieNode(g.heap, q);
    assert g.heap[p].text == g.heap[q].text;
    SameNodeSameLanguage(g.heap, p, g.heap, q);
  }

  /** `rs` are the references recorded for old node `y`. */
  ghost predicate Recorders(g: Dafsa, r: Dafsa, y: Ref, rs: seq<Ref>) {
    forall x :: multiset(rs)[x] == Links(g.next, Walk(r.heap, r.source), x, y)
  }

  lemma TrieLink(g: Dafsa, r: Dafsa, y: Ref, rs: seq<Ref>, c: Ref)
    requires ReversedTrie(g) && Transposed(g, r) && Recorders(g, r, y, rs) && y !in g.source && c in rs
    ensures c.To? && c.id in r.heap && Mirror(g.next, c.id) in g.heap
    ensures g.heap[Mirror(g.next, c.id)].children == [y] && multiset(rs)[c] == 1
    ensures r.heap[c.id].text == g.heap[Mirror(g.next, c.id)].text
    ensures |r.heap[c.id].text| == 1
  {
    assert multiset(rs)[c] == Links(g.next, Walk(r.heap, r.source), c, y) > 0;
    var p := Mirror(g.next, c.id);
    assert c.To? && c.id in r.heap && TrieNode(g.heap, p);
  }

  lemma TrieLinksDiffer(g: Dafsa, r: Dafsa, y: Ref, rs: seq<Ref>, a: nat, b: nat)
    requires ReversedTrie(g) && Injective(g.heap) && Transposed(g, r) && Recorders(g, r, y, rs) && y !in g.source
    requires a < b < |rs| && rs[a].To? && rs[a].id in r.heap && rs[b].To? && rs[b].id in r.heap
    ensures r.heap[rs[a].id].text != r.heap[rs[b].id].text
  {
    TrieLink(g, r, y, rs, rs[a]);
    TrieLink(g, r, y, rs, rs[b]);
    if r.heap[rs[a].id].text == r.heap[rs[b].id].text {
      SameCharacterSameChild(g, Mirror(g.next, rs[a].id), Mirror(g.next, rs[b].id));
      Twice(rs, a, b);
    }
  }

  /** The references that reverse the links to `y` can be told apart by their first character. */
  lemma TrieLinks(g: Dafsa, r: Dafsa, y: Ref, rs: seq<Ref>)
    requires ReversedTrie(g) && Injective(g.heap) && Transposed(g, r) && Valid(r)
    requires ValidRefs(r.heap, rs) && Recorders(g, r, y, rs) && y !in g.source
    ensures Deterministic(r.heap, rs) && Sink !in rs
  {
    forall c | c in rs ensures c.To? && c.id in r.heap && |r.heap[c.id].text| == 1 {
      TrieLink(g, r, y, rs, c);
    }
    forall a, b | 0 <= a < b < |rs| ensures Head(r.heap, rs[a]) != Head(r.heap, rs[b]) {
      TrieLinksDiffer(g, r, y, rs, a, b);
    }
  }

  lemma ValueInFrontOfSink(g: Dafsa, r: Dafsa, j: nat, c: Ref)
    requires ReversedTrie(g) && Transposed(g, r) && j in r.heap && c in r.heap[j].children
    requires |g.heap[Mirror(g.next, j)].text| > 0 && IsValue(g.heap[Mirror(g.next, j)].text[0])
    ensures c == Sink
  {
    LinkIsEdge(g, r, j, c);
    assert c.To? ==> TrieNode(g.heap, Mirror(g.next, c.id));
  }

  lemma TrieNodeIsGood(g: Dafsa, r: Dafsa, j: nat)
    requires ReversedTrie(g) && Injective(g.heap) && Transposed(g, r) && Valid(r) && j in r.heap
    ensures GoodNode(r.heap, j)
  {
    var i := Mirror(g.next, j);
    assert TrieNode(g.heap, i) && ValidNode(r.heap, j, r.heap[j]);
    var children := r.heap[j].children;
    if IsValue(g.heap[i].text[0]) {
      forall c | c in children ensures c == Sink {
        ValueInFrontOfSink(g, r, j, c);
      }
      assert children[0] in children;
    } else {
      assert To(i) !in g.source;
      assert Recorders(g, r, To(i), children);
      TrieLinks(g, r, To(i), children);
    }
  }

  lemma TrieReversed(g: Dafsa, r: Dafsa)
    requires ReversedTrie(g) && Injective(g.heap) && Transposed(g, r) && |g.source| > 0
    ensures GoodGraph(r)
  {
    TransposedValid(g, r);
    forall j | j in r.heap ensures GoodNode(r.heap, j) {
      TrieNodeIsGood(g, r, j);
    }
    assert Recorders(g, r, Sink, r.source);
    TrieLinks(g, r, Sink, r.source);
    var w := SomeWord(g.heap, g.source[0]);
    TransposedSpells(g, r, w);
  }

  // The last two passes keep a good graph good

  lemma SameHeads(h: Heap, rs: seq<Ref>, k: Heap, ss: seq<Ref>)
    requires ValidHeap(h) && ValidRefs(h, rs) && ValidHeap(k) && ValidRefs(k, ss) && |rs| == |ss|
    requires forall c :: 0 <= c < |rs| ==> SameLanguage(h, rs[c], k, ss[c])
    requires Deterministic(h, rs)
    ensures Deterministic(k, ss) && (Sink in rs <==> Sink in ss)
  {
    forall c | 0 <= c < |rs|
      ensures rs[c] in rs && ss[c] in ss && (rs[c] == Sink <==> ss[c] == Sink)
      ensures rs[c].To? ==> Head(h, rs[c]) == Head(k, ss[c])
    {
      assert ValidRef(h, rs[c]) && ValidRef(k, ss[c]);
      SameLanguageSameHead(h, rs[c], k, ss[c]);
    }
  }

  /** A value is listed in front of the sink once. */
  ghost predicate SoleSinks(h: Heap) {
    forall i :: i in h ==> (Sink in h[i].children ==> |h[i].children| == 1)
  }

  lemma GoodJoinedNode(g: Dafsa, r: Dafsa, j: nat)
    requires GoodGraph(g) && SuffixesJoined(g, r) && j in r.heap
    ensures GoodNode(r.heap, j)
    ensures SoleSinks(g.heap) && Sink in r.heap[j].children ==> |r.heap[j].children| == 1
  {
    var o :| MadeFrom(g.heap, o, r.heap, j);
    assert ValidNode(r.heap, j, r.heap[j]) && ValidNode(g.heap, o, g.heap[o]) && GoodNode(g.heap, o);
    SameHeads(g.heap, g.heap[o].children, r.heap, r.heap[j].children);
  }

  lemma GoodGraphJoined(g: Dafsa, r: Dafsa)
    requires GoodGraph(g) && SuffixesJoined(g, r)
    ensures GoodGraph(r) && (SoleSinks(g.heap) ==> SoleSinks(r.heap))
  {
    forall j | j in r.heap
      ensures GoodNode(r.heap, j)
      ensures SoleSinks(g.heap) && Sink in r.heap[j].children ==> |r.heap[j].children| == 1
    {
      GoodJoinedNode(g, r, j);
    }
    SameHeads(g.heap, g.source, r.heap, r.source);
  }

  lemma ImagesSameHeads(g: Dafsa, parentcount: Counts, s: JoinLabels.Merged, rs: seq<Ref>)
    requires Valid(g) && JoinLabels.Merging(g, parentcount, s)
    requires ValidRefs(g.heap, rs) && (forall c :: c in rs && c.To? ==> c.id in s.nodemap)
    requires Deterministic(g.heap, rs)
    ensures var images := JoinLabels.Images(s.nodemap, rs);
            ValidRefs(s.heap, images) && Deterministic(s.heap, images) && (Sink in rs <==> Sink in images)
  {
    var images := JoinLabels.Images(s.nodemap, rs);
    forall c | 0 <= c < |rs| ensures ValidRef(s.heap, images[c]) && SameLanguage(g.heap, rs[c], s.heap, images[c]) {
      assert rs[c] in rs;
      JoinLabels.ImageSameLanguage(g, parentcount, s, rs[c]);
    }
    SameHeads(g.heap, rs, s.heap, images);
  }

  lemma {:induction false} GoodReplacement(g: Dafsa, parentcount: Counts, s: JoinLabels.Merged, i: nat)
    requires GoodGraph(g) && JoinLabels.Merging(g, parentcount, s) && i in s.nodemap
    ensures s.nodemap[i].To? && s.nodemap[i].id in s.heap && GoodNode(s.heap, s.nodemap[i].id)
    ensures SoleSinks(g.heap) ==> var m := s.heap[s.nodemap[i].id]; Sink in m.children ==> |m.children| == 1
  {
    assert JoinLabels.Replaced(g, parentcount, s, i);
    var n := g.heap[i];
    assert ValidNode(g.heap, i, n) && GoodNode(g.heap, i);
    ImagesSameHeads(g, parentcount, s, n.children);
    if JoinLabels.OneToOne(parentcount, n) {
      assert n.children[0] in n.children;
      GoodReplacement(g, parentcount, s, n.children[0].id);
      JoinedShape(n, s.heap[s.nodemap[n.children[0].id].id]);
    }
  }

  lemma JoinedShape(n: Node, m: Node)
    requires Shaped(n) && Sink !in n.children && Shaped(m)
    ensures Shaped(Node(n.text + m.text, m.children))
  {
  }

  lemma GoodGraphMerged(g: Dafsa, parentcount: Counts, r: Dafsa, nodemap: map<nat, Ref>)
    requires GoodGraph(g) && JoinLabels.LabelsJoined(g, parentcount, r, nodemap)
    ensures GoodGraph(r) && (SoleSinks(g.heap) ==> SoleSinks(r.heap))
  {
    var s := JoinLabels.Merged(r.heap, r.next, nodemap);
    forall j | j in r.heap
      ensures GoodNode(r.heap, j)
      ensures SoleSinks(g.heap) && Sink in r.heap[j].children ==> |r.heap[j].children| == 1
    {
      var i :| i in nodemap && nodemap[i] == To(j);
      GoodReplacement(g, parentcount, s, i);
    }
    ImagesSameHeads(g, parentcount, s, g.source);
  }

  // Different words get different values

  lemma ChainParentInWord(g: Dafsa, base: nat, e: Word, j: nat)
    requires Chain(g.heap, base, e) && j < |e|
    requires To(base + |e| - 1) in g.source && ListedOnce(g, base + |e| - 1)
    ensures base + j in g.heap && g.heap[base + j].text == [e[|e| - 1 - j]]
    ensures ChainParent(g, base + j) == if j < |e| - 1 then To(Mirror(g.next, base + j + 1)) else Sink
  {
    assert ChainAt(g.heap, base, e, j);
    if j < |e| - 1 {
      assert ChainAt(g.heap, base, e, j + 1);
    } else {
      assert multiset(g.source)[To(base + j)] > 0;
    }
  }

  lemma ReversedChainStep(g: Dafsa, r: Dafsa, base: nat, e: Word, j: nat)
    requires Chains(g) && Transposed(g, r) && Valid(r) && Chain(g.heap, base, e) && j < |e|
    requires Mirror(g.next, base + j) in r.heap
    requires To(base + |e| - 1) in g.source && base + |e| - 1 in g.heap
    ensures var n := r.heap[Mirror(g.next, base + j)];
            && n.text == [e[|e| - 1 - j]]
            && n.children == [if j < |e| - 1 then To(Mirror(g.next, base + j + 1)) else Sink]
            && (j < |e| - 1 ==> Mirror(g.next, base + j + 1) in r.heap)
  {
    var m := Mirror(g.next, base + j);
    assert Mirror(g.next, m) == base + j;
    var n := r.heap[m];
    ReversedChainNode(g, r, m);
    assert n.text == [e[|e| - 1 - j]] && n.children == [if j < |e| - 1 then To(Mirror(g.next, base + j + 1)) else Sink] by {
      assert ListedOnce(g, base + |e| - 1);
      ChainParentInWord(g, base, e, j);
    }
    assert ValidNode(r.heap, m, n) && n.children[0] in n.children;
  }

  /** Reversed, the chain of a word leads back along its prefix. */
  lemma {:induction false} ReversedChainSpells(g: Dafsa, r: Dafsa, base: nat, e: Word, j: nat, u: Word)
    requires Chains(g) && Transposed(g, r) && Valid(r) && Chain(g.heap, base, e) && j < |e|
    requires Mirror(g.next, base + j) in r.heap && To(base + |e| - 1) in g.source && base + |e| - 1 in g.heap
    requires Accepts(r.heap, To(Mirror(g.next, base + j)), u)
    ensures u == Reversed(e[..|e| - j])
    decreases |e| - j
  {
    ReversedChainStep(g, r, base, e, j);
    var n := r.heap[Mirror(g.next, base + j)];
    var rest := u[1..];
    assert u == n.text + rest && AcceptsAny(r.heap, n.children, rest);
    assert Accepts(r.heap, n.children[0], rest);
    assert e[..|e| - j] == e[..|e| - j - 1] + n.text;
    ReversedConcat(e[..|e| - j - 1], n.text);
    if j < |e| - 1 {
      ReversedChainSpells(g, r, base, e, j + 1, rest);
    }
  }

  /** Distinct words give the joined reversed trie a source list without repetition. */
  lemma DistinctSources(g: Dafsa, words: seq<Word>, bases: seq<nat>, r: Dafsa, t: Dafsa)
    requires Chains(g) && ChainPerWord(g, words, bases) && Transposed(g, r) && Valid(r) && SuffixesJoined(r, t)
    requires forall k, l :: 0 <= k < l < |words| && |words[k]| > 0 && |words[l]| > 0 ==> Encoded(words[k]) != Encoded(words[l])
    ensures Distinct(t.source)
  {
    forall a, b | 0 <= a < b < |t.source| ensures t.source[a] != t.source[b] {
      var k := SourceWord(g, words, bases, r, a);
      var l := SourceWord(g, words, bases, r, b);
      if k == l {
        RootsDiffer(g, r, a, b);
      }
      var w := SomeWord(r.heap, r.source[a]);
      ReversedTwice(Encoded(words[k]));
      ReversedTwice(Encoded(words[l]));
      assert SameLanguage(r.heap, r.source[a], t.heap, t.source[a]);
      assert SameLanguage(r.heap, r.source[b], t.heap, t.source[b]);
      assert Accepts(t.heap, t.source[a], w) && !Accepts(t.heap, t.source[b], w);
    }
  }

  lemma RootsDiffer(g: Dafsa, r: Dafsa, a: nat, b: nat)
    requires Chains(g) && Transposed(g, r) && a < b < |r.source|
    ensures r.source[a] != r.source[b]
  {
    var c := r.source[a];
    assert c in r.source;
    SourceLinkIsEdge(g, r, c);
    assert multiset(r.source)[c] == Links(g.next, Walk(r.heap, r.source), c, Sink);
    assert LinkNode(Mirror(g.next, c.id), g.heap[Mirror(g.next, c.id)]);
    if c == r.source[b] {
      Twice(r.source, a, b);
    }
  }

  lemma SourceWord(g: Dafsa, words: seq<Word>, bases: seq<nat>, r: Dafsa, a: nat) returns (k: nat)
    requires Chains(g) && ChainPerWord(g, words, bases) && Transposed(g, r) && Valid(r) && a < |r.source|
    ensures k < |words| && |words[k]| > 0 && r.source[a] == To(Mirror(g.next, bases[k])) && bases[k] in g.heap
    ensures g.heap[bases[k]].children == [Sink]
    ensures forall w :: Accepts(r.heap, r.source[a], w) ==> w == Reversed(Encoded(words[k]))
  {
    assert r.source[a] in r.source;
    SourceLinkIsEdge(g, r, r.source[a]);
    var i := Mirror(g.next, r.source[a].id);
    assert LinkNode(i, g.heap[i]);
    assert g.heap[i].children == [Sink] && i in bases;
    k :| 0 <= k < |bases| && bases[k] == i;
    assert WordChain(g.heap, g.source[k], words[k], bases[k]);
    forall w | Accepts(r.heap, r.source[a], w) ensures w == Reversed(Encoded(words[k])) {
      WordBackwards(g, words, bases, r, k, w);
    }
  }

  /** From its last character on, a word is spelled backwards. */
  lemma WordBackwards(g: Dafsa, words: seq<Word>, bases: seq<nat>, r: Dafsa, k: nat, w: Word)
    requires Chains(g) && ChainPerWord(g, words, bases) && Transposed(g, r) && Valid(r) && k < |words|
    requires Mirror(g.next, bases[k]) in r.heap && Accepts(r.heap, To(Mirror(g.next, bases[k])), w)
    ensures |words[k]| > 0 && w == Reversed(Encoded(words[k]))
  {
    assert WordChain(g.heap, g.source[k], words[k], bases[k]);
    var e := Encoded(words[k]);
    assert g.source[k] in g.source;
    assert e[..|e|] == e;
    ReversedChainSpells(g, r, bases[k], e, 0, w);
  }

  /** A source list without repetition lists every value in front of the sink once. */
  lemma ReversedSoleSinks(g: Dafsa, r: Dafsa)
    requires ReversedTrie(g) && Transposed(g, r) && GoodGraph(r)
    requires Distinct(g.source)
    ensures SoleSinks(r.heap)
  {
    forall j | j in r.heap && Sink in r.heap[j].children ensures |r.heap[j].children| == 1 {
      var children := r.heap[j].children;
      assert GoodNode(r.heap, j);
      assert forall c :: 0 <= c < |children| ==> children[c] == Sink;
      if |children| > 1 {
        Twice(children, 0, 1);
        assert Links(g.next, Walk(r.heap, r.source), Sink, To(Mirror(g.next, j))) == multiset(g.source)[To(Mirror(g.next, j))];
        NotTwice(g.source, To(Mirror(g.next, j)));
      }
    }
  }
}
