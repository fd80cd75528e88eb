/** The word graphs that make_dafsa.py transforms: a heap of labelled nodes between a source
    list and one sink, and the set of words such a graph spells. */
module DafsaGraph {
  /** Character codes. */
  type Word = seq<int>

  /** A reference to a node; the sink is Python's None. */
  datatype Ref = Sink | To(id: nat)

  /** An internal node: a label and the list of its children. */
  datatype Node = Node(text: Word, children: seq<Ref>)

  /** Objects by identity. */
  type Heap = map<nat, Node>

  /** A graph: its objects, the source list, and an identity above all those in use. */
  datatype Dafsa = Dafsa(heap: Heap, source: seq<Ref>, next: nat)

  ghost predicate ValidRef(h: Heap, r: Ref) {
    r.To? ==> r.id in h
  }

  ghost predicate ValidRefs(h: Heap, rs: seq<Ref>) {
    forall c :: c in rs ==> ValidRef(h, c)
  }

  /** Every node has a label and children, and children have smaller identities: no cycles. */
  ghost predicate ValidNode(h: Heap, i: nat, n: Node) {
    && |n.text| > 0
    && |n.children| > 0
    && ValidRefs(h, n.children)
    && forall c :: c in n.children && c.To? ==> c.id < i
  }

  ghost predicate ValidHeap(h: Heap) {
    forall i {:trigger ValidNode(h, i, h[i])} :: i in h ==> ValidNode(h, i, h[i])
  }

  ghost predicate Valid(g: Dafsa) {
    && ValidHeap(g.heap)
    && (forall i :: i in g.heap ==> i < g.next)
    && ValidRefs(g.heap, g.source)
  }

  /** `w` is spelled by the labels on some path from `r` to the sink. */
  ghost predicate Accepts(h: Heap, r: Ref, w: Word)
    decreases |w|, 0
  {
    match r
    case Sink => w == []
    case To(i) =>
      && i in h
      && 0 < |h[i].text| <= |w|
      && w[..|h[i].text|] == h[i].text
      && AcceptsAny(h, h[i].children, w[|h[i].text|..])
  }

  ghost predicate AcceptsAny(h: Heap, rs: seq<Ref>, w: Word)
    decreases |w|, 1
  {
    exists c :: c in rs && Accepts(h, c, w)
  }

  /** The words of a whole graph. */
  ghost predicate Spells(g: Dafsa, w: Word) {
    AcceptsAny(g.heap, g.source, w)
  }

  /** `to_words`, as the set that `join_suffixes` makes of it. */
  function Suffixes(h: Heap, r: Ref): (words: set<Word>)
    requires ValidHeap(h) && ValidRef(h, r)
    decreases if r.Sink? then 0 else r.id + 1
  {
    match r
    case Sink => {[]}
    case To(i) =>
      assert ValidNode(h, i, h[i]);
      set c, w | c in h[i].children && w in Suffixes(h, c) :: h[i].text + w
  }

  lemma {:induction false} SuffixesAreAccepted(h: Heap, r: Ref, w: Word)
    requires ValidHeap(h) && ValidRef(h, r)
    ensures w in Suffixes(h, r) <==> Accepts(h, r, w)
    decreases if r.Sink? then 0 else r.id + 1
  {
    if r.To? {
      var n := h[r.id];
      assert ValidNode(h, r.id, n);
      if w in Suffixes(h, r) {
        var c, v :| c in n.children && v in Suffixes(h, c) && w == n.text + v;
        SuffixesAreAccepted(h, c, v);
        assert w[|n.text|..] == v;
        assert AcceptsAny(h, n.children, v);
      }
      if Accepts(h, r, w) {
        var v := w[|n.text|..];
        assert w == n.text + v && AcceptsAny(h, n.children, v);
        var c :| c in n.children && Accepts(h, c, v);
        SuffixesAreAccepted(h, c, v);
      }
    }
  }

  /** Prefixing a node's label to a word of one of its children gives a word of the node. */
  lemma AcceptsStep(h: Heap, i: nat, c: Ref, v: Word)
    requires i in h && |h[i].text| > 0
    requires c in h[i].children && Accepts(h, c, v)
    ensures Accepts(h, To(i), h[i].text + v)
  {
    var w := h[i].text + v;
    assert w[..|h[i].text|] == h[i].text && w[|h[i].text|..] == v;
    assert AcceptsAny(h, h[i].children, v);
  }

  /** Every node spells some word. */
  lemma {:induction false} SomeWord(h: Heap, r: Ref) returns (w: Word)
    requires ValidHeap(h) && ValidRef(h, r)
    ensures Accepts(h, r, w)
    decreases if r.Sink? then 0 else r.id + 1
  {
    match r
    case Sink => w := [];
    case To(i) =>
      assert ValidNode(h, i, h[i]);
      var v := SomeWord(h, h[i].children[0]);
      AcceptsStep(h, i, h[i].children[0], v);
      w := h[i].text + v;
  }

  /** Same words from `r` in one heap and from `s` in another. */
  ghost predicate SameLanguage(h: Heap, r: Ref, k: Heap, s: Ref) {
    forall w :: Accepts(h, r, w) <==> Accepts(k, s, w)
  }

  lemma SameSuffixesSameLanguage(h: Heap, r: Ref, k: Heap, s: Ref)
    requires ValidHeap(h) && ValidRef(h, r) && ValidHeap(k) && ValidRef(k, s)
    ensures Suffixes(h, r) == Suffixes(k, s) <==> SameLanguage(h, r, k, s)
  {
    forall w ensures w in Suffixes(h, r) <==> Accepts(h, r, w) {
      SuffixesAreAccepted(h, r, w);
    }
    forall w ensures w in Suffixes(k, s) <==> Accepts(k, s, w) {
      SuffixesAreAccepted(k, s, w);
    }
  }

  /** The first character of a node. */
  ghost function Head(h: Heap, r: Ref): int
    requires ValidHeap(h) && ValidRef(h, r) && r.To?
  {
    assert ValidNode(h, r.id, h[r.id]);
    h[r.id].text[0]
  }

  /** Nodes with the same words begin with the same character, and only the sink spells "". */
  lemma SameLanguageSameHead(h: Heap, r: Ref, k: Heap, s: Ref)
    requires ValidHeap(h) && ValidRef(h, r) && ValidHeap(k) && ValidRef(k, s)
    requires SameLanguage(h, r, k, s)
    ensures r.Sink? <==> s.Sink?
    ensures r.To? ==> Head(h, r) == Head(k, s)
  {
    var w := SomeWord(h, r);
    assert Accepts(k, s, w);
    if r.To? && s.To? {
      assert ValidNode(h, r.id, h[r.id]) && ValidNode(k, s.id, k[s.id]);
      assert w[..|h[r.id].text|][0] == w[0] == w[..|k[s.id].text|][0];
    }
  }

  /** Growing the heap changes nothing for the references that were already valid. */
  lemma {:induction false} AcceptsExtended(h: Heap, k: Heap, r: Ref, w: Word)
    requires ValidHeap(h) && ValidRef(h, r)
    requires forall i :: i in h ==> i in k && k[i] == h[i]
    ensures Accepts(h, r, w) <==> Accepts(k, r, w)
    decreases |w|
  {
    if r.To? && 0 < |h[r.id].text| <= |w| {
      assert ValidNode(h, r.id, h[r.id]);
      var v := w[|h[r.id].text|..];
      forall c | c in h[r.id].children ensures Accepts(h, c, v) <==> Accepts(k, c, v) {
        AcceptsExtended(h, k, c, v);
      }
    }
  }

  lemma {:induction false} LanguageExtended(h: Heap, k: Heap, r: Ref)
    requires ValidHeap(h) && ValidRef(h, r)
    requires forall i :: i in h ==> i in k && k[i] == h[i]
    ensures SameLanguage(h, r, k, r)
  {
    forall w ensures Accepts(h, r, w) <==> Accepts(k, r, w) {
      AcceptsExtended(h, k, r, w);
    }
  }

  /** Two nodes with equal labels and pairwise equivalent children spell the same words. */
  lemma SameNodeSameLanguage(h: Heap, i: nat, k: Heap, j: nat)
    requires i in h && j in k && |h[i].text| > 0
    requires h[i].text == k[j].text && |h[i].children| == |k[j].children|
    requires forall c :: 0 <= c < |h[i].children| ==> SameLanguage(h, h[i].children[c], k, k[j].children[c])
    ensures SameLanguage(h, To(i), k, To(j))
  {
    forall w ensures Accepts(h, To(i), w) <==> Accepts(k, To(j), w) {
      if |h[i].text| <= |w| {
        SameChildrenSameWords(h, h[i].children, k, k[j].children, w[|h[i].text|..]);
      }
    }
  }

  lemma SameChildrenSameWords(h: Heap, rs: seq<Ref>, k: Heap, ss: seq<Ref>, v: Word)
    requires |rs| == |ss|
    requires forall c :: 0 <= c < |rs| ==> SameLanguage(h, rs[c], k, ss[c])
    ensures AcceptsAny(h, rs, v) <==> AcceptsAny(k, ss, v)
  {
    if AcceptsAny(h, rs, v) {
      var c :| 0 <= c < |rs| && Accepts(h, rs[c], v);
      assert SameLanguage(h, rs[c], k, ss[c]);
      assert ss[c] in ss;
    }
    if AcceptsAny(k, ss, v) {
      var c :| 0 <= c < |ss| && Accepts(k, ss[c], v);
      assert SameLanguage(h, rs[c], k, ss[c]);
      assert rs[c] in rs;
    }
  }

  /** A word or label backwards. */
  function Reversed<T>(s: seq<T>): (r: seq<T>)
    ensures |r| == |s|
    ensures forall i :: 0 <= i < |s| ==> r[i] == s[|s| - 1 - i]
  {
    seq(|s|, i requires 0 <= i < |s| => s[|s| - 1 - i])
  }

  lemma ReversedConcat<T>(a: seq<T>, b: seq<T>)
    ensures Reversed(a + b) == Reversed(b) + Reversed(a)
  {
  }

  lemma ReversedTwice<T>(a: seq<T>)
    ensures Reversed(Reversed(a)) == a
  {
  }

  // Character classes

  /** A printable 7-bit character, as `to_dafsa` demands of every input character. */
  predicate Printable(c: int) {
    0x1F < c < 0x80
  }

  /** A return value: the low four bits of the last character of a word. */
  predicate IsValue(c: int) {
    0 <= c < 0x10
  }

  // Shapes

  /** A label of printable characters, except that a label in front of the sink, and no other,
      ends in a return value. */
  ghost predicate Shaped(n: Node) {
    && |n.text| > 0 && |n.children| > 0
    && (forall k :: 0 <= k < |n.text| - 1 ==> Printable(n.text[k]))
    && (if Sink in n.children then IsValue(n.text[|n.text| - 1]) else Printable(n.text[|n.text| - 1]))
  }

  /** Lookup can choose among these without backtracking: either all are the sink, or none is
      and no two begin with the same character. */
  ghost predicate Deterministic(h: Heap, rs: seq<Ref>)
    requires ValidHeap(h) && ValidRefs(h, rs)
  {
    || (forall a :: 0 <= a < |rs| ==> rs[a] == Sink)
    || ((forall a :: 0 <= a < |rs| ==> rs[a].To?) &&
        forall a, b :: 0 <= a < b < |rs| ==> Head(h, rs[a]) != Head(h, rs[b]))
  }

  ghost predicate GoodNode(h: Heap, i: nat)
    requires ValidHeap(h) && i in h
  {
    assert ValidNode(h, i, h[i]);
    Shaped(h[i]) && Deterministic(h, h[i].children)
  }

  /** What the encoder and the lookup rely on. */
  ghost predicate GoodGraph(g: Dafsa) {
    && Valid(g)
    && (forall i {:trigger GoodNode(g.heap, i)} :: i in g.heap ==> GoodNode(g.heap, i))
    && Deterministic(g.heap, g.source)
    && Sink !in g.source
    && |g.source| > 0
  }
}
