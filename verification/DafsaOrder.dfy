/** In which order the trie lists the words: by the first word of the list that has a prefix. That decides
    which node of a value is the first, and so what becomes of repeated words. */
module DafsaOrder {
  import opened DafsaGraph
  import opened DafsaBuild
  import opened DafsaReverse
  import opened DafsaJoinSuffixes
  import opened DafsaTopSort
  import opened DafsaStages
  import opened DafsaRepeats

  // Words

  /** The words as the graph spells them. */
  ghost function Encodings(words: seq<Word>): (es: seq<Word>)
    ensures |es| == |words| && forall k :: 0 <= k < |words| && |words[k]| > 0 ==> es[k] == Encoded(words[k])
  {
    seq(|words|, k requires 0 <= k < |words| => if |words[k]| > 0 then Encoded(words[k]) else [])
  }

  /** The first word that begins with `p`. */
  ghost function FirstWith(es: seq<Word>, p: Word): (k: nat)
    ensures k <= |es| && (k < |es| ==> p <= es[k]) && forall l :: 0 <= l < k ==> !(p <= es[l])
  {
    if es == [] || p <= es[0] then 0 else
      var k := FirstWith(es[1..], p);
      assert forall l :: 1 <= l < k + 1 ==> es[l] == es[1..][l - 1];
      k + 1
  }

  /** Where the two part, the prefix of `e` was listed first. */
  ghost predicate PartAt(es: seq<Word>, e: Word, f: Word, n: nat) {
    && n < |e| && n < |f| && e[..n] == f[..n] && e[n] != f[n]
    && FirstWith(es, e[..n + 1]) < FirstWith(es, f[..n + 1])
  }

  /** A depth-first walk over the trie of the list meets `e` before `f`. */
  ghost predicate Sooner(es: seq<Word>, e: Word, f: Word) {
    exists n :: PartAt(es, e, f, n)
  }

  lemma SoonerAsymmetric(es: seq<Word>, e: Word, f: Word)
    requires Sooner(es, e, f)
    ensures !Sooner(es, f, e) && e != f
  {
    var n: nat :| PartAt(es, e, f, n);
    forall m: nat ensures !PartAt(es, f, e, m) {
      assert m < n ==> m >= |f| || m >= |e| || e[..n][m] == f[..n][m];
      assert n < m <= |e| && m <= |f| ==> e[..m][n] == e[n] && f[..m][n] == f[n];
    }
  }

  lemma SoonerExtended(es: seq<Word>, p: Word, c: int, d: int, e: Word, f: Word)
    requires c != d && p + [c] <= e && p + [d] <= f && FirstWith(es, p + [c]) < FirstWith(es, p + [d])
    ensures Sooner(es, e, f)
  {
    assert e[..|p| + 1] == p + [c] && f[..|p| + 1] == p + [d];
    assert e[..|p|] == e[..|p| + 1][..|p|] && f[..|p|] == f[..|p| + 1][..|p|];
    assert e[|p|] == e[..|p| + 1][|p|] && f[|p|] == f[..|p| + 1][|p|];
    assert PartAt(es, e, f, |p|);
  }

  ghost predicate SameValue(e: Word, f: Word) {
    |e| > 0 && |f| > 0 && e[|e| - 1] == f[|f| - 1]
  }

  /** The word occurs twice, and the walk meets it before all others of its value. */
  ghost predicate RepeatedAt(es: seq<Word>, k: nat, l: nat) {
    && k < l < |es| && es[k] == es[l] && |es[k]| > 0
    && forall m :: 0 <= m < |es| && SameValue(es[m], es[k]) ==> es[m] == es[k] || Sooner(es, es[k], es[m])
  }

  /** The first word of some value, in the order of a walk over the trie, is repeated. */
  ghost predicate RepeatedFirst(words: seq<Word>) {
    exists k, l :: RepeatedAt(Encodings(words), k, l)
  }

  // The first reversal keeps the order of the words

  lemma {:induction false} ChainLeads(h: Heap, base: nat, e: Word, j: nat, i: nat)
    requires ValidHeap(h) && Chain(h, base, e) && j < |e| && base + j in h
    ensures Leads(h, To(base + j), i) <==> base <= i <= base + j
    decreases j
  {
    assert ChainAt(h, base, e, j);
    assert h[base + j].children == [if j == 0 then Sink else To(base + j - 1)];
    assert ValidNode(h, base + j, h[base + j]) && h[base + j].children[0] in h[base + j].children;
    if j > 0 {
      ChainLeads(h, base, e, j - 1, i);
    }
  }

  lemma WordLeads(g: Dafsa, words: seq<Word>, bases: seq<nat>, k: nat, i: nat)
    requires Valid(g) && ChainPerWord(g, words, bases) && k < |words|
    ensures g.source[k].To? && g.source[k].id in g.heap
    ensures Leads(g.heap, g.source[k], i) <==> bases[k] <= i < bases[k] + |words[k]|
  {
    assert WordChain(g.heap, g.source[k], words[k], bases[k]);
    assert g.source[k] in g.source;
    ChainLeads(g.heap, bases[k], Encoded(words[k]), |words[k]| - 1, i);
  }

  lemma ChainTurn(g: Dafsa, words: seq<Word>, bases: seq<nat>, k: nat)
    requires Valid(g) && ChainPerWord(g, words, bases) && k < |words|
    ensures Turn(g, bases[k]) == k
  {
    assert WordChain(g.heap, g.source[k], words[k], bases[k]);
    WordLeads(g, words, bases, k, bases[k]);
    var l := Turn(g, bases[k]);
    if l < k {
      WordLeads(g, words, bases, l, bases[k]);
    }
  }

  lemma WordVisited(g: Dafsa, words: seq<Word>, bases: seq<nat>, r: Dafsa, k: nat)
    requires Chains(g) && ChainPerWord(g, words, bases) && Transposed(g, r) && k < |words|
    ensures To(Mirror(g.next, bases[k])) in r.source
  {
    var s := Walk(r.heap, r.source);
    assert WordChain(g.heap, g.source[k], words[k], bases[k]) && ChainAt(g.heap, bases[k], Encoded(words[k]), 0);
    assert g.source[k] in g.source;
    SourceEdgeIsLink(g, r, g.source[k]);
    WordLeads(g, words, bases, k, bases[k]);
    assert AllRecorded(g, s);
    LeadsVisited(g, s, g.source[k], bases[k]);
    assert Sink in g.heap[bases[k]].children;
    EdgeIsLink(g, r, bases[k], Sink);
  }

  /** An increasing sequence of numbers below `n` that leaves out none. */
  ghost predicate Increasing(ks: seq<nat>, n: nat) {
    && (forall b, c :: 0 <= b < c < |ks| ==> ks[b] < ks[c])
    && (forall a :: 0 <= a < |ks| ==> ks[a] < n)
    && forall k :: 0 <= k < n ==> k in ks
  }

  lemma {:induction false} IncreasingAt(ks: seq<nat>, n: nat, a: nat)
    requires Increasing(ks, n) && a < |ks|
    ensures ks[a] == a
  {
    if a > 0 {
      IncreasingAt(ks, n, a - 1);
    }
    if ks[a] > a {
      assert a in ks;
    }
  }

  lemma IncreasingIsAll(ks: seq<nat>, n: nat)
    requires Increasing(ks, n)
    ensures |ks| == n && forall a :: 0 <= a < n ==> ks[a] == a
  {
    forall a | 0 <= a < |ks| ensures ks[a] == a {
      IncreasingAt(ks, n, a);
    }
    assert |ks| < n ==> |ks| in ks;
    if n < |ks| {
      IncreasingAt(ks, n, n);
    }
  }

  ghost function Turns(g: Dafsa, rs: seq<Ref>): (ks: seq<nat>)
    requires Valid(g) && forall a :: 0 <= a < |rs| ==> rs[a].To?
    ensures |ks| == |rs| && forall a :: 0 <= a < |rs| ==> ks[a] == TurnOf(g, rs[a])
  {
    seq(|rs|, a requires 0 <= a < |rs| => TurnOf(g, rs[a]))
  }

  lemma TurnsIncrease(g: Dafsa, words: seq<Word>, bases: seq<nat>, r: Dafsa, b: nat, c: nat)
    requires Chains(g) && ChainPerWord(g, words, bases) && Transposed(g, r) && Valid(r) && WalkOrder(g, r)
    requires b < c < |r.source|
    ensures r.source[b].To? && r.source[c].To? && TurnOf(g, r.source[b]) < TurnOf(g, r.source[c])
  {
    SourceTurn(g, words, bases, r, b);
    SourceTurn(g, words, bases, r, c);
    RootsDiffer(g, r, b, c);
  }

  lemma TurnsOnto(g: Dafsa, words: seq<Word>, bases: seq<nat>, r: Dafsa, k: nat)
    requires Chains(g) && ChainPerWord(g, words, bases) && Transposed(g, r) && k < |words|
    requires forall a :: 0 <= a < |r.source| ==> r.source[a].To?
    ensures k in Turns(g, r.source)
  {
    WordVisited(g, words, bases, r, k);
    ChainTurn(g, words, bases, k);
    var a :| 0 <= a < |r.source| && r.source[a] == To(Mirror(g.next, bases[k]));
    assert WordChain(g.heap, g.source[k], words[k], bases[k]) && ChainAt(g.heap, bases[k], Encoded(words[k]), 0);
    assert Mirror(g.next, Mirror(g.next, bases[k])) == bases[k];
    assert Turns(g, r.source)[a] == k;
  }

  /** The source list of the reversed chains has the last characters of the words, in their order. */
  lemma SourcesInOrder(g: Dafsa, words: seq<Word>, bases: seq<nat>, r: Dafsa)
    requires Chains(g) && ChainPerWord(g, words, bases) && Transposed(g, r) && Valid(r) && WalkOrder(g, r)
    ensures |r.source| == |words| && forall k :: 0 <= k < |words| ==> r.source[k] == To(Mirror(g.next, bases[k]))
  {
    forall a | 0 <= a < |r.source|
      ensures r.source[a].To? && TurnOf(g, r.source[a]) < |words|
      ensures r.source[a] == To(Mirror(g.next, bases[TurnOf(g, r.source[a])]))
    {
      SourceTurn(g, words, bases, r, a);
    }
    var ks := Turns(g, r.source);
    forall b, c | 0 <= b < c < |ks| ensures ks[b] < ks[c] {
      TurnsIncrease(g, words, bases, r, b, c);
    }
    forall k | 0 <= k < |words| ensures k in ks {
      TurnsOnto(g, words, bases, r, k);
    }
    IncreasingIsAll(ks, |words|);
  }

  lemma SourceTurn(g: Dafsa, words: seq<Word>, bases: seq<nat>, r: Dafsa, a: nat)
    requires Chains(g) && ChainPerWord(g, words, bases) && Transposed(g, r) && Valid(r) && a < |r.source|
    ensures r.source[a].To? && TurnOf(g, r.source[a]) < |words|
    ensures r.source[a] == To(Mirror(g.next, bases[TurnOf(g, r.source[a])]))
  {
    var k := SourceWord(g, words, bases, r, a);
    ChainTurn(g, words, bases, k);
    assert Mirror(g.next, Mirror(g.next, bases[k])) == bases[k];
  }

  // Nodes of a joined reversed trie stand for prefixes of the words

  ghost function PrefixOf(g: Dafsa, r: Ref): Word
    requires ReversedTrie(g) && ValidRef(g.heap, r)
    decreases if r.Sink? then 0 else r.id + 1
  {
    match r
    case Sink => []
    case To(i) =>
      assert TrieNode(g.heap, i) && ValidNode(g.heap, i, g.heap[i]);
      PrefixOf(g, g.heap[i].children[0]) + g.heap[i].text
  }

  lemma {:induction false} PrefixAccepted(g: Dafsa, r: Ref, w: Word)
    requires ReversedTrie(g) && ValidRef(g.heap, r)
    ensures Accepts(g.heap, r, w) <==> w == Reversed(PrefixOf(g, r))
    decreases if r.Sink? then 0 else r.id + 1
  {
    if r.To? {
      var n := g.heap[r.id];
      assert TrieNode(g.heap, r.id) && ValidNode(g.heap, r.id, n);
      var c := n.children[0];
      if |w| > 0 {
        PrefixAccepted(g, c, w[1..]);
      }
      AcceptsOne(g.heap, r.id, w);
      LongerPrefix(PrefixOf(g, c), n.text, w);
    }
  }

  lemma AcceptsOne(h: Heap, i: nat, w: Word)
    requires i in h && |h[i].text| == 1 && |h[i].children| == 1
    ensures Accepts(h, To(i), w) <==> |w| > 0 && [w[0]] == h[i].text && Accepts(h, h[i].children[0], w[1..])
  {
    if |w| > 0 {
      assert w[..1] == [w[0]];
      assert AcceptsAny(h, h[i].children, w[1..]) <==> Accepts(h, h[i].children[0], w[1..]);
    }
  }

  lemma LongerPrefix(p: Word, text: Word, w: Word)
    requires |text| == 1
    ensures w == Reversed(p + text) <==> |w| > 0 && [w[0]] == text && w[1..] == Reversed(p)
  {
    ReversedConcat(p, text);
    assert Reversed(text) == text;
    assert |w| > 0 ==> w == [w[0]] + w[1..];
  }

  lemma PrefixKnown(g: Dafsa, i: nat, j: nat)
    requires ReversedTrie(g) && Injective(g.heap) && i in g.heap && j in g.heap
    requires PrefixOf(g, To(i)) == PrefixOf(g, To(j))
    ensures i == j
  {
    forall w ensures Accepts(g.heap, To(i), w) <==> Accepts(g.heap, To(j), w) {
      PrefixAccepted(g, To(i), w);
      PrefixAccepted(g, To(j), w);
    }
    assert SameLanguage(g.heap, To(i), g.heap, To(j));
  }

  /** A node leads to another iff it stands for an extension of its prefix. */
  lemma {:induction false} LeadsPrefix(g: Dafsa, r: Ref, i: nat)
    requires ReversedTrie(g) && Injective(g.heap) && ValidRef(g.heap, r) && i in g.heap
    ensures Leads(g.heap, r, i) <==> PrefixOf(g, To(i)) <= PrefixOf(g, r)
    decreases if r.Sink? then 0 else r.id + 1
  {
    assert TrieNode(g.heap, i) && |PrefixOf(g, To(i))| > 0;
    if r.To? {
      var n := g.heap[r.id];
      assert TrieNode(g.heap, r.id) && ValidNode(g.heap, r.id, n);
      var c := n.children[0];
      LeadsPrefix(g, c, i);
      var p, q := PrefixOf(g, To(i)), PrefixOf(g, c);
      assert p <= q + n.text <==> p <= q || p == q + n.text;
      if p == q + n.text {
        PrefixKnown(g, i, r.id);
      }
    }
  }

  /** The source list stands for these words. */
  ghost predicate Lists(g: Dafsa, es: seq<Word>) {
    && ReversedTrie(g) && Injective(g.heap) && |g.source| == |es|
    && forall k :: 0 <= k < |es| ==> PrefixOf(g, g.source[k]) == es[k]
  }

  lemma TurnIsFirst(g: Dafsa, es: seq<Word>, i: nat)
    requires Lists(g, es) && i in g.heap
    ensures Turn(g, i) == FirstWith(es, PrefixOf(g, To(i)))
  {
    forall k | 0 <= k < |es| ensures Leads(g.heap, g.source[k], i) <==> PrefixOf(g, To(i)) <= es[k] {
      assert g.source[k] in g.source;
      LeadsPrefix(g, g.source[k], i);
    }
  }

  lemma ReversedChainLists(g: Dafsa, words: seq<Word>, bases: seq<nat>, r: Dafsa, k: nat)
    requires Chains(g) && ChainPerWord(g, words, bases) && Transposed(g, r) && ReversedTrie(r) && k < |words|
    requires k < |r.source| && r.source[k] == To(Mirror(g.next, bases[k]))
    ensures PrefixOf(r, r.source[k]) == Encodings(words)[k]
  {
    assert r.source[k] in r.source;
    var p := PrefixOf(r, r.source[k]);
    PrefixAccepted(r, r.source[k], Reversed(p));
    WordBackwards(g, words, bases, r, k, Reversed(p));
    ReversedTwice(Encoded(words[k]));
    ReversedTwice(p);
  }

  lemma SameLanguageSamePrefix(g: Dafsa, r: Ref, t: Dafsa, s: Ref)
    requires ReversedTrie(g) && ValidRef(g.heap, r) && ReversedTrie(t) && ValidRef(t.heap, s)
    requires SameLanguage(g.heap, r, t.heap, s)
    ensures PrefixOf(g, r) == PrefixOf(t, s)
  {
    var w := Reversed(PrefixOf(g, r));
    PrefixAccepted(g, r, w);
    PrefixAccepted(t, s, w);
    ReversedTwice(PrefixOf(g, r));
    ReversedTwice(PrefixOf(t, s));
  }

  /** After the first reversal and joining the source list stands for the words, in their order. */
  lemma JoinedLists(g: Dafsa, words: seq<Word>, bases: seq<nat>, r: Dafsa, t: Dafsa)
    requires Chains(g) && ChainPerWord(g, words, bases) && Transposed(g, r) && WalkOrder(g, r) && SuffixesJoined(r, t)
    ensures Lists(t, Encodings(words))
  {
    ChainsReversed(g, r);
    ReversedTrieJoined(r, t);
    SourcesInOrder(g, words, bases, r);
    forall k | 0 <= k < |words| ensures PrefixOf(t, t.source[k]) == Encodings(words)[k] {
      ReversedChainLists(g, words, bases, r, k);
      assert r.source[k] in r.source && t.source[k] in t.source;
      SameLanguageSamePrefix(r, r.source[k], t, t.source[k]);
    }
  }

  // The trie lists its children by the first word that has their prefix

  /** `r` is the trie of the words that `g` lists backwards. */
  ghost predicate Trie(g: Dafsa, r: Dafsa, es: seq<Word>) {
    Lists(g, es) && Transposed(g, r) && WalkOrder(g, r) && GoodGraph(r)
  }

  /** What a path from the source list of the trie to node `j` spells. */
  ghost function PathOf(g: Dafsa, j: nat): Word
    requires ReversedTrie(g) && Mirror(g.next, j) in g.heap
  {
    PrefixOf(g, To(Mirror(g.next, j)))
  }

  /** The recorded list of `y`, which is no value. */
  ghost predicate Branch(g: Dafsa, r: Dafsa, y: Ref, rs: seq<Ref>)
    requires Valid(g)
  {
    Recorders(g, r, y, rs) && y !in g.source && ValidRef(g.heap, y) && InTurn(g, rs)
  }

  lemma ChildPath(g: Dafsa, r: Dafsa, es: seq<Word>, y: Ref, rs: seq<Ref>, c: Ref)
    requires Trie(g, r, es) && Branch(g, r, y, rs) && c in rs
    ensures c.To? && c.id in r.heap && Mirror(g.next, c.id) in g.heap && |r.heap[c.id].text| == 1
    ensures PathOf(g, c.id) == PrefixOf(g, y) + r.heap[c.id].text
  {
    TrieLink(g, r, y, rs, c);
  }

  lemma SiblingsInOrder(g: Dafsa, r: Dafsa, es: seq<Word>, y: Ref, rs: seq<Ref>, a: nat, b: nat)
    requires Trie(g, r, es) && Branch(g, r, y, rs) && a < b < |rs|
    requires rs[a].To? && rs[a].id in r.heap && rs[b].To? && rs[b].id in r.heap
    ensures r.heap[rs[a].id].text != r.heap[rs[b].id].text
    ensures Mirror(g.next, rs[a].id) in g.heap && Mirror(g.next, rs[b].id) in g.heap
    ensures FirstWith(es, PathOf(g, rs[a].id)) < FirstWith(es, PathOf(g, rs[b].id))
  {
    ChildPath(g, r, es, y, rs, rs[a]);
    ChildPath(g, r, es, y, rs, rs[b]);
    TrieLinksDiffer(g, r, y, rs, a, b);
    FirstInTurn(g, r, es, rs, a, b);
    SamePrefix(es[FirstWith(es, PathOf(g, rs[b].id))], PrefixOf(g, y), r.heap[rs[a].id].text, r.heap[rs[b].id].text);
  }

  lemma FirstInTurn(g: Dafsa, r: Dafsa, es: seq<Word>, rs: seq<Ref>, a: nat, b: nat)
    requires Lists(g, es) && WalkOrder(g, r) && InTurn(g, rs) && a < b < |rs| && rs[a].To? && rs[b].To? && rs[b].id in r.heap
    requires Mirror(g.next, rs[a].id) in g.heap && Mirror(g.next, rs[b].id) in g.heap
    ensures FirstWith(es, PathOf(g, rs[a].id)) <= FirstWith(es, PathOf(g, rs[b].id)) < |es|
  {
    TurnIsFirst(g, es, Mirror(g.next, rs[a].id));
    TurnIsFirst(g, es, Mirror(g.next, rs[b].id));
    assert TurnOf(g, rs[a]) <= TurnOf(g, rs[b]) && TurnOf(g, To(rs[b].id)) < |g.source|;
  }

  lemma SamePrefix(e: Word, p: Word, c: Word, d: Word)
    requires |c| == |d| && c != d && p + d <= e
    ensures !(p + c <= e)
  {
    assert e[|p|..|p + d|] == d;
    assert (p + c)[|p|..] == c;
  }

  /** Nodes whose paths extend `p`. */
  ghost predicate AllBelow(g: Dafsa, v: seq<nat>, p: Word)
    requires ReversedTrie(g)
  {
    forall x :: x in v ==> Mirror(g.next, x) in g.heap && p <= PathOf(g, x)
  }

  /** The nodes come in the order of the walk. */
  ghost predicate InWalk(g: Dafsa, es: seq<Word>, v: seq<nat>)
    requires ReversedTrie(g) && AllBelow(g, v, [])
  {
    forall a, b :: 0 <= a < b < |v| ==> Sooner(es, PathOf(g, v[a]), PathOf(g, v[b]))
  }

  lemma {:induction false} ValuesWalked(g: Dafsa, r: Dafsa, es: seq<Word>, j: nat)
    requires Trie(g, r, es) && j in r.heap
    ensures Mirror(g.next, j) in g.heap
    ensures var v := ValueOrder(r.heap, To(j)); AllBelow(g, v, PathOf(g, j)) && InWalk(g, es, v)
    decreases j + 1, 0
  {
    var i, children := Mirror(g.next, j), r.heap[j].children;
    assert ValidNode(r.heap, j, r.heap[j]);
    if !OnlySinks(r.heap[j]) {
      NotAValue(g, r, es, j);
      ValuesOfWalked(g, r, es, To(i), children, j, |children|);
    }
  }

  lemma NotAValue(g: Dafsa, r: Dafsa, es: seq<Word>, j: nat)
    requires Trie(g, r, es) && j in r.heap && !OnlySinks(r.heap[j])
    ensures Mirror(g.next, j) in g.heap && Branch(g, r, To(Mirror(g.next, j)), r.heap[j].children)
  {
    var i := Mirror(g.next, j);
    assert Mirror(g.next, i) == j;
    if To(i) in g.source {
      assert TrieNode(g.heap, i);
      var c :| c in r.heap[j].children && c != Sink;
      ValueInFrontOfSink(g, r, j, c);
    }
  }

  lemma {:induction false} ValuesOfWalked(g: Dafsa, r: Dafsa, es: seq<Word>, y: Ref, rs: seq<Ref>, n: nat, k: nat)
    requires Trie(g, r, es) && Branch(g, r, y, rs) && Bounded(r.heap, rs, n) && k <= |rs|
    ensures var v := ValuesOf(r.heap, rs, n, k);
            AllBelow(g, v, PrefixOf(g, y)) && InWalk(g, es, v) && forall x :: x in v ==> BelowOneOf(g, rs, k, x)
    decreases n, k
  {
    if k > 0 {
      var m: nat := k - 1;
      var before, later := ValuesOf(r.heap, rs, n, m), ValueOrder(r.heap, rs[m]);
      ValuesOfWalked(g, r, es, y, rs, n, m);
      ChildPath(g, r, es, y, rs, rs[m]);
      ValuesWalked(g, r, es, rs[m].id);
      forall x, z | x in before && z in later ensures Sooner(es, PathOf(g, x), PathOf(g, z)) {
        AcrossBranches(g, r, es, y, rs, m, x, z);
      }
      forall x | x in before + later ensures BelowOneOf(g, rs, k, x) {
        OneOfMore(g, rs, m, x);
      }
      WalkJoined(g, es, before, later);
    }
  }

  ghost predicate BelowAt(g: Dafsa, rs: seq<Ref>, c: nat, x: nat)
    requires ReversedTrie(g)
  {
    && c < |rs| && rs[c].To? && Mirror(g.next, rs[c].id) in g.heap && Mirror(g.next, x) in g.heap
    && PathOf(g, rs[c].id) <= PathOf(g, x)
  }

  /** The path to `x` goes through one of the first `k`. */
  ghost predicate BelowOneOf(g: Dafsa, rs: seq<Ref>, k: nat, x: nat)
    requires ReversedTrie(g)
  {
    exists c: nat :: c < k && BelowAt(g, rs, c, x)
  }

  lemma OneOfMore(g: Dafsa, rs: seq<Ref>, m: nat, x: nat)
    requires ReversedTrie(g) && (BelowOneOf(g, rs, m, x) || BelowAt(g, rs, m, x))
    ensures BelowOneOf(g, rs, m + 1, x)
  {
    if BelowOneOf(g, rs, m, x) {
      var c: nat :| c < m && BelowAt(g, rs, c, x);
    }
  }

  lemma AcrossBranches(g: Dafsa, r: Dafsa, es: seq<Word>, y: Ref, rs: seq<Ref>, m: nat, x: nat, z: nat)
    requires Trie(g, r, es) && Branch(g, r, y, rs) && m < |rs| && BelowOneOf(g, rs, m, x)
    requires rs[m].To? && BelowAt(g, rs, m, z)
    ensures Sooner(es, PathOf(g, x), PathOf(g, z))
  {
    var c: nat :| c < m && BelowAt(g, rs, c, x);
    ChildPath(g, r, es, y, rs, rs[c]);
    ChildPath(g, r, es, y, rs, rs[m]);
    SiblingsInOrder(g, r, es, y, rs, c, m);
    var t, u := r.heap[rs[c].id].text, r.heap[rs[m].id].text;
    assert t == [t[0]] && u == [u[0]];
    SoonerExtended(es, PrefixOf(g, y), t[0], u[0], PathOf(g, x), PathOf(g, z));
  }

  lemma WalkJoined(g: Dafsa, es: seq<Word>, v: seq<nat>, w: seq<nat>)
    requires ReversedTrie(g) && AllBelow(g, v, []) && AllBelow(g, w, []) && InWalk(g, es, v) && InWalk(g, es, w)
    requires forall x, z :: x in v && z in w ==> Sooner(es, PathOf(g, x), PathOf(g, z))
    ensures AllBelow(g, v + w, []) && InWalk(g, es, v + w)
  {
    forall a, b | 0 <= a < b < |v + w| ensures Sooner(es, PathOf(g, (v + w)[a]), PathOf(g, (v + w)[b])) {
      if a < |v| <= b {
        assert v[a] in v && w[b - |v|] in w;
      }
    }
  }

  // The values of the trie are the words

  lemma {:induction false} InValuesOf(h: Heap, rs: seq<Ref>, n: nat, k: nat, a: nat, x: nat)
    requires ValidHeap(h) && Bounded(h, rs, n) && a < k <= |rs| && x in ValueOrder(h, rs[a])
    ensures x in ValuesOf(h, rs, n, k)
    decreases k
  {
    if a < k - 1 {
      InValuesOf(h, rs, n, k - 1, a, x);
    }
  }

  lemma BoundedChildren(h: Heap, i: nat)
    requires ValidHeap(h) && i in h
    ensures Bounded(h, h[i].children, i)
  {
    assert ValidNode(h, i, h[i]);
  }

  /** The walk comes to every node of the trie. */
  lemma {:induction false} ValuesMet(g: Dafsa, r: Dafsa, es: seq<Word>, j: nat, x: nat)
    requires Trie(g, r, es) && j in r.heap && x in ValueOrder(r.heap, To(j))
    ensures x in Values(r)
    decreases Mirror(g.next, j)
  {
    var i := Mirror(g.next, j);
    assert Mirror(g.next, i) == j && TrieNode(g.heap, i) && ValidNode(g.heap, i, g.heap[i]);
    var y := g.heap[i].children[0];
    assert y in g.heap[i].children;
    EdgeIsLink(g, r, i, y);
    if y.Sink? {
      var a :| 0 <= a < |r.source| && r.source[a] == To(j);
      InValuesOf(r.heap, r.source, r.next, |r.source|, a, x);
    } else {
      var m := Mirror(g.next, y.id);
      assert Mirror(g.next, m) == y.id;
      var a :| 0 <= a < |r.heap[m].children| && r.heap[m].children[a] == To(j);
      BoundedChildren(r.heap, m);
      InValuesOf(r.heap, r.heap[m].children, m, |r.heap[m].children|, a, x);
      ValuesMet(g, r, es, m, x);
    }
  }

  /** Each word has a value in the trie. */
  lemma WordMet(g: Dafsa, r: Dafsa, es: seq<Word>, k: nat) returns (x: nat)
    requires Trie(g, r, es) && k < |es|
    ensures x in Values(r) && x in r.heap && Mirror(g.next, x) in g.heap && PathOf(g, x) == es[k]
    ensures g.source[k] == To(Mirror(g.next, x))
  {
    assert g.source[k] in g.source;
    SourceEdgeIsLink(g, r, g.source[k]);
    var i := g.source[k].id;
    x := Mirror(g.next, i);
    assert Mirror(g.next, x) == i && TrieNode(g.heap, i) && To(i) in g.source;
    forall c | c in r.heap[x].children ensures c == Sink {
      ValueInFrontOfSink(g, r, x, c);
    }
    assert OnlySinks(r.heap[x]);
    ValuesMet(g, r, es, x, x);
  }

  /** And every value of the trie is the end of a word. */
  lemma ValueIsWord(g: Dafsa, r: Dafsa, es: seq<Word>, x: nat) returns (k: nat)
    requires Trie(g, r, es) && x in Values(r)
    ensures x in r.heap && OnlySinks(r.heap[x]) && Mirror(g.next, x) in g.heap
    ensures k < |es| && es[k] == PathOf(g, x) && g.source[k] == To(Mirror(g.next, x))
  {
    var c, u := ValueBelowOne(r.heap, r.source, r.next, |r.source|, x);
    assert ValidNode(r.heap, x, r.heap[x]);
    assert r.heap[x].children[0] in r.heap[x].children;
    LinkIsEdge(g, r, x, Sink);
    k :| 0 <= k < |g.source| && g.source[k] == To(Mirror(g.next, x));
  }

  /** The label of a value is the last character of its word. */
  lemma ValueText(g: Dafsa, r: Dafsa, es: seq<Word>, x: nat)
    requires Trie(g, r, es) && x in r.heap
    ensures Mirror(g.next, x) in g.heap && |PathOf(g, x)| > 0
    ensures r.heap[x].text == [PathOf(g, x)[|PathOf(g, x)| - 1]]
  {
    var i := Mirror(g.next, x);
    assert TrieNode(g.heap, i);
    assert r.heap[x].text == Reversed(g.heap[i].text) == g.heap[i].text;
  }

  lemma {:induction false} OccursTwice<T>(s: seq<T>, x: T)
    requires multiset(s)[x] >= 2
    ensures exists a, b :: 0 <= a < b < |s| && s[a] == x && s[b] == x
    decreases |s|
  {
    var n := |s| - 1;
    assert s == s[..n] + [s[n]];
    if s[n] == x {
      assert multiset(s[..n])[x] >= 1;
      assert x in s[..n];
      var a :| 0 <= a < n && s[..n][a] == x;
      assert s[a] == x;
    } else {
      OccursTwice(s[..n], x);
      var a, b :| 0 <= a < b < n && s[..n][a] == x && s[..n][b] == x;
      assert s[a] == x && s[b] == x;
    }
  }

  /** A value lists the sink as often as its word occurs. */
  lemma SinksAreOccurrences(g: Dafsa, r: Dafsa, es: seq<Word>, x: nat)
    requires Trie(g, r, es) && x in r.heap && OnlySinks(r.heap[x])
    ensures Mirror(g.next, x) in g.heap && |r.heap[x].children| == multiset(g.source)[To(Mirror(g.next, x))]
  {
    var children := r.heap[x].children;
    forall k | 0 <= k < |children| ensures children[k] == Sink {
      assert children[k] in children;
    }
    AllTheSame(children, Sink);
    assert Mirror(g.next, Mirror(g.next, x)) == x;
    assert Links(g.next, Walk(r.heap, r.source), Sink, To(Mirror(g.next, x))) == multiset(g.source)[To(Mirror(g.next, x))];
  }

  lemma SameWordSameSource(g: Dafsa, es: seq<Word>, k: nat, l: nat)
    requires Lists(g, es) && k < |es| && l < |es| && es[k] == es[l]
    ensures g.source[k] == g.source[l]
  {
    assert g.source[k] in g.source && g.source[l] in g.source;
    PrefixKnown(g, g.source[k].id, g.source[l].id);
  }

  lemma RepeatsShow(g: Dafsa, r: Dafsa, es: seq<Word>, a: nat) returns (k: nat, l: nat)
    requires Trie(g, r, es) && RepeatsAt(r, a)
    ensures RepeatedAt(es, k, l)
  {
    var v := Values(r);
    var x := v[a];
    var k0 := ValueIsWord(g, r, es, x);
    SinksAreOccurrences(g, r, es, x);
    OccursTwice(g.source, To(Mirror(g.next, x)));
    k, l :| 0 <= k < l < |g.source| && g.source[k] == To(Mirror(g.next, x)) && g.source[l] == To(Mirror(g.next, x));
    assert es[k] == PathOf(g, x) && es[l] == PathOf(g, x);
    ValueText(g, r, es, x);
    forall m | 0 <= m < |es| && SameValue(es[m], es[k]) ensures es[m] == es[k] || Sooner(es, es[k], es[m]) {
      LaterInWalk(g, r, es, a, m);
    }
  }

  lemma LaterInWalk(g: Dafsa, r: Dafsa, es: seq<Word>, a: nat, m: nat)
    requires Trie(g, r, es) && RepeatsAt(r, a) && Mirror(g.next, Values(r)[a]) in g.heap
    requires m < |es| && SameValue(es[m], PathOf(g, Values(r)[a]))
    ensures es[m] == PathOf(g, Values(r)[a]) || Sooner(es, PathOf(g, Values(r)[a]), es[m])
  {
    var v := Values(r);
    var z := WordMet(g, r, es, m);
    var b :| 0 <= b < |v| && v[b] == z;
    ValueText(g, r, es, z);
    ValueText(g, r, es, v[a]);
    assert b >= a;
    if b > a {
      ValuesInWalk(g, r, es, a, b);
    }
  }

  lemma ValuesInWalk(g: Dafsa, r: Dafsa, es: seq<Word>, a: nat, b: nat)
    requires Trie(g, r, es) && a < b < |Values(r)|
    ensures Mirror(g.next, Values(r)[a]) in g.heap && Mirror(g.next, Values(r)[b]) in g.heap
    ensures Sooner(es, PathOf(g, Values(r)[a]), PathOf(g, Values(r)[b]))
  {
    assert Recorders(g, r, Sink, r.source);
    assert Bounded(r.heap, r.source, r.next);
    ValuesOfWalked(g, r, es, Sink, r.source, r.next, |r.source|);
    assert Values(r)[a] in Values(r) && Values(r)[b] in Values(r);
  }

  lemma RepeatedWordRepeats(g: Dafsa, r: Dafsa, es: seq<Word>, k: nat, l: nat)
    requires Trie(g, r, es) && RepeatedAt(es, k, l)
    ensures Repeats(r)
  {
    var v := Values(r);
    var x := WordMet(g, r, es, k);
    var a :| 0 <= a < |v| && v[a] == x;
    var k0 := ValueIsWord(g, r, es, x);
    SameWordSameSource(g, es, k, l);
    Twice(g.source, k, l);
    SinksAreOccurrences(g, r, es, x);
    forall b | 0 <= b < a ensures v[b] in r.heap && r.heap[v[b]].text != r.heap[x].text {
      NoneSooner(g, r, es, k, l, a, b);
    }
    assert RepeatsAt(r, a);
  }

  lemma NoneSooner(g: Dafsa, r: Dafsa, es: seq<Word>, k: nat, l: nat, a: nat, b: nat)
    requires Trie(g, r, es) && RepeatedAt(es, k, l) && b < a < |Values(r)|
    requires Mirror(g.next, Values(r)[a]) in g.heap && PathOf(g, Values(r)[a]) == es[k]
    ensures Values(r)[a] in r.heap && Values(r)[b] in r.heap && r.heap[Values(r)[b]].text != r.heap[Values(r)[a]].text
  {
    var v := Values(r);
    assert v[a] in v && v[b] in v;
    var m := ValueIsWord(g, r, es, v[b]);
    var n := ValueIsWord(g, r, es, v[a]);
    ValueText(g, r, es, v[a]);
    ValueText(g, r, es, v[b]);
    ValuesInWalk(g, r, es, b, a);
    SoonerAsymmetric(es, es[m], es[k]);
  }

  /** A value of the trie repeats at its first node iff the first word of that value is repeated. */
  lemma RepeatsIff(g: Dafsa, r: Dafsa, es: seq<Word>)
    requires Trie(g, r, es)
    ensures Repeats(r) <==> exists k, l :: RepeatedAt(es, k, l)
  {
    if Repeats(r) {
      var a: nat :| RepeatsAt(r, a);
      var k, l := RepeatsShow(g, r, es, a);
    }
    if k: nat, l: nat :| RepeatedAt(es, k, l) {
      RepeatedWordRepeats(g, r, es, k, l);
    }
  }

  // The words "a1", "a1", "b1", and the same words with "b1" first

  const WORD_A: Word := [97, 49]
  const WORD_B: Word := [98, 49]

  lemma FirstIsSooner(es: seq<Word>, e: Word, f: Word)
    requires |es| > 0 && es[0] == e && |e| > 0 && |f| > 0 && e[0] != f[0]
    ensures Sooner(es, e, f) && !Sooner(es, f, e)
  {
    assert e[..1] <= es[0];
    assert f[..1][0] == f[0];
    assert e[..0] == f[..0];
    assert PartAt(es, e, f, 0);
    SoonerAsymmetric(es, e, f);
  }

  /** With the repeated word first the repetition counts; behind another word of the same value it does not. */
  lemma OrderDecides()
    ensures RepeatedFirst([WORD_A, WORD_A, WORD_B]) && !RepeatedFirst([WORD_B, WORD_A, WORD_A])
  {
    var a, b := Encoded(WORD_A), Encoded(WORD_B);
    assert a == [97, 1] && b == [98, 1];
    var es, fs := Encodings([WORD_A, WORD_A, WORD_B]), Encodings([WORD_B, WORD_A, WORD_A]);
    assert es[0] == a && es[1] == a && es[2] == b;
    assert fs[0] == b && fs[1] == a && fs[2] == a;
    FirstIsSooner(es, a, b);
    FirstIsSooner(fs, b, a);
    assert RepeatedAt(es, 0, 1);
    forall k: nat, l: nat ensures !RepeatedAt(fs, k, l) {
      assert k < l < 3 && fs[k] == fs[l] ==> fs[k] == a;
      assert SameValue(fs[0], a);
    }
  }
}
