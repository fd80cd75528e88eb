/** `to_dafsa` of make_dafsa.py: every word becomes a chain of one-character nodes. */
module DafsaBuild {
  import opened DafsaGraph

  datatype Error =
    | EmptyList        // InputError: no words
    | EmptyWord        // IndexError: a word without even a return value
    | NotPrintable     // InputError: a character outside printable 7-bit ASCII
    | AssertionFailed  // AssertionError: the sink beside other children
    | BadDistance      // AssertionError: a link distance that is not positive or needs more than 21 bits

  datatype Result<T> = Ok(value: T) | Err(error: Error)

  predicate GoodWord(w: Word) {
    |w| > 0 && forall k :: 0 <= k < |w| ==> Printable(w[k])
  }

  /** A word as the graph spells it: the last character stands for the return value. */
  function Encoded(w: Word): (e: Word)
    requires |w| > 0
    ensures |e| == |w|
  {
    w[..|w| - 1] + [w[|w| - 1] % 16]
  }

  /** The chain of `e`, its last character at identity `base`. */
  ghost predicate Chain(h: Heap, base: nat, e: Word) {
    forall j :: 0 <= j < |e| ==> ChainAt(h, base, e, j)
  }

  ghost predicate ChainAt(h: Heap, base: nat, e: Word, j: nat)
    requires j < |e|
  {
    base + j in h && h[base + j] == ChainNode(base, e, j)
  }

  ghost function ChainNode(base: nat, e: Word, j: nat): Node
    requires j < |e|
  {
    Node([e[|e| - 1 - j]], [if j == 0 then Sink else To(base + j - 1)])
  }

  /** One-character nodes with one child each, the return values in front of the sink; a node
      that no other node lists is listed once by the source. */
  ghost predicate Chains(g: Dafsa) {
    && Valid(g)
    && Sink !in g.source
    && (forall i: nat :: i in g.heap <==> i < g.next)
    && (forall i {:trigger LinkNode(i, g.heap[i])} :: i in g.heap ==> LinkNode(i, g.heap[i]))
    && (forall i {:trigger ListedOnce(g, i)} :: i in g.heap ==> ListedOnce(g, i))
  }

  ghost predicate ListedOnce(g: Dafsa, i: nat) {
    multiset(g.source)[To(i)] == if i + 1 in g.heap && To(i) in g.heap[i + 1].children then 0 else 1
  }

  ghost predicate LinkNode(i: nat, n: Node) {
    && |n.text| == 1 && |n.children| == 1
    && if n.children[0] == Sink then IsValue(n.text[0])
       else Printable(n.text[0]) && i > 0 && n.children[0] == To(i - 1)
  }

  /** The chain of word `k` starts at `bases[k]`, and every value node belongs to some word. */
  ghost predicate ChainPerWord(g: Dafsa, words: seq<Word>, bases: seq<nat>) {
    && |g.source| == |bases| == |words|
    && (forall k :: 0 <= k < |words| ==> WordChain(g.heap, g.source[k], words[k], bases[k]))
    && (forall i :: i in g.heap && g.heap[i].children == [Sink] ==> i in bases)
    && Spaced(words, bases, g.next)
  }

  /** The chains lie one behind the other. */
  ghost predicate Spaced(words: seq<Word>, bases: seq<nat>, next: nat)
    requires |words| == |bases|
  {
    && (forall k :: 0 <= k < |words| ==> bases[k] + |words[k]| <= next)
    && forall k, l :: 0 <= k < l < |words| ==> bases[k] + |words[k]| <= bases[l]
  }

  ghost predicate WordChain(h: Heap, r: Ref, word: Word, base: nat) {
    |word| > 0 && Chain(h, base, Encoded(word)) && r == To(base + |word| - 1)
  }

  class Builder {
    var heap: Heap
    var next: nat

    constructor ()
      ensures heap == map[] && next == 0
    {
      heap := map[];
      next := 0;
    }

    method Allocate(n: Node) returns (r: Ref)
      modifies this
      ensures r == To(old(next)) && next == old(next) + 1 && heap == old(heap)[old(next) := n]
    {
      heap := heap[next := n];
      r := To(next);
      next := next + 1;
    }

    /** Splits a word into characters, the last one first. */
    method ToNodes(word: Word) returns (r: Result<Ref>)
      requires forall i :: i in heap ==> i < next
      modifies this
      ensures r.Ok? <==> GoodWord(word)
      ensures r.Err? ==> r.error == if exists k :: 0 <= k < |word| && !Printable(word[k]) then NotPrintable else EmptyWord
      ensures r.Ok? ==>
                && next == old(next) + |word| && r.value == To(next - 1)
                && (forall i :: i in old(heap) ==> i in heap && heap[i] == old(heap)[i])
                && (forall i :: i in heap ==> i in old(heap) || old(next) <= i < next)
                && Chain(heap, old(next), Encoded(word))
      decreases |word|
    {
      if word == [] {
        return Err(EmptyWord);
      }
      if !Printable(word[0]) {
        return Err(NotPrintable);
      }
      if |word| == 1 {
        var leaf := Allocate(Node([word[0] % 16], [Sink]));
        return Ok(leaf);
      }
      r := ToNodes(word[1..]);
      assert forall k :: 0 <= k < |word| - 1 ==> word[1..][k] == word[k + 1];
      if r.Err? {
        return;
      }
      var e := Encoded(word);
      assert Encoded(word[1..]) == e[1..];
      ghost var h := heap;
      var node := Allocate(Node([word[0]], [r.value]));
      r := Ok(node);
      ChainKept(h, heap, old(next), e[1..]);
      forall j | 0 <= j < |e| ensures ChainAt(heap, old(next), e, j) {
        if j < |e| - 1 {
          assert ChainAt(heap, old(next), e[1..], j);
        }
      }
    }
  }

  lemma ChainKept(h: Heap, k: Heap, base: nat, e: Word)
    requires Chain(h, base, e) && forall i :: i in h ==> i in k && k[i] == h[i]
    ensures Chain(k, base, e)
  {
    forall j | 0 <= j < |e| ensures ChainAt(k, base, e, j) {
      assert ChainAt(h, base, e, j);
    }
  }

  /** `heap` is the heap of `g` with the chain of `word` put on top. */
  ghost predicate OnTop(g: Dafsa, heap: Heap, word: Word) {
    && GoodWord(word)
    && (forall i :: i in g.heap ==> i in heap && heap[i] == g.heap[i])
    && (forall i :: i in heap ==> i in g.heap || g.next <= i < g.next + |word|)
    && Chain(heap, g.next, Encoded(word))
  }

  ghost function WithWord(g: Dafsa, heap: Heap, word: Word): Dafsa
    requires |word| > 0
  {
    Dafsa(heap, g.source + [To(g.next + |word| - 1)], g.next + |word|)
  }

  lemma TopNode(g: Dafsa, heap: Heap, word: Word, i: nat)
    requires Chains(g) && OnTop(g, heap, word)
    ensures i in heap <==> i < g.next + |word|
    ensures g.next <= i < g.next + |word| ==> heap[i] == ChainNode(g.next, Encoded(word), i - g.next)
    ensures i < g.next ==> i in g.heap && LinkNode(i, g.heap[i]) && ValidNode(g.heap, i, g.heap[i]) && ListedOnce(g, i)
  {
    if g.next <= i < g.next + |word| {
      assert ChainAt(heap, g.next, Encoded(word), i - g.next);
    }
  }

  lemma WordAddedNode(g: Dafsa, heap: Heap, word: Word, i: nat)
    requires Chains(g) && OnTop(g, heap, word) && i in heap
    ensures LinkNode(i, heap[i]) && ValidNode(heap, i, heap[i]) && i < g.next + |word|
  {
    TopNode(g, heap, word, i);
    if i > g.next {
      TopNode(g, heap, word, i - 1);
    }
  }

  lemma WordAddedValid(g: Dafsa, heap: Heap, word: Word)
    requires Chains(g) && OnTop(g, heap, word)
    ensures Valid(WithWord(g, heap, word))
    ensures forall i {:trigger LinkNode(i, heap[i])} :: i in heap ==> LinkNode(i, heap[i])
  {
    forall i | i in heap ensures LinkNode(i, heap[i]) && ValidNode(heap, i, heap[i]) && i < g.next + |word| {
      WordAddedNode(g, heap, word, i);
    }
    TopNode(g, heap, word, g.next + |word| - 1);
  }

  lemma WordAddedListed(g: Dafsa, heap: Heap, word: Word, i: nat)
    requires Chains(g) && OnTop(g, heap, word) && i in heap
    ensures ListedOnce(WithWord(g, heap, word), i)
  {
    TopNode(g, heap, word, i);
    TopNode(g, heap, word, i + 1);
    if i >= g.next {
      assert To(i) !in g.source;
    }
  }

  lemma WordAdded(g: Dafsa, heap: Heap, word: Word)
    requires Chains(g) && OnTop(g, heap, word)
    ensures Chains(WithWord(g, heap, word))
  {
    var r := WithWord(g, heap, word);
    WordAddedValid(g, heap, word);
    forall i: nat ensures (i in heap <==> i < r.next) && (i in heap ==> ListedOnce(r, i)) {
      TopNode(g, heap, word, i);
      if i in heap {
        WordAddedListed(g, heap, word, i);
      }
    }
  }

  lemma WordAddedChain(g: Dafsa, words: seq<Word>, bases: seq<nat>, heap: Heap, word: Word)
    requires Chains(g) && ChainPerWord(g, words, bases) && OnTop(g, heap, word)
    ensures ChainPerWord(WithWord(g, heap, word), words + [word], bases + [g.next])
  {
    var r := WithWord(g, heap, word);
    forall k | 0 <= k < |words| + 1
      ensures WordChain(heap, r.source[k], (words + [word])[k], (bases + [g.next])[k])
    {
      if k < |words| {
        assert WordChain(g.heap, g.source[k], words[k], bases[k]);
        ChainKept(g.heap, heap, bases[k], Encoded(words[k]));
      }
    }
    forall i | i in heap && heap[i].children == [Sink] ensures i in bases + [g.next] {
      TopNode(g, heap, word, i);
    }
  }

  lemma NoWords()
    ensures Chains(Dafsa(map[], [], 0)) && ChainPerWord(Dafsa(map[], [], 0), [], [])
  {
  }

  /** The characters of all words. */
  ghost function TotalLength(words: seq<Word>): nat {
    if words == [] then 0 else TotalLength(words[..|words| - 1]) + |words[|words| - 1]|
  }

  /** The chains of the words, one behind the other. */
  ghost predicate Built(g: Dafsa, words: seq<Word>, bases: seq<nat>) {
    Chains(g) && ChainPerWord(g, words, bases) && g.next == TotalLength(words)
  }

  lemma BuiltOn(g: Dafsa, words: seq<Word>, k: nat, bases: seq<nat>, heap: Heap)
    requires k < |words| && Built(g, words[..k], bases) && OnTop(g, heap, words[k])
    ensures Built(WithWord(g, heap, words[k]), words[..k + 1], bases + [g.next])
  {
    WordAdded(g, heap, words[k]);
    WordAddedChain(g, words[..k], bases, heap, words[k]);
    assert words[..k + 1] == words[..k] + [words[k]];
    assert words[..k + 1][..k] == words[..k];
  }

  method ToDafsa(words: seq<Word>) returns (r: Result<Dafsa>, ghost bases: seq<nat>)
    ensures r.Ok? <==> words != [] && forall k :: 0 <= k < |words| ==> GoodWord(words[k])
    ensures r.Err? ==> r.error != BadDistance && r.error != AssertionFailed
    ensures r.Ok? ==> Built(r.value, words, bases)
  {
    bases := [];
    if words == [] {
      return Err(EmptyList), bases;
    }
    var builder := new Builder();
    var source := [];
    NoWords();
    ghost var g := Dafsa(builder.heap, source, builder.next);
    for k := 0 to |words|
      invariant forall b :: 0 <= b < k ==> GoodWord(words[b])
      invariant g == Dafsa(builder.heap, source, builder.next)
      invariant Built(g, words[..k], bases)
    {
      var node := builder.ToNodes(words[k]);
      if node.Err? {
        return Err(node.error), bases;
      }
      assert OnTop(g, builder.heap, words[k]);
      BuiltOn(g, words, k, bases, builder.heap);
      source := source + [node.value];
      bases := bases + [g.next];
      g := WithWord(g, builder.heap, words[k]);
    }
    assert words[..|words|] == words;
    r := Ok(Dafsa(builder.heap, source, builder.next));
  }

  // The words of the chains

  lemma {:induction false} ChainSpells(h: Heap, base: nat, e: Word, j: nat, w: Word)
    requires Chain(h, base, e) && j < |e|
    ensures Accepts(h, To(base + j), w) <==> w == e[|e| - 1 - j..]
    decreases j
  {
    var n := ChainNode(base, e, j);
    assert ChainAt(h, base, e, j);
    assert e[|e| - 1 - j..] == n.text + e[|e| - j..];
    if |w| > 0 {
      assert AcceptsAny(h, n.children, w[1..]) <==> Accepts(h, n.children[0], w[1..]);
      assert w == w[..1] + w[1..];
      if j > 0 {
        ChainSpells(h, base, e, j - 1, w[1..]);
      }
    }
  }

  /** The chains spell exactly the encoded words. */
  lemma ChainsSpell(g: Dafsa, words: seq<Word>, bases: seq<nat>, w: Word)
    requires ChainPerWord(g, words, bases)
    ensures Spells(g, w) <==> exists k :: 0 <= k < |words| && |words[k]| > 0 && w == Encoded(words[k])
  {
    forall k | 0 <= k < |words| ensures |words[k]| > 0 && (Accepts(g.heap, g.source[k], w) <==> w == Encoded(words[k])) {
      assert WordChain(g.heap, g.source[k], words[k], bases[k]);
      ChainSpells(g.heap, bases[k], Encoded(words[k]), |words[k]| - 1, w);
      assert Encoded(words[k])[0..] == Encoded(words[k]);
    }
    if k :| 0 <= k < |words| && |words[k]| > 0 && w == Encoded(words[k]) {
      assert g.source[k] in g.source;
    }
  }
}
