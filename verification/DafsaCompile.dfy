/** `words_to_cxx` of make_dafsa.py without the C++ text, and what a lookup in its bytes finds. */
module DafsaCompile {
  import opened DafsaGraph
  import opened DafsaBuild
  import opened DafsaReverse
  import opened DafsaJoinSuffixes
  import JoinLabels = DafsaJoinLabels
  import opened DafsaReferences
  import opened DafsaTopSort
  import opened DafsaStages
  import opened DafsaLinks
  import opened DafsaEncode
  import opened DafsaLookup
  import opened DafsaSize
  import opened DafsaRepeats
  import opened DafsaOrder
  import opened Sums

  /** The graph spells exactly the encoded words. */
  ghost predicate SpellsWords(g: Dafsa, words: seq<Word>) {
    forall w :: Spells(g, w) <==> exists k :: 0 <= k < |words| && |words[k]| > 0 && w == Encoded(words[k])
  }

  ghost predicate DistinctEncodings(words: seq<Word>) {
    forall k, l :: 0 <= k < l < |words| && |words[k]| > 0 && |words[l]| > 0 ==> Encoded(words[k]) != Encoded(words[l])
  }

  /** The graphs before, between and after the five passes, and what ties them together. */
  datatype Trace = Trace(chains: Dafsa, backwards: Dafsa, joined: Dafsa, trie: Dafsa, shared: Dafsa, result: Dafsa,
                         bases: seq<nat>, parentcount: Counts, nodemap: map<nat, Ref>)

  /** The first three graphs: from chains to a reversed trie. */
  ghost predicate FirstPasses(t: Trace, words: seq<Word>) {
    && |words| > 0 && Built(t.chains, words, t.bases)
    && Transposed(t.chains, t.backwards) && WalkOrder(t.chains, t.backwards)
    && SuffixesJoined(t.backwards, t.joined)
    && Transposed(t.joined, t.trie) && WalkOrder(t.joined, t.trie)
  }

  ghost predicate Passes(t: Trace, words: seq<Word>) {
    && FirstPasses(t, words)
    && SuffixesJoined(t.trie, t.shared) && Valid(t.trie) && FirstValues(t.trie, t.shared)
    && ReferenceCounts(t.shared, t.parentcount) && JoinLabels.LabelsJoined(t.shared, t.parentcount, t.result, t.nodemap)
  }

  /** The passes lead from the words to this graph. */
  ghost predicate LeadTo(words: seq<Word>, g: Dafsa) {
    exists t :: Passes(t, words) && t.result == g
  }

  /** Up to the trie: chains reversed, joined and reversed again. */
  lemma TrieStage(t: Trace, words: seq<Word>)
    requires FirstPasses(t, words)
    ensures Valid(t.chains) && ReversedTrie(t.backwards) && ReversedTrie(t.joined) && |t.joined.source| > 0
    ensures SingleLetters(t.trie)
  {
    ChainsReversed(t.chains, t.backwards);
    ReversedTrieJoined(t.backwards, t.joined);
    var w := SomeWord(t.chains.heap, t.chains.source[0]);
    TransposedSpells(t.chains, t.backwards, w);
    TrieReversed(t.joined, t.trie);
    TrieIsPlain(t.joined, t.trie);
  }

  /** The passes lead to a graph that lookup can follow without backtracking. */
  lemma PassesAreGood(t: Trace, words: seq<Word>)
    requires Passes(t, words)
    ensures GoodGraph(t.trie) && GoodGraph(t.shared) && GoodGraph(t.result)
    ensures DistinctEncodings(words) ==> SoleSinks(t.result.heap)
  {
    TrieStage(t, words);
    GoodGraphJoined(t.trie, t.shared);
    GoodGraphMerged(t.shared, t.parentcount, t.result, t.nodemap);
    if DistinctEncodings(words) {
      DistinctSources(t.chains, words, t.bases, t.backwards, t.joined);
      ReversedSoleSinks(t.joined, t.trie);
    }
  }

  /** A repetition is left for the encoder iff the first word of some value, in the walk over the trie of the
      words, is repeated. */
  lemma PassesRepeat(t: Trace, words: seq<Word>)
    requires Passes(t, words)
    ensures GoodGraph(t.result) && (NoRepeats(t.result) <==> !RepeatedFirst(words))
  {
    PassesAreGood(t, words);
    TrieStage(t, words);
    RepetitionSurvives(t.trie, t.shared, t.parentcount, t.result, t.nodemap);
    JoinedLists(t.chains, words, t.bases, t.backwards, t.joined);
    RepeatsIff(t.joined, t.trie, Encodings(words));
  }

  /** Every word has at least one character. */
  lemma {:induction false} FewWords(words: seq<Word>)
    requires forall k :: 0 <= k < |words| ==> |words[k]| > 0
    ensures |words| <= TotalLength(words)
  {
    if words != [] {
      FewWords(words[..|words| - 1]);
    }
  }

  /** The passes leave at most seven bytes for each character of the words. */
  lemma PassesFit(t: Trace, words: seq<Word>)
    requires Passes(t, words)
    ensures Footprint(t.result) <= 7 * TotalLength(words)
  {
    TrieBytes(t, words);
    PassesAreGood(t, words);
    JoinedSize(t.trie, t.shared);
    MergedSize(t.shared, t.parentcount, t.result, t.nodemap);
  }

  lemma TrieBytes(t: Trace, words: seq<Word>)
    requires FirstPasses(t, words)
    ensures Size(t.trie.heap, t.trie.heap.Keys) + 3 * |t.trie.source| <= 7 * TotalLength(words)
  {
    TrieStage(t, words);
    TrieNodes(t, words);
    TrieFootprint(t.joined, t.trie);
  }

  lemma TrieNodes(t: Trace, words: seq<Word>)
    requires FirstPasses(t, words) && Valid(t.backwards) && Valid(t.joined)
    ensures |t.trie.heap.Keys| <= TotalLength(words) && |t.joined.source| <= TotalLength(words)
  {
    NumbersBelow(t.chains.heap.Keys, t.chains.next);
    ReversedHeap(t.chains, t.backwards);
    JoinedSize(t.backwards, t.joined);
    ReversedHeap(t.joined, t.trie);
    SourcesInOrder(t.chains, words, t.bases, t.backwards);
    forall k | 0 <= k < |words| ensures |words[k]| > 0 {
      assert WordChain(t.chains.heap, t.chains.source[k], words[k], t.bases[k]);
    }
    FewWords(words);
  }

  ghost predicate ValidTrace(t: Trace) {
    Valid(t.chains) && Valid(t.backwards) && Valid(t.joined) && Valid(t.trie) && Valid(t.shared)
  }

  lemma PassesAreValid(t: Trace, words: seq<Word>)
    requires Passes(t, words)
    ensures ValidTrace(t)
  {
    TrieStage(t, words);
    PassesAreGood(t, words);
  }

  /** The passes change no word. */
  lemma PassesKeep(t: Trace, words: seq<Word>, w: Word)
    requires Passes(t, words) && ValidTrace(t)
    ensures Spells(t.result, w) <==> Spells(t.chains, w)
  {
    TransposedSpells(t.chains, t.backwards, w);
    SuffixesJoinedSpells(t.backwards, t.joined, Reversed(w));
    ReversedTwice(w);
    TransposedSpells(t.joined, t.trie, Reversed(w));
    SuffixesJoinedSpells(t.trie, t.shared, w);
    JoinLabels.LabelsJoinedSpells(t.shared, t.parentcount, t.result, t.nodemap, w);
  }

  lemma PassesSpellWord(t: Trace, words: seq<Word>, w: Word)
    requires Passes(t, words) && ValidTrace(t)
    ensures Spells(t.result, w) <==> exists k :: 0 <= k < |words| && |words[k]| > 0 && w == Encoded(words[k])
  {
    PassesKeep(t, words, w);
    ChainsSpell(t.chains, words, t.bases, w);
  }

  lemma PassesSpell(t: Trace, words: seq<Word>)
    requires Passes(t, words)
    ensures SpellsWords(t.result, words)
  {
    PassesAreValid(t, words);
    forall w ensures Spells(t.result, w) <==> exists k :: 0 <= k < |words| && |words[k]| > 0 && w == Encoded(words[k]) {
      PassesSpellWord(t, words, w);
    }
  }

  lemma PassesCompile(t: Trace, words: seq<Word>)
    requires Passes(t, words)
    ensures GoodGraph(t.result) && SpellsWords(t.result, words) && Footprint(t.result) <= 7 * TotalLength(words)
    ensures NoRepeats(t.result) <==> !RepeatedFirst(words)
  {
    PassesRepeat(t, words);
    PassesSpell(t, words);
    PassesFit(t, words);
  }

  /** The five passes in the order that makes lookup without backtracking possible. */
  method Compress(chains: Dafsa, ghost words: seq<Word>, ghost bases: seq<nat>) returns (g: Dafsa, ghost t: Trace)
    requires |words| > 0 && Built(chains, words, bases)
    ensures Passes(t, words) && t.result == g
    ensures GoodGraph(g) && SpellsWords(g, words)
    ensures Footprint(g) <= 7 * TotalLength(words) && (NoRepeats(g) <==> !RepeatedFirst(words))
  {
    var backwards := Reverse(chains);
    TransposedValid(chains, backwards);
    var joined := JoinSuffixes(backwards);
    var trie := Reverse(joined);
    TransposedValid(joined, trie);
    t := Trace(chains, backwards, joined, trie, trie, trie, bases, map[], map[]);
    TrieStage(t, words);
    var shared := JoinSuffixes(trie);
    ghost var parentcount, nodemap;
    g, parentcount, nodemap := JoinLabels.JoinLabels(shared);
    t := Trace(chains, backwards, joined, trie, shared, g, bases, parentcount, nodemap);
    PassesCompile(t, words);
  }

  /** A list of words, each of one or more printable 7-bit characters, the delete character among them. */
  ghost predicate GoodWords(words: seq<Word>) {
    && words != []
    && forall k :: 0 <= k < |words| ==> words[k] != [] && forall i :: 0 <= i < |words[k]| ==> 32 <= words[k][i] <= 127
  }

  lemma GoodWordsMeans(words: seq<Word>)
    ensures GoodWords(words) <==> words != [] && forall k :: 0 <= k < |words| ==> GoodWord(words[k])
  {
  }

  /** What decides whether good words compile, for the graph that they lead to and the order in which it is
      written: no repetition of the first word of a value, and links that all reach. */
  ghost predicate Decides(words: seq<Word>, g: Dafsa, order: seq<nat>, ok: bool) {
    && LeadTo(words, g) && TopSorted(g, order)
    && (ok <==> !RepeatedFirst(words) && AllReach(g, order))
    && (7 * TotalLength(words) < MAX_DISTANCE ==> AllReach(g, order))
  }

  /** Why good words do not compile. */
  ghost predicate FailsFor(words: seq<Word>, g: Dafsa, order: seq<nat>, e: Error) {
    if e == BadDistance then !AllReach(g, order) else e == AssertionFailed && RepeatedFirst(words)
  }

  lemma ShortListReaches(t: Trace, words: seq<Word>, order: seq<nat>)
    requires Passes(t, words) && TopSorted(t.result, order) && 7 * TotalLength(words) < MAX_DISTANCE
    ensures AllReach(t.result, order)
  {
    PassesAreGood(t, words);
    PassesFit(t, words);
    SmallReaches(t.result, order);
  }

  /** Compiles good words iff none that comes first for its value is repeated and all links reach, which they
      do for lists below a seventh of their range; the image has at most seven bytes a character. */
  method WordsToBytes(words: seq<Word>)
      returns (r: Result<seq<int>>, ghost g: Dafsa, ghost offsets: map<nat, nat>, ghost order: seq<nat>)
    ensures r.Ok? ==> Searchable(g, offsets, r.value) && SpellsWords(g, words)
    ensures r.Ok? ==> r.value == ImageOf(g, order) && |r.value| <= 7 * TotalLength(words)
    ensures !GoodWords(words) ==> r.Err? && r.error != BadDistance && r.error != AssertionFailed
    ensures GoodWords(words) ==> Decides(words, g, order, r.Ok?)
    ensures GoodWords(words) && r.Err? ==> FailsFor(words, g, order, r.error)
  {
    GoodWordsMeans(words);
    var chains, bases := ToDafsa(words);
    if chains.Err? {
      return Err(chains.error), Dafsa(map[], [], 0), map[], [];
    }
    var graph, t := Compress(chains.value, words, bases);
    g := graph;
    r, offsets, order := Encode(graph);
    if 7 * TotalLength(words) < MAX_DISTANCE {
      ShortListReaches(t, words, order);
    }
  }

  // Keys and values

  /** A word is a key and, last, the character of its value. */
  function Key(w: Word): Word
    requires |w| > 0
  {
    w[..|w| - 1]
  }

  function Value(w: Word): int
    requires |w| > 0
  {
    w[|w| - 1] % 16
  }

  ghost predicate DistinctKeys(words: seq<Word>) {
    forall k, l :: 0 <= k < l < |words| && |words[k]| > 0 && |words[l]| > 0 ==> Key(words[k]) != Key(words[l])
  }

  /** `value` is listed for the key, or the key is not listed. */
  ghost predicate Listed(words: seq<Word>, key: Word, value: int) {
    if value == -1 then forall k :: 0 <= k < |words| && |words[k]| > 0 ==> Key(words[k]) != key
    else exists k :: 0 <= k < |words| && |words[k]| > 0 && Key(words[k]) == key && Value(words[k]) == value
  }

  lemma EncodedIsKeyAndValue(w: Word, key: Word, value: int)
    requires |w| > 0
    ensures Encoded(w) == key + [value] <==> Key(w) == key && Value(w) == value
  {
    var e := Encoded(w);
    assert e[..|e| - 1] == Key(w) && e[|e| - 1] == Value(w);
    assert (key + [value])[..|key|] == key;
  }

  lemma DistinctKeysDistinctEncodings(words: seq<Word>)
    requires DistinctKeys(words)
    ensures DistinctEncodings(words)
  {
    forall k, l | 0 <= k < l < |words| && |words[k]| > 0 && |words[l]| > 0
      ensures Encoded(words[k]) != Encoded(words[l])
    {
      EncodedIsKeyAndValue(words[l], Key(words[l]), Value(words[l]));
      EncodedIsKeyAndValue(words[k], Key(words[l]), Value(words[l]));
    }
  }

  /** What the graph finds for a key is what the word list says. */
  lemma FoundIsListed(g: Dafsa, words: seq<Word>, key: Word, value: int)
    requires SpellsWords(g, words) && Found(g, key, value)
    ensures Listed(words, key, value)
  {
    if value == NOT_FOUND {
      forall k | 0 <= k < |words| && |words[k]| > 0 ensures Key(words[k]) != key {
        var v := Value(words[k]);
        EncodedIsKeyAndValue(words[k], key, v);
        assert !Spells(g, key + [v]);
      }
    } else {
      assert Spells(g, key + [value]);
      var k :| 0 <= k < |words| && |words[k]| > 0 && key + [value] == Encoded(words[k]);
      EncodedIsKeyAndValue(words[k], key, value);
    }
  }

  /** With distinct keys there is one right answer. */
  lemma OneAnswer(words: seq<Word>, key: Word, value: int, k: nat)
    requires DistinctKeys(words) && Listed(words, key, value)
    requires k < |words| && |words[k]| > 0 && Key(words[k]) == key
    ensures value == Value(words[k])
  {
  }

  /** Words with different keys have different encodings, and then none is repeated. */
  lemma DistinctKeysNeverRepeat(words: seq<Word>)
    requires DistinctKeys(words)
    ensures DistinctEncodings(words) && !RepeatedFirst(words)
  {
    DistinctKeysDistinctEncodings(words);
    forall k: nat, l: nat ensures !RepeatedAt(Encodings(words), k, l) {
      assert k < l < |words| && |words[k]| > 0 && |words[l]| > 0 ==> Encoded(words[k]) != Encoded(words[l]);
    }
  }

  /** Compiling a word list and looking a key up in the bytes: the value listed for the key, or
      -1 for a key that is not listed. */
  method CompileAndLookup(words: seq<Word>, key: seq<int>) returns (r: Result<int>)
    ensures r.Ok? ==> Listed(words, key, r.value)
    ensures r.Ok? && DistinctKeys(words) ==>
              forall k :: 0 <= k < |words| && |words[k]| > 0 && Key(words[k]) == key ==> r.value == Value(words[k])
    ensures !GoodWords(words) ==> r.Err? && r.error != BadDistance && r.error != AssertionFailed
    ensures GoodWords(words) && 7 * TotalLength(words) < MAX_DISTANCE ==> (r.Ok? <==> !RepeatedFirst(words))
    ensures GoodWords(words) && 7 * TotalLength(words) < MAX_DISTANCE && r.Err? ==> r.error == AssertionFailed
    ensures GoodWords(words) && DistinctKeys(words) && r.Err? ==> r.error == BadDistance
    ensures GoodWords(words) ==>
              exists g, order :: Decides(words, g, order, r.Ok?) && (r.Err? ==> FailsFor(words, g, order, r.error))
  {
    var bytes, g, offsets, order := WordsToBytes(words);
    if DistinctKeys(words) {
      DistinctKeysNeverRepeat(words);
    }
    if bytes.Err? {
      return Err(bytes.error);
    }
    var value := LookupStringInFixedSet(bytes.value, key, g, offsets);
    FoundIsListed(g, words, key, value);
    r := Ok(value);
    if DistinctKeys(words) {
      forall k | 0 <= k < |words| && |words[k]| > 0 && Key(words[k]) == key ensures value == Value(words[k]) {
        OneAnswer(words, key, value, k);
      }
    }
  }
}
