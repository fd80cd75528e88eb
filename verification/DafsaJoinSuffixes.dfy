/** `join_suffixes` of make_dafsa.py: nodes with the same words towards the sink become one. */
module DafsaJoinSuffixes {
  import opened DafsaGraph

  /** The local state of the pass: the nodes made so far and the dictionary of suffix sets. */
  datatype Joined = Joined(heap: Heap, next: nat, nodemap: map<set<Word>, Ref>)

  /** New node `j` was made from old node `o`, child by child. */
  ghost predicate MadeFrom(from: Heap, o: nat, into: Heap, j: nat) {
    && o in from && j in into
    && into[j].text == from[o].text
    && |into[j].children| == |from[o].children|
    && forall c :: 0 <= c < |from[o].children| ==> SameLanguage(from, from[o].children[c], into, into[j].children[c])
  }

  /** `r` is the one reference for its suffix set. */
  ghost predicate Filed(s: Joined, r: Ref)
    requires ValidHeap(s.heap) && ValidRef(s.heap, r)
  {
    Suffixes(s.heap, r) in s.nodemap && s.nodemap[Suffixes(s.heap, r)] == r
  }

  ghost predicate Joining(g: Dafsa, s: Joined) {
    && ValidHeap(s.heap)
    && (forall j :: j in s.heap ==> j < s.next)
    && (forall k :: k in s.nodemap ==> ValidRef(s.heap, s.nodemap[k]) && Suffixes(s.heap, s.nodemap[k]) == k)
    && Filed(s, Sink)
    && (forall j :: j in s.heap ==> Filed(s, To(j)))
    && (forall j :: j in s.heap ==> exists o :: MadeFrom(g.heap, o, s.heap, j))
  }

  ghost predicate Grown(s: Joined, t: Joined) {
    && (forall j :: j in s.heap ==> j in t.heap && t.heap[j] == s.heap[j])
    && (forall k :: k in s.nodemap ==> k in t.nodemap && t.nodemap[k] == s.nodemap[k])
  }

  lemma SuffixesExtended(h: Heap, k: Heap, r: Ref)
    requires ValidHeap(h) && ValidRef(h, r) && ValidHeap(k)
    requires forall i :: i in h ==> i in k && k[i] == h[i]
    ensures ValidRef(k, r) && Suffixes(k, r) == Suffixes(h, r) && SameLanguage(h, r, k, r)
  {
    LanguageExtended(h, k, r);
    SameSuffixesSameLanguage(h, r, k, r);
  }

  /** `a` has a word as long as any in `b`. */
  ghost predicate Reaches(a: set<Word>, b: set<Word>) {
    exists w :: w in a && forall v :: v in b ==> |v| <= |w|
  }

  lemma {:induction false} ReachesItself(a: set<Word>)
    requires a != {}
    ensures Reaches(a, a)
    decreases a
  {
    var w :| w in a;
    var rest := a - {w};
    if rest != {} {
      ReachesItself(rest);
      var v :| v in rest && forall x :: x in rest ==> |x| <= |v|;
      assert forall x :: x in a ==> x == w || x in rest;
      assert v in a && w in a;
      if |w| <= |v| {
        assert forall x :: x in a ==> |x| <= |v|;
      } else {
        assert forall x :: x in a ==> |x| <= |w|;
      }
    } else {
      assert a == {w};
    }
  }

  /** The suffix set of a node is none of those that its children's sets reach, and reaches them. */
  lemma ParentReachesFurther(h: Heap, i: nat, c: Ref, k: set<Word>)
    requires ValidHeap(h) && i in h && c in h[i].children && ValidRef(h, c)
    requires Reaches(Suffixes(h, c), k)
    ensures Reaches(Suffixes(h, To(i)), k) && k != Suffixes(h, To(i))
  {
    var w :| w in Suffixes(h, c) && forall v :: v in k ==> |v| <= |w|;
    var longer := h[i].text + w;
    assert ValidNode(h, i, h[i]);
    assert longer in Suffixes(h, To(i)) && |longer| > |w|;
  }

  /** A new node for old node `o`, entered under its suffix set. */
  ghost function Added(g: Dafsa, s: Joined, o: nat, children: seq<Ref>): Joined
    requires Valid(g) && o in g.heap
  {
    Joined(s.heap[s.next := Node(g.heap[o].text, children)], s.next + 1,
           s.nodemap[Suffixes(g.heap, To(o)) := To(s.next)])
  }

  /** The invariant holds again once the node has been entered. */
  lemma NodeAdded(g: Dafsa, s: Joined, o: nat, children: seq<Ref>)
    requires Valid(g) && Joining(g, s) && o in g.heap
    requires Suffixes(g.heap, To(o)) !in s.nodemap
    requires |children| == |g.heap[o].children| && ValidRefs(s.heap, children)
    requires forall c :: 0 <= c < |children| ==> SameLanguage(g.heap, g.heap[o].children[c], s.heap, children[c])
    ensures Joining(g, Added(g, s, o, children)) && Grown(s, Added(g, s, o, children))
  {
    var t := Added(g, s, o, children);
    var node := t.heap[s.next];
    assert ValidNode(g.heap, o, g.heap[o]);
    assert ValidNode(t.heap, s.next, node);
    assert ValidHeap(t.heap) by {
      forall j | j in s.heap ensures ValidNode(t.heap, j, t.heap[j]) {
        assert ValidNode(s.heap, j, s.heap[j]);
      }
    }
    forall r | ValidRef(s.heap, r)
      ensures ValidRef(t.heap, r) && Suffixes(t.heap, r) == Suffixes(s.heap, r) && SameLanguage(s.heap, r, t.heap, r)
    {
      SuffixesExtended(s.heap, t.heap, r);
    }
    forall c | 0 <= c < |children| ensures SameLanguage(g.heap, g.heap[o].children[c], t.heap, children[c]) {
      assert ValidRef(s.heap, children[c]);
    }
    SameNodeSameLanguage(g.heap, o, t.heap, s.next);
    SameSuffixesSameLanguage(g.heap, To(o), t.heap, To(s.next));
    assert MadeFrom(g.heap, o, t.heap, s.next);
    forall j | j in t.heap ensures Filed(t, To(j)) && exists o :: MadeFrom(g.heap, o, t.heap, j) {
      if j != s.next {
        OldNodeKept(g, s, t, j);
      }
    }
  }

  lemma OldNodeKept(g: Dafsa, s: Joined, t: Joined, j: nat)
    requires Valid(g) && Joining(g, s) && ValidHeap(t.heap) && Grown(s, t) && j in s.heap
    ensures Filed(t, To(j)) && exists o :: MadeFrom(g.heap, o, t.heap, j)
  {
    SuffixesExtended(s.heap, t.heap, To(j));
    assert Filed(s, To(j));
    var o :| MadeFrom(g.heap, o, s.heap, j);
    forall c | 0 <= c < |g.heap[o].children|
      ensures SameLanguage(g.heap, g.heap[o].children[c], t.heap, t.heap[j].children[c])
    {
      assert ValidNode(s.heap, j, s.heap[j]);
      SuffixesExtended(s.heap, t.heap, s.heap[j].children[c]);
    }
    assert MadeFrom(g.heap, o, t.heap, j);
  }

  /** Between `s` and `t` only suffix sets no longer than those of `node` were added. */
  ghost predicate AddedUpTo(g: Dafsa, s: Joined, t: Joined, node: Ref)
    requires Valid(g) && ValidRef(g.heap, node)
  {
    forall k :: k in t.nodemap && k !in s.nodemap ==> Reaches(Suffixes(g.heap, node), k)
  }

  lemma AddedBelow(g: Dafsa, s: Joined, t: Joined, u: Joined, o: nat, child: Ref)
    requires Valid(g) && o in g.heap && child in g.heap[o].children && ValidRef(g.heap, child)
    requires AddedUpTo(g, s, t, To(o)) && AddedUpTo(g, t, u, child)
    requires Suffixes(g.heap, To(o)) !in t.nodemap
    ensures AddedUpTo(g, s, u, To(o)) && Suffixes(g.heap, To(o)) !in u.nodemap
  {
    forall k | k in u.nodemap && k !in t.nodemap
      ensures Reaches(Suffixes(g.heap, To(o)), k) && k != Suffixes(g.heap, To(o))
    {
      ParentReachesFurther(g.heap, o, child, k);
    }
  }

  lemma GrownTrans(s: Joined, t: Joined, u: Joined)
    requires Grown(s, t) && Grown(t, u)
    ensures Grown(s, u)
  {
  }

  /** The children joined so far stand for the first children of old node `o`. */
  ghost predicate Stand(g: Dafsa, o: nat, heap: Heap, children: seq<Ref>) {
    && o in g.heap && |children| <= |g.heap[o].children|
    && ValidRefs(heap, children)
    && forall c :: 0 <= c < |children| ==> SameLanguage(g.heap, g.heap[o].children[c], heap, children[c])
  }

  lemma StandExtended(g: Dafsa, o: nat, s: Joined, t: Joined, children: seq<Ref>, r: Ref)
    requires Stand(g, o, s.heap, children) && Grown(s, t) && ValidHeap(s.heap) && ValidHeap(t.heap)
    requires |children| < |g.heap[o].children| && ValidRef(t.heap, r)
    requires SameLanguage(g.heap, g.heap[o].children[|children|], t.heap, r)
    ensures Stand(g, o, t.heap, children + [r])
  {
    forall c | 0 <= c < |children| ensures SameLanguage(g.heap, g.heap[o].children[c], t.heap, children[c]) {
      assert children[c] in children;
      SuffixesExtended(s.heap, t.heap, children[c]);
    }
    forall c | c in children + [r] ensures ValidRef(t.heap, c) {
      assert c in children ==> ValidRef(s.heap, c);
    }
  }

  lemma SelfAdded(g: Dafsa, s: Joined, t: Joined, u: Joined, node: Ref)
    requires Valid(g) && ValidRef(g.heap, node) && AddedUpTo(g, s, t, node)
    requires u.nodemap.Keys == t.nodemap.Keys + {Suffixes(g.heap, node)}
    ensures AddedUpTo(g, s, u, node)
  {
    var w := SomeWord(g.heap, node);
    SuffixesAreAccepted(g.heap, node, w);
    ReachesItself(Suffixes(g.heap, node));
  }

  lemma NodeEntered(g: Dafsa, s: Joined, t: Joined, o: nat, children: seq<Ref>)
    requires Valid(g) && Joining(g, t) && Grown(s, t) && o in g.heap && AddedUpTo(g, s, t, To(o))
    requires Suffixes(g.heap, To(o)) !in t.nodemap
    requires Stand(g, o, t.heap, children) && |children| == |g.heap[o].children|
    ensures var u := Added(g, t, o, children);
            Joining(g, u) && Grown(s, u) && AddedUpTo(g, s, u, To(o)) && Suffixes(g.heap, To(o)) in u.nodemap
  {
    NodeAdded(g, t, o, children);
    GrownTrans(s, t, Added(g, t, o, children));
    SelfAdded(g, s, t, Added(g, t, o, children), To(o));
  }

  lemma SinkIsFiled(g: Dafsa, s: Joined, node: Ref)
    requires Valid(g) && ValidRef(g.heap, node) && Joining(g, s) && Suffixes(g.heap, node) !in s.nodemap
    ensures node.To?
  {
  }

  lemma NodeFound(g: Dafsa, s: Joined, node: Ref)
    requires Valid(g) && ValidRef(g.heap, node) && Joining(g, s) && Suffixes(g.heap, node) in s.nodemap
    ensures var r := s.nodemap[Suffixes(g.heap, node)];
            ValidRef(s.heap, r) && SameLanguage(g.heap, node, s.heap, r)
  {
    SameSuffixesSameLanguage(g.heap, node, s.heap, s.nodemap[Suffixes(g.heap, node)]);
  }

  // Which node of several with the same words is kept

  ghost predicate OnlySinks(n: Node) {
    forall c :: c in n.children ==> c == Sink
  }

  /** The nodes below `r` that lead to the sink only, in the order of a depth-first walk. */
  ghost function ValueOrder(h: Heap, r: Ref): seq<nat>
    requires ValidHeap(h) && ValidRef(h, r)
    decreases if r.Sink? then 0 else r.id + 1, 0
  {
    match r
    case Sink => []
    case To(i) =>
      assert ValidNode(h, i, h[i]);
      if OnlySinks(h[i]) then [i] else ValuesOf(h, h[i].children, i, |h[i].children|)
  }

  /** Those below the first `k` of `rs`, whose identities are below `n`. */
  ghost function ValuesOf(h: Heap, rs: seq<Ref>, n: nat, k: nat): seq<nat>
    requires ValidHeap(h) && Bounded(h, rs, n) && k <= |rs|
    decreases n, k
  {
    if k == 0 then [] else ValuesOf(h, rs, n, k - 1) + ValueOrder(h, rs[k - 1])
  }

  ghost predicate Bounded(h: Heap, rs: seq<Ref>, n: nat) {
    forall c {:trigger rs[c]} :: 0 <= c < |rs| ==> ValidRef(h, rs[c]) && (rs[c].To? ==> rs[c].id < n)
  }

  /** A deterministic graph with one character to a node. */
  ghost predicate SingleLetters(g: Dafsa) {
    GoodGraph(g) && forall i :: i in g.heap ==> |g.heap[i].text| == 1
  }

  /** Equivalent nodes have equivalent children. */
  lemma EquivalentChild(g: Dafsa, i: nat, o: nat, c: Ref) returns (d: Ref)
    requires SingleLetters(g) && i in g.heap && o in g.heap && SameLanguage(g.heap, To(i), g.heap, To(o))
    requires c in g.heap[i].children && c.To? && ValidRef(g.heap, c)
    ensures d in g.heap[o].children && ValidRef(g.heap, d) && SameLanguage(g.heap, c, g.heap, d)
  {
    var h := g.heap;
    assert ValidNode(h, i, h[i]) && ValidNode(h, o, h[o]);
    var w := SomeWord(h, c);
    SameLanguageSameHead(h, To(i), h, To(o));
    d := AnswerOf(g, i, o, c, w);
    forall v ensures Accepts(h, c, v) <==> Accepts(h, d, v) {
      if Accepts(h, c, v) {
        var e := AnswerOf(g, i, o, c, v);
        SameHeadSameChild(g, o, d, e);
      }
      if Accepts(h, d, v) {
        var e := AnswerOf(g, o, i, d, v);
        SameHeadSameChild(g, i, c, e);
      }
    }
  }

  /** The child of an equivalent node that spells the same word begins with the same character. */
  lemma AnswerOf(g: Dafsa, i: nat, o: nat, c: Ref, w: Word) returns (d: Ref)
    requires SingleLetters(g) && i in g.heap && o in g.heap && SameLanguage(g.heap, To(i), g.heap, To(o))
    requires Head(g.heap, To(i)) == Head(g.heap, To(o))
    requires c in g.heap[i].children && c.To? && ValidRef(g.heap, c) && Accepts(g.heap, c, w)
    ensures d in g.heap[o].children && d.To? && ValidRef(g.heap, d) && Accepts(g.heap, d, w)
    ensures Head(g.heap, d) == Head(g.heap, c)
  {
    var h := g.heap;
    AcceptsStep(h, i, c, w);
    assert ValidNode(h, i, h[i]) && ValidNode(h, o, h[o]) && ValidNode(h, c.id, h[c.id]);
    var all := h[i].text + w;
    assert |h[i].text| == 1 && |h[o].text| == 1 && |w| > 0;
    assert Accepts(h, To(o), all) && all[|h[o].text|..] == w;
    assert AcceptsAny(h, h[o].children, w);
    d :| d in h[o].children && Accepts(h, d, w);
    assert ValidRef(h, d);
    assert d.To?;
    assert ValidNode(h, d.id, h[d.id]);
    assert w[..1][0] == w[0];
  }

  lemma SameHeadSameChild(g: Dafsa, i: nat, c: Ref, d: Ref)
    requires GoodGraph(g) && i in g.heap && c in g.heap[i].children && d in g.heap[i].children && c.To? && d.To?
    requires ValidRef(g.heap, c) && ValidRef(g.heap, d) && Head(g.heap, c) == Head(g.heap, d)
    ensures c == d
  {
    assert GoodNode(g.heap, i);
  }

  /** With a node, all its children are filed. */
  lemma ChildFiled(g: Dafsa, s: Joined, i: nat, c: Ref)
    requires SingleLetters(g) && Joining(g, s) && i in g.heap && Suffixes(g.heap, To(i)) in s.nodemap
    requires c in g.heap[i].children && ValidRef(g.heap, c)
    ensures Suffixes(g.heap, c) in s.nodemap
  {
    if c.To? {
      NodeFound(g, s, To(i));
      var r := s.nodemap[Suffixes(g.heap, To(i))];
      SameLanguageSameHead(g.heap, To(i), s.heap, r);
      var o :| MadeFrom(g.heap, o, s.heap, r.id);
      MadeSame(g, o, s.heap, r.id);
      var d := EquivalentChild(g, i, o, c);
      var k :| 0 <= k < |g.heap[o].children| && g.heap[o].children[k] == d;
      var e := s.heap[r.id].children[k];
      assert ValidNode(s.heap, r.id, s.heap[r.id]) && e in s.heap[r.id].children;
      SameSuffixesSameLanguage(g.heap, c, s.heap, e);
      assert e.To? ==> Filed(s, To(e.id));
    }
  }

  lemma MadeSame(g: Dafsa, o: nat, h: Heap, j: nat)
    requires Valid(g) && MadeFrom(g.heap, o, h, j)
    ensures SameLanguage(g.heap, To(o), h, To(j))
  {
    assert ValidNode(g.heap, o, g.heap[o]);
    SameNodeSameLanguage(g.heap, o, h, j);
  }

  lemma {:induction false} ValuesFiled(g: Dafsa, s: Joined, r: Ref, x: nat)
    requires SingleLetters(g) && Joining(g, s) && ValidRef(g.heap, r) && Suffixes(g.heap, r) in s.nodemap
    requires x in ValueOrder(g.heap, r)
    ensures x in g.heap && Suffixes(g.heap, To(x)) in s.nodemap
    decreases if r.Sink? then 0 else r.id + 1, 0
  {
    assert ValidNode(g.heap, r.id, g.heap[r.id]);
    if !OnlySinks(g.heap[r.id]) {
      forall c | c in g.heap[r.id].children ensures Suffixes(g.heap, c) in s.nodemap {
        ChildFiled(g, s, r.id, c);
      }
      ValuesOfFiled(g, s, g.heap[r.id].children, r.id, |g.heap[r.id].children|, x);
    }
  }

  lemma {:induction false} ValuesOfFiled(g: Dafsa, s: Joined, rs: seq<Ref>, n: nat, k: nat, x: nat)
    requires SingleLetters(g) && Joining(g, s) && Bounded(g.heap, rs, n) && k <= |rs|
    requires forall c :: 0 <= c < |rs| ==> Suffixes(g.heap, rs[c]) in s.nodemap
    requires x in ValuesOf(g.heap, rs, n, k)
    ensures x in g.heap && Suffixes(g.heap, To(x)) in s.nodemap
    decreases n, k
  {
    if x in ValueOrder(g.heap, rs[k - 1]) {
      ValuesFiled(g, s, rs[k - 1], x);
    } else {
      ValuesOfFiled(g, s, rs, n, k - 1, x);
    }
  }

  /** Node `j` was made from the first of `values` that spells its words. */
  ghost predicate FirstFor(g: Dafsa, h: Heap, values: seq<nat>, j: nat) {
    exists a :: FirstAt(g, h, values, j, a)
  }

  ghost predicate FirstAt(g: Dafsa, h: Heap, values: seq<nat>, j: nat, a: nat) {
    && a < |values| && MadeFrom(g.heap, values[a], h, j)
    && forall b :: 0 <= b < a ==> !SameLanguage(g.heap, To(values[b]), h, To(j))
  }

  /** All `values` are filed, each word set under the first of them that has it. */
  ghost predicate FirstOnes(g: Dafsa, s: Joined, values: seq<nat>)
    requires Valid(g)
  {
    && (forall x :: x in values ==> x in g.heap && Suffixes(g.heap, To(x)) in s.nodemap)
    && (forall j {:trigger FirstFor(g, s.heap, values, j)} :: j in s.heap && OnlySinks(s.heap[j]) ==> FirstFor(g, s.heap, values, j))
  }

  lemma FirstForKept(g: Dafsa, s: Joined, t: Joined, values: seq<nat>, more: seq<nat>, j: nat)
    requires Valid(g) && Joining(g, s) && ValidHeap(t.heap) && Grown(s, t) && j in s.heap && FirstFor(g, s.heap, values, j)
    ensures FirstFor(g, t.heap, values + more, j)
  {
    var a: nat :| FirstAt(g, s.heap, values, j, a);
    SuffixesExtended(s.heap, t.heap, To(j));
    var o := values[a];
    forall c | 0 <= c < |g.heap[o].children|
      ensures SameLanguage(g.heap, g.heap[o].children[c], t.heap, t.heap[j].children[c])
    {
      assert ValidNode(s.heap, j, s.heap[j]);
      SuffixesExtended(s.heap, t.heap, s.heap[j].children[c]);
    }
    forall b | 0 <= b < a ensures !SameLanguage(g.heap, To((values + more)[b]), t.heap, To(j)) {
      assert !SameLanguage(g.heap, To(values[b]), s.heap, To(j));
    }
    assert FirstAt(g, t.heap, values + more, j, a);
  }

  /** A node that is filed already brings no new values. */
  lemma FirstOnesFound(g: Dafsa, s: Joined, values: seq<nat>, node: Ref)
    requires SingleLetters(g) && Joining(g, s) && ValidRef(g.heap, node) && Suffixes(g.heap, node) in s.nodemap && FirstOnes(g, s, values)
    ensures FirstOnes(g, s, values + ValueOrder(g.heap, node))
  {
    var more := ValueOrder(g.heap, node);
    forall x | x in more ensures x in g.heap && Suffixes(g.heap, To(x)) in s.nodemap {
      ValuesFiled(g, s, node, x);
    }
    forall j | j in s.heap && OnlySinks(s.heap[j]) ensures FirstFor(g, s.heap, values + more, j) {
      FirstForKept(g, s, s, values, more, j);
    }
  }

  /** A node that is entered: if it leads to the sink only, it is the first with its words. */
  lemma FirstOnesEntered(g: Dafsa, s: Joined, values: seq<nat>, o: nat, children: seq<Ref>)
    requires SingleLetters(g) && Joining(g, s) && o in g.heap && Suffixes(g.heap, To(o)) !in s.nodemap && FirstOnes(g, s, values)
    requires Stand(g, o, s.heap, children) && |children| == |g.heap[o].children|
    ensures FirstOnes(g, Added(g, s, o, children), if OnlySinks(g.heap[o]) then values + [o] else values)
  {
    var t, all := Added(g, s, o, children), if OnlySinks(g.heap[o]) then values + [o] else values;
    forall j | j in t.heap && OnlySinks(t.heap[j]) ensures FirstFor(g, t.heap, all, j) {
      FirstOneEntered(g, s, values, o, children, j);
    }
  }

  lemma FirstOneEntered(g: Dafsa, s: Joined, values: seq<nat>, o: nat, children: seq<Ref>, j: nat)
    requires Valid(g) && Joining(g, s) && o in g.heap && Suffixes(g.heap, To(o)) !in s.nodemap && FirstOnes(g, s, values)
    requires Stand(g, o, s.heap, children) && |children| == |g.heap[o].children|
    requires j in Added(g, s, o, children).heap && OnlySinks(Added(g, s, o, children).heap[j])
    ensures FirstFor(g, Added(g, s, o, children).heap, if OnlySinks(g.heap[o]) then values + [o] else values, j)
  {
    var t, more := Added(g, s, o, children), if OnlySinks(g.heap[o]) then [o] else [];
    if j == s.next {
      EnteredFirst(g, s, values, o, children);
    } else {
      NodeAdded(g, s, o, children);
      assert FirstFor(g, s.heap, values, j);
      FirstForKept(g, s, t, values, more, j);
      assert values + [] == values;
    }
  }

  lemma EnteredFirst(g: Dafsa, s: Joined, values: seq<nat>, o: nat, children: seq<Ref>)
    requires Valid(g) && Joining(g, s) && o in g.heap && Suffixes(g.heap, To(o)) !in s.nodemap && FirstOnes(g, s, values)
    requires Stand(g, o, s.heap, children) && |children| == |g.heap[o].children|
    requires OnlySinks(Node(g.heap[o].text, children))
    ensures OnlySinks(g.heap[o]) && FirstFor(g, Added(g, s, o, children).heap, values + [o], s.next)
  {
    var t := Added(g, s, o, children);
    NodeAdded(g, s, o, children);
    assert ValidNode(g.heap, o, g.heap[o]);
    forall c | 0 <= c < |children| ensures g.heap[o].children[c] == Sink && SameLanguage(g.heap, g.heap[o].children[c], t.heap, children[c]) {
      assert children[c] in children && g.heap[o].children[c] in g.heap[o].children;
      SameLanguageSameHead(g.heap, g.heap[o].children[c], s.heap, children[c]);
    }
    assert MadeFrom(g.heap, o, t.heap, s.next);
    MadeSame(g, o, t.heap, s.next);
    forall b | 0 <= b < |values| ensures !SameLanguage(g.heap, To(values[b]), t.heap, To(s.next)) {
      assert values[b] in values;
      SameSuffixesSameLanguage(g.heap, To(values[b]), t.heap, To(s.next));
      SameSuffixesSameLanguage(g.heap, To(o), t.heap, To(s.next));
    }
    assert FirstAt(g, t.heap, values + [o], s.next, |values|);
  }

  lemma EnteredInOrder(g: Dafsa, s: Joined, t: Joined, values: seq<nat>, o: nat, children: seq<Ref>)
    requires Valid(g) && Joining(g, t) && Grown(s, t) && o in g.heap && AddedUpTo(g, s, t, To(o))
    requires Suffixes(g.heap, To(o)) !in t.nodemap && (SingleLetters(g) ==> FirstOnes(g, t, values))
    requires Stand(g, o, t.heap, children) && |children| == |g.heap[o].children|
    ensures var u := Added(g, t, o, children);
            && Joining(g, u) && Grown(s, u) && AddedUpTo(g, s, u, To(o)) && Suffixes(g.heap, To(o)) in u.nodemap
            && (SingleLetters(g) ==> FirstOnes(g, u, if OnlySinks(g.heap[o]) then values + [o] else values))
  {
    NodeEntered(g, s, t, o, children);
    if SingleLetters(g) {
      FirstOnesEntered(g, t, values, o, children);
    }
  }

  class SuffixJoin {
    const g: Dafsa
    var heap: Heap
    var next: nat
    var nodemap: map<set<Word>, Ref>
    /** The values met so far, in the order of the walk. */
    ghost var values: seq<nat>

    constructor (g: Dafsa)
      requires Valid(g)
      ensures this.g == g && Joining(g, State()) && values == [] && FirstOnes(g, State(), values)
    {
      this.g := g;
      heap := map[];
      next := 0;
      nodemap := map[{[]} := Sink];
      values := [];
    }

    ghost function State(): Joined
      reads this
    {
      Joined(heap, next, nodemap)
    }

    /** In a plain graph, every word set is filed under the first value that has it. */
    ghost predicate Ordered()
      requires Valid(g)
      reads this
    {
      SingleLetters(g) ==> FirstOnes(g, State(), values)
    }

    /** Returns the node for the suffix set of `node`, made after its children if there is none. */
    method Join(node: Ref) returns (r: Ref)
      requires Valid(g) && ValidRef(g.heap, node) && Joining(g, State()) && Ordered()
      modifies this
      ensures Joining(g, State()) && Grown(old(State()), State())
      ensures ValidRef(heap, r) && SameLanguage(g.heap, node, heap, r)
      ensures AddedUpTo(g, old(State()), State(), node)
      ensures Ordered() && values == old(values) + ValueOrder(g.heap, node)
      decreases if node.Sink? then 0 else node.id + 1, 2, 0
    {
      if Suffixes(g.heap, node) !in nodemap {
        SinkIsFiled(g, State(), node);
        Make(node.id);
      } else {
        if SingleLetters(g) {
          FirstOnesFound(g, State(), values, node);
        }
        values := values + ValueOrder(g.heap, node);
      }
      r := nodemap[Suffixes(g.heap, node)];
      NodeFound(g, State(), node);
    }

    method Make(o: nat)
      requires Valid(g) && o in g.heap && Joining(g, State()) && Suffixes(g.heap, To(o)) !in nodemap && Ordered()
      modifies this
      ensures Joining(g, State()) && Grown(old(State()), State())
      ensures AddedUpTo(g, old(State()), State(), To(o)) && Suffixes(g.heap, To(o)) in nodemap
      ensures Ordered() && values == old(values) + ValueOrder(g.heap, To(o))
      decreases o + 1, 1, 0
    {
      var children := JoinChildren(o);
      Enter(o, children, old(State()));
      ValueOfNode(g.heap, o, old(values));
    }

    method Enter(o: nat, children: seq<Ref>, ghost s: Joined)
      requires Valid(g) && o in g.heap && Joining(g, State()) && Suffixes(g.heap, To(o)) !in nodemap && Ordered()
      requires Stand(g, o, heap, children) && |children| == |g.heap[o].children|
      requires Grown(s, State()) && AddedUpTo(g, s, State(), To(o))
      modifies this
      ensures Joining(g, State()) && Grown(s, State()) && AddedUpTo(g, s, State(), To(o)) && Suffixes(g.heap, To(o)) in nodemap
      ensures Ordered() && values == if OnlySinks(g.heap[o]) then old(values) + [o] else old(values)
    {
      ghost var u := Added(g, State(), o, children);
      EnteredInOrder(g, s, State(), values, o, children);
      values := if OnlySinks(g.heap[o]) then values + [o] else values;
      File(o, children);
      assert State() == u;
    }

    /** Makes the node and files it under its suffix set. */
    method File(o: nat, children: seq<Ref>)
      requires Valid(g) && o in g.heap
      modifies this
      ensures State() == Added(g, old(State()), o, children) && values == old(values)
    {
      heap := heap[next := Node(g.heap[o].text, children)];
      nodemap := nodemap[Suffixes(g.heap, To(o)) := To(next)];
      next := next + 1;
    }

    /** The first children of `o` have been joined, and `o` itself has not come up. */
    ghost predicate ChildrenJoined(o: nat, s: Joined, children: seq<Ref>)
      requires Valid(g)
      reads this
    {
      && o in g.heap && Joining(g, State()) && Grown(s, State()) && Ordered()
      && Suffixes(g.heap, To(o)) !in nodemap && AddedUpTo(g, s, State(), To(o)) && Stand(g, o, heap, children)
    }

    method JoinChildren(o: nat) returns (children: seq<Ref>)
      requires Valid(g) && o in g.heap && Joining(g, State()) && Suffixes(g.heap, To(o)) !in nodemap && Ordered()
      modifies this
      ensures ChildrenJoined(o, old(State()), children) && |children| == |g.heap[o].children|
      ensures values == old(values) + ChildValues(g.heap, o)
      decreases o + 1, 0, |g.heap[o].children| + 1
    {
      assert ValidNode(g.heap, o, g.heap[o]);
      children := [];
      for c := 0 to |g.heap[o].children|
        invariant |children| == c && ChildrenJoined(o, old(State()), children)
        invariant values == old(values) + ValuesOf(g.heap, g.heap[o].children, o, c)
      {
        ghost var below := ValuesOf(g.heap, g.heap[o].children, o, c);
        children := JoinChild(o, children, old(State()));
        assert old(values) + (below + ValueOrder(g.heap, g.heap[o].children[c])) == old(values) + below + ValueOrder(g.heap, g.heap[o].children[c]);
      }
    }

    method JoinChild(o: nat, children: seq<Ref>, ghost s: Joined) returns (more: seq<Ref>)
      requires Valid(g) && ChildrenJoined(o, s, children) && |children| < |g.heap[o].children|
      requires ValidNode(g.heap, o, g.heap[o])
      modifies this
      ensures ChildrenJoined(o, s, more) && |more| == |children| + 1
      ensures values == old(values) + ValueOrder(g.heap, g.heap[o].children[|children|])
      decreases o + 1, 0, 0
    {
      var next := g.heap[o].children[|children|];
      ghost var t := State();
      var child := Join(next);
      AddedBelow(g, s, t, State(), o, next);
      GrownTrans(s, t, State());
      StandExtended(g, o, t, State(), children, child);
      more := children + [child];
    }
  }

  ghost function ChildValues(h: Heap, o: nat): seq<nat>
    requires ValidHeap(h) && o in h
  {
    assert ValidNode(h, o, h[o]);
    ValuesOf(h, h[o].children, o, |h[o].children|)
  }

  lemma {:induction false} NoValues(h: Heap, rs: seq<Ref>, n: nat, k: nat)
    requires ValidHeap(h) && Bounded(h, rs, n) && k <= |rs| && forall c :: c in rs ==> c == Sink
    ensures ValuesOf(h, rs, n, k) == []
    decreases k
  {
    if k > 0 {
      assert rs[k - 1] in rs;
      NoValues(h, rs, n, k - 1);
    }
  }

  lemma ValueOfNode(h: Heap, o: nat, values: seq<nat>)
    requires ValidHeap(h) && o in h
    ensures var below := values + ChildValues(h, o);
            values + ValueOrder(h, To(o)) == if OnlySinks(h[o]) then below + [o] else below
  {
    assert ValidNode(h, o, h[o]);
    if OnlySinks(h[o]) {
      NoValues(h, h[o].children, o, |h[o].children|);
      assert values + [] == values;
    }
  }

  /** No two nodes spell the same words. */
  ghost predicate Injective(h: Heap) {
    forall i, j {:trigger SameLanguage(h, To(i), h, To(j))} ::
      i in h && j in h && SameLanguage(h, To(i), h, To(j)) ==> i == j
  }

  /** Every node of `r` was made from one of `g`, no two nodes of `r` spell the same words, and
      the source lists agree word for word. */
  ghost predicate SuffixesJoined(g: Dafsa, r: Dafsa) {
    && Valid(r)
    && (forall j :: j in r.heap ==> exists o :: MadeFrom(g.heap, o, r.heap, j))
    && Injective(r.heap)
    && |r.source| == |g.source|
    && (forall c :: 0 <= c < |g.source| ==> SameLanguage(g.heap, g.source[c], r.heap, r.source[c]))
  }

  lemma FiledOnce(g: Dafsa, s: Joined, i: nat, j: nat)
    requires Joining(g, s) && i in s.heap && j in s.heap && SameLanguage(s.heap, To(i), s.heap, To(j))
    ensures i == j
  {
    SameSuffixesSameLanguage(s.heap, To(i), s.heap, To(j));
    assert Filed(s, To(i)) && Filed(s, To(j));
  }

  /** The nodes that lead to the sink only, in the order of a depth-first walk from the source list. */
  ghost function Values(g: Dafsa): seq<nat>
    requires Valid(g)
  {
    ValuesOf(g.heap, g.source, g.next, |g.source|)
  }

  /** Of several values with the same words, the first one is kept. */
  ghost predicate FirstValues(g: Dafsa, r: Dafsa)
    requires Valid(g)
  {
    forall j {:trigger FirstFor(g, r.heap, Values(g), j)} ::
      j in r.heap && OnlySinks(r.heap[j]) ==> FirstFor(g, r.heap, Values(g), j)
  }

  method JoinSuffixes(g: Dafsa) returns (r: Dafsa)
    requires Valid(g)
    ensures SuffixesJoined(g, r) && (SingleLetters(g) ==> FirstValues(g, r))
  {
    var pass := new SuffixJoin(g);
    var source := JoinSource(pass);
    r := Dafsa(pass.heap, source, pass.next);
    forall i, j | i in r.heap && j in r.heap && SameLanguage(r.heap, To(i), r.heap, To(j)) ensures i == j {
      FiledOnce(g, pass.State(), i, j);
    }
  }

  method JoinSource(pass: SuffixJoin) returns (source: seq<Ref>)
    requires Valid(pass.g) && Joining(pass.g, pass.State()) && pass.Ordered() && pass.values == []
    modifies pass
    ensures Joining(pass.g, pass.State()) && ValidRefs(pass.heap, source) && |source| == |pass.g.source|
    ensures forall b :: 0 <= b < |source| ==> SameLanguage(pass.g.heap, pass.g.source[b], pass.heap, source[b])
    ensures pass.Ordered() && pass.values == Values(pass.g)
  {
    var roots := pass.g.source;
    source := [];
    for c := 0 to |roots|
      invariant |source| == c && Joining(pass.g, pass.State()) && ValidRefs(pass.heap, source)
      invariant forall b :: 0 <= b < c ==> SameLanguage(pass.g.heap, roots[b], pass.heap, source[b])
      invariant pass.Ordered() && pass.values == ValuesOf(pass.g.heap, roots, pass.g.next, c)
    {
      ghost var s := pass.State();
      var child := pass.Join(roots[c]);
      forall b | 0 <= b < c
        ensures ValidRef(pass.heap, source[b]) && SameLanguage(pass.g.heap, roots[b], pass.heap, source[b])
      {
        SuffixesExtended(s.heap, pass.heap, source[b]);
      }
      source := source + [child];
    }
  }

  /** Joining suffixes changes no word. */
  lemma SuffixesJoinedSpells(g: Dafsa, r: Dafsa, w: Word)
    requires Valid(g) && SuffixesJoined(g, r)
    ensures Spells(g, w) <==> Spells(r, w)
  {
    SameChildrenSameWords(g.heap, g.source, r.heap, r.source, w);
  }
}
