/** `join_labels` of make_dafsa.py: a node and its only child, when nothing else refers to that
    child, become one node with the two labels joined. */
module DafsaJoinLabels {
  import opened DafsaGraph
  import opened DafsaReferences

  /** The nodes made so far, and for each old identity the node that replaces it. */
  datatype Merged = Merged(heap: Heap, next: nat, nodemap: map<nat, Ref>)

  /** The replacement of an old reference; the sink stands for itself. */
  function Image(nodemap: map<nat, Ref>, r: Ref): Ref {
    match r
    case Sink => Sink
    case To(i) => if i in nodemap then nodemap[i] else Sink
  }

  function Images(nodemap: map<nat, Ref>, rs: seq<Ref>): (images: seq<Ref>)
    ensures |images| == |rs|
    ensures forall c :: 0 <= c < |rs| ==> images[c] == Image(nodemap, rs[c])
  {
    seq(|rs|, c requires 0 <= c < |rs| => Image(nodemap, rs[c]))
  }

  /** A single child that nothing else refers to. The count of the sink starts at two in the
      original, so that the sink never qualifies. */
  predicate OneToOne(parentcount: Counts, n: Node) {
    |n.children| == 1 && n.children[0].To? && n.children[0].id in parentcount &&
    parentcount[n.children[0].id] == 1
  }

  /** The node that replaces `n`. */
  function Replacement(parentcount: Counts, s: Merged, n: Node): (m: Node) {
    var children := Images(s.nodemap, n.children);
    if OneToOne(parentcount, n) && children[0].To? && children[0].id in s.heap then
      Node(n.text + s.heap[children[0].id].text, s.heap[children[0].id].children)
    else
      Node(n.text, children)
  }

  /** `i` has been replaced, after its children. */
  ghost predicate Replaced(g: Dafsa, parentcount: Counts, s: Merged, i: nat) {
    && i in g.heap && i in s.nodemap
    && s.nodemap[i].To? && s.nodemap[i].id in s.heap
    && (forall c :: c in g.heap[i].children && c.To? ==> c.id in s.nodemap)
    && s.heap[s.nodemap[i].id] == Replacement(parentcount, s, g.heap[i])
    && SameLanguage(g.heap, To(i), s.heap, s.nodemap[i])
  }

  ghost predicate Merging(g: Dafsa, parentcount: Counts, s: Merged) {
    && ValidHeap(s.heap)
    && (forall j :: j in s.heap ==> j < s.next)
    && (forall i {:trigger Replaced(g, parentcount, s, i)} :: i in s.nodemap ==> Replaced(g, parentcount, s, i))
    && (forall j :: j in s.heap ==> exists i :: i in s.nodemap && s.nodemap[i] == To(j))
  }

  /** Only counted nodes have been replaced, each by a node of its own. */
  ghost predicate Separate(parentcount: Counts, s: Merged) {
    && s.nodemap.Keys <= parentcount.Keys
    && forall i, j {:trigger Apart(s, i, j)} :: i in s.nodemap && j in s.nodemap && i != j ==> Apart(s, i, j)
  }

  ghost predicate Apart(s: Merged, i: nat, j: nat)
    requires i in s.nodemap && j in s.nodemap
  {
    s.nodemap[i] != s.nodemap[j]
  }

  lemma SeparateEntered(g: Dafsa, parentcount: Counts, s: Merged, i: nat)
    requires Merging(g, parentcount, s) && Separate(parentcount, s) && i in g.heap && i in parentcount
    ensures Separate(parentcount, Entered(g, parentcount, s, i))
  {
    var t := Entered(g, parentcount, s, i);
    forall o | o in s.nodemap ensures s.nodemap[o] != To(s.next) {
      assert Replaced(g, parentcount, s, o);
    }
    forall a, b | a in t.nodemap && b in t.nodemap && a != b ensures Apart(t, a, b) {
      assert a in s.nodemap && b in s.nodemap ==> Apart(s, a, b);
    }
  }

  ghost predicate Grown(s: Merged, t: Merged) {
    && (forall j :: j in s.heap ==> j in t.heap && t.heap[j] == s.heap[j])
    && (forall i :: i in s.nodemap ==> i in t.nodemap && t.nodemap[i] == s.nodemap[i])
  }

  lemma ReplacedExtended(g: Dafsa, parentcount: Counts, s: Merged, t: Merged, i: nat)
    requires Merging(g, parentcount, s) && Grown(s, t) && Replaced(g, parentcount, s, i)
    ensures Replaced(g, parentcount, t, i)
  {
    LanguageExtended(s.heap, t.heap, s.nodemap[i]);
    var n := g.heap[i];
    forall c | 0 <= c < |n.children| ensures Image(s.nodemap, n.children[c]) == Image(t.nodemap, n.children[c]) {
      assert n.children[c] in n.children;
    }
    assert Images(s.nodemap, n.children) == Images(t.nodemap, n.children);
    assert OneToOne(parentcount, n) ==> Replaced(g, parentcount, s, n.children[0].id) by {
      assert OneToOne(parentcount, n) ==> n.children[0] in n.children;
    }
  }

  /** The image of a replaced reference spells the same words. */
  lemma ImageSameLanguage(g: Dafsa, parentcount: Counts, s: Merged, r: Ref)
    requires Merging(g, parentcount, s) && (r.To? ==> r.id in s.nodemap)
    ensures ValidRef(s.heap, Image(s.nodemap, r))
    ensures SameLanguage(g.heap, r, s.heap, Image(s.nodemap, r))
  {
    if r.To? {
      assert Replaced(g, parentcount, s, r.id);
    }
  }

  /** Joining the labels along a one-to-one connection keeps the words. */
  lemma JoinedLabels(g: Dafsa, i: nat, h: Heap, c: nat, k: Heap, j: nat)
    requires i in g.heap && |g.heap[i].children| == 1 && |g.heap[i].text| > 0
    requires c in h && |h[c].text| > 0 && SameLanguage(g.heap, g.heap[i].children[0], h, To(c))
    requires j in k && k[j] == Node(g.heap[i].text + h[c].text, h[c].children)
    requires forall r, w :: r in h[c].children ==> (Accepts(h, r, w) <==> Accepts(k, r, w))
    ensures SameLanguage(g.heap, To(i), k, To(j))
  {
    var a, b := g.heap[i].text, h[c].text;
    forall w ensures Accepts(g.heap, To(i), w) <==> Accepts(k, To(j), w) {
      if |a| <= |w| {
        var v := w[|a|..];
        assert AcceptsAny(g.heap, g.heap[i].children, v) <==> Accepts(g.heap, g.heap[i].children[0], v);
        if |b| <= |v| {
          assert w[..|a + b|] == w[..|a|] + v[..|b|];
          assert w[|a + b|..] == v[|b|..];
          assert AcceptsAny(h, h[c].children, v[|b|..]) <==> AcceptsAny(k, h[c].children, v[|b|..]);
        }
      }
    }
  }

  ghost function Entered(g: Dafsa, parentcount: Counts, s: Merged, i: nat): Merged
    requires i in g.heap
  {
    Merged(s.heap[s.next := Replacement(parentcount, s, g.heap[i])], s.next + 1, s.nodemap[i := To(s.next)])
  }

  ghost predicate ChildrenDone(g: Dafsa, s: Merged, i: nat) {
    i in g.heap && forall c :: c in g.heap[i].children && c.To? ==> c.id in s.nodemap
  }

  lemma ReplacementValid(g: Dafsa, parentcount: Counts, s: Merged, i: nat)
    requires Valid(g) && Merging(g, parentcount, s) && ChildrenDone(g, s, i) && i !in s.nodemap
    ensures var t := Entered(g, parentcount, s, i);
            ValidHeap(t.heap) && Grown(s, t)
  {
    var t := Entered(g, parentcount, s, i);
    var n := t.heap[s.next];
    assert ValidNode(g.heap, i, g.heap[i]);
    forall c | c in n.children ensures ValidRef(t.heap, c) && (c.To? ==> c.id < s.next) {
      forall d | d in g.heap[i].children ensures ValidRef(s.heap, Image(s.nodemap, d)) {
        ImageSameLanguage(g, parentcount, s, d);
      }
      var children := Images(s.nodemap, g.heap[i].children);
      if c !in children {
        assert ValidNode(s.heap, children[0].id, s.heap[children[0].id]);
      }
    }
    forall j | j in s.heap ensures ValidNode(t.heap, j, t.heap[j]) {
      assert ValidNode(s.heap, j, s.heap[j]);
    }
  }

  lemma ReplacementSameLanguage(g: Dafsa, parentcount: Counts, s: Merged, i: nat)
    requires Valid(g) && Merging(g, parentcount, s) && ChildrenDone(g, s, i) && i !in s.nodemap
    ensures var t := Entered(g, parentcount, s, i);
            SameLanguage(g.heap, To(i), t.heap, To(s.next))
  {
    var t := Entered(g, parentcount, s, i);
    var n := g.heap[i];
    assert ValidNode(g.heap, i, n);
    ReplacementValid(g, parentcount, s, i);
    forall r, w | ValidRef(s.heap, r) ensures Accepts(s.heap, r, w) <==> Accepts(t.heap, r, w) {
      AcceptsExtended(s.heap, t.heap, r, w);
    }
    forall c | 0 <= c < |n.children|
      ensures ValidRef(s.heap, Image(s.nodemap, n.children[c]))
      ensures SameLanguage(g.heap, n.children[c], s.heap, Image(s.nodemap, n.children[c]))
    {
      assert n.children[c] in n.children;
      ImageSameLanguage(g, parentcount, s, n.children[c]);
    }
    var image := Image(s.nodemap, n.children[0]);
    if OneToOne(parentcount, n) && image.To? {
      assert ValidNode(s.heap, image.id, s.heap[image.id]);
      JoinedLabels(g, i, s.heap, image.id, t.heap, s.next);
    } else {
      SameNodeSameLanguage(g.heap, i, t.heap, s.next);
    }
  }

  lemma ReplacementStays(g: Dafsa, parentcount: Counts, s: Merged, i: nat)
    requires Valid(g) && Merging(g, parentcount, s) && ChildrenDone(g, s, i) && i !in s.nodemap
    ensures Replacement(parentcount, Entered(g, parentcount, s, i), g.heap[i]) == Replacement(parentcount, s, g.heap[i])
    ensures forall c :: c in g.heap[i].children && c.To? ==> c.id != i
  {
    var n := g.heap[i];
    var t := Entered(g, parentcount, s, i);
    assert ValidNode(g.heap, i, n);
    assert Images(s.nodemap, n.children) == Images(t.nodemap, n.children);
    if OneToOne(parentcount, n) {
      assert n.children[0] in n.children;
      ImageSameLanguage(g, parentcount, s, n.children[0]);
    }
  }

  lemma ReplacementEntered(g: Dafsa, parentcount: Counts, s: Merged, i: nat)
    requires Valid(g) && Merging(g, parentcount, s) && ChildrenDone(g, s, i) && i !in s.nodemap
    ensures var t := Entered(g, parentcount, s, i);
            Merging(g, parentcount, t) && Grown(s, t) && i in t.nodemap
  {
    var t := Entered(g, parentcount, s, i);
    ReplacementValid(g, parentcount, s, i);
    ReplacementSameLanguage(g, parentcount, s, i);
    ReplacementStays(g, parentcount, s, i);
    assert Replaced(g, parentcount, t, i);
    forall o | o in s.nodemap ensures Replaced(g, parentcount, t, o) {
      ReplacedExtended(g, parentcount, s, t, o);
    }
    forall j | j in t.heap ensures exists o :: o in t.nodemap && t.nodemap[o] == To(j) {
      if j == s.next {
        assert t.nodemap[i] == To(j);
      } else {
        var o :| o in s.nodemap && s.nodemap[o] == To(j);
        assert t.nodemap[o] == To(j);
      }
    }
  }

  lemma GrownTrans(s: Merged, t: Merged, u: Merged)
    requires Grown(s, t) && Grown(t, u)
    ensures Grown(s, u)
  {
  }

  /** The children of counted nodes are counted. */
  ghost predicate Closed(g: Dafsa, parentcount: Counts) {
    forall p {:trigger ChildrenCounted(g, parentcount, p)} :: p in parentcount ==> ChildrenCounted(g, parentcount, p)
  }

  ghost predicate ChildrenCounted(g: Dafsa, parentcount: Counts, p: nat) {
    p in g.heap && forall c :: c in g.heap[p].children && c.To? ==> c.id in parentcount
  }

  class LabelJoin {
    const g: Dafsa
    const parentcount: Counts
    var heap: Heap
    var next: nat
    var nodemap: map<nat, Ref>

    constructor (g: Dafsa, parentcount: Counts)
      ensures this.g == g && this.parentcount == parentcount && Merging(g, parentcount, State()) && Separate(parentcount, State())
    {
      this.g := g;
      this.parentcount := parentcount;
      heap := map[];
      next := 0;
      nodemap := map[];
    }

    ghost function State(): Merged
      reads this
    {
      Merged(heap, next, nodemap)
    }

    ghost predicate Ready()
      reads this
    {
      Valid(g) && Closed(g, parentcount) && Merging(g, parentcount, State()) && Separate(parentcount, State())
    }

    /** Makes the replacement of `node`, after those of its children. */
    method Join(node: Ref)
      requires Ready() && ValidRef(g.heap, node) && (node.To? ==> node.id in parentcount)
      modifies this
      ensures Ready() && Grown(old(State()), State())
      ensures node.To? ==> node.id in nodemap
      ensures forall i :: i in nodemap && i !in old(nodemap) ==> node.To? && i <= node.id
      decreases if node.Sink? then 0 else node.id + 1, 1
    {
      if node.To? && node.id !in nodemap {
        JoinChildren(node.id);
        ghost var t := State();
        Enter(node.id);
        GrownTrans(old(State()), t, State());
      }
    }

    method JoinSource()
      requires Ready() && forall c :: c in g.source && c.To? ==> c.id in parentcount
      modifies this
      ensures Ready() && forall c :: c in g.source && c.To? ==> c.id in nodemap
    {
      for c := 0 to |g.source|
        invariant Ready() && forall b :: 0 <= b < c && g.source[b].To? ==> g.source[b].id in nodemap
      {
        assert g.source[c] in g.source;
        Join(g.source[c]);
      }
    }

    method JoinChildren(i: nat)
      requires Ready() && i in g.heap && i in parentcount && i !in nodemap
      modifies this
      ensures Ready() && Grown(old(State()), State()) && ChildrenDone(g, State(), i) && i !in nodemap
      ensures forall o :: o in nodemap && o !in old(nodemap) ==> o < i
      decreases i + 1, 0
    {
      var children := g.heap[i].children;
      assert ValidNode(g.heap, i, g.heap[i]);
      for c := 0 to |children|
        invariant Ready() && Grown(old(State()), State()) && i !in nodemap
        invariant forall b :: 0 <= b < c && children[b].To? ==> children[b].id in nodemap
        invariant forall o :: o in nodemap && o !in old(nodemap) ==> o < i
      {
        ghost var t := State();
        assert children[c] in children && ChildrenCounted(g, parentcount, i);
        Join(children[c]);
        GrownTrans(old(State()), t, State());
      }
    }

    method Enter(i: nat)
      requires Ready() && ChildrenDone(g, State(), i) && i !in nodemap && i in parentcount
      modifies this
      ensures Ready() && Grown(old(State()), State()) && nodemap.Keys == old(nodemap).Keys + {i}
    {
      ghost var u := Entered(g, parentcount, State(), i);
      ReplacementEntered(g, parentcount, State(), i);
      SeparateEntered(g, parentcount, State(), i);
      heap := heap[next := Replacement(parentcount, Merged(heap, next, nodemap), g.heap[i])];
      nodemap := nodemap[i := To(next)];
      next := next + 1;
      assert State() == u;
    }
  }

  /** `r` consists of the replacements of the nodes of `g`. */
  ghost predicate LabelsJoined(g: Dafsa, parentcount: Counts, r: Dafsa, nodemap: map<nat, Ref>) {
    && Valid(r)
    && Merging(g, parentcount, Merged(r.heap, r.next, nodemap))
    && Separate(parentcount, Merged(r.heap, r.next, nodemap))
    && (forall c :: c in g.source && c.To? ==> c.id in nodemap)
    && r.source == Images(nodemap, g.source)
  }

  lemma SourceMerged(g: Dafsa, parentcount: Counts, s: Merged)
    requires Merging(g, parentcount, s) && Separate(parentcount, s) && forall c :: c in g.source && c.To? ==> c.id in s.nodemap
    ensures LabelsJoined(g, parentcount, Dafsa(s.heap, Images(s.nodemap, g.source), s.next), s.nodemap)
  {
    var source := Images(s.nodemap, g.source);
    forall c | c in source ensures ValidRef(s.heap, c) {
      var b :| 0 <= b < |source| && source[b] == c;
      ImageSameLanguage(g, parentcount, s, g.source[b]);
    }
  }

  method JoinLabels(g: Dafsa) returns (r: Dafsa, ghost parentcount: Counts, ghost nodemap: map<nat, Ref>)
    requires Valid(g)
    ensures ReferenceCounts(g, parentcount) && LabelsJoined(g, parentcount, r, nodemap)
  {
    var counts := CountReferences(g);
    parentcount := counts;
    assert Closed(g, counts);
    var pass := new LabelJoin(g, counts);
    pass.JoinSource();
    nodemap := pass.nodemap;
    r := Dafsa(pass.heap, Images(pass.nodemap, g.source), pass.next);
    SourceMerged(g, counts, pass.State());
  }

  /** Joining labels changes no word. */
  lemma LabelsJoinedSpells(g: Dafsa, parentcount: Counts, r: Dafsa, nodemap: map<nat, Ref>, w: Word)
    requires Valid(g) && LabelsJoined(g, parentcount, r, nodemap)
    ensures Spells(g, w) <==> Spells(r, w)
  {
    forall c | 0 <= c < |g.source| ensures SameLanguage(g.heap, g.source[c], r.heap, r.source[c]) {
      ImageSameLanguage(g, parentcount, Merged(r.heap, r.next, nodemap), g.source[c]);
    }
    SameChildrenSameWords(g.heap, g.source, r.heap, r.source, w);
  }
}
