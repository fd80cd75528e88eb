/** `encode` of make_dafsa.py: the nodes, children first, written backwards into a byte array. */
module DafsaEncode {
  import opened DafsaGraph
  import opened DafsaBuild
  import opened DafsaReferences
  import opened DafsaTopSort
  import opened Sums
  import opened DafsaLinks

  // What the bytes mean

  /** The characters of `text` stand at `d`, the last one with bit 7 set if `end`. */
  ghost predicate TextAt(image: seq<int>, d: nat, text: Word, end: bool) {
    && |text| <= d <= |image|
    && forall k :: 0 <= k < |text| ==> ByteAt(image, d - k) == CharByte(text, k, end)
  }

  function CharByte(text: Word, k: nat, end: bool): int
    requires k < |text|
  {
    if end && k == |text| - 1 then text[k] + 0x80 else text[k]
  }

  /** The top bit marks the end of a label, and the other seven are the character. */
  lemma MarkedCharacter(text: Word, k: nat, end: bool)
    requires k < |text| && 0 <= text[k] < 128
    ensures CharByte(text, k, end) % 128 == text[k] && (CharByte(text, k, end) / 128 == 1 <==> end && k == |text| - 1)
    ensures 0 <= CharByte(text, k, end) < 256
  {
  }

  /** At `d` stand links to the children, in some order. */
  ghost predicate LinksTo(image: seq<int>, d: nat, children: seq<Ref>, offsets: map<nat, nat>) {
    exists sorted: seq<Ref> ::
      multiset(sorted) == multiset(children) && Placed(children, offsets) &&
      LinksAt(image, d, d, OffsetsOf(sorted, offsets))
  }

  /** The only child of `n` stands at `d`. */
  ghost predicate OnlyChildAt(n: Node, d: nat, offsets: map<nat, nat>) {
    |n.children| == 1 && n.children[0].To? && n.children[0].id in offsets && offsets[n.children[0].id] == d
  }

  /** Node `n` stands at `d`: as a prefix of its only child, in front of the sink, or with links. */
  ghost predicate NodeAt(image: seq<int>, d: nat, n: Node, offsets: map<nat, nat>) {
    && 0 < |n.text| <= d
    && ((TextAt(image, d, n.text, false) && OnlyChildAt(n, d - |n.text|, offsets)) ||
        (TextAt(image, d, n.text, true) &&
         (n.children == [Sink] || LinksTo(image, d - |n.text|, n.children, offsets))))
  }

  /** Every node with an offset stands there. */
  ghost predicate Laid(h: Heap, offsets: map<nat, nat>, image: seq<int>) {
    && Offsets(offsets, |image|)
    && Bytes(image)
    && offsets.Keys <= h.Keys
    && forall i {:trigger NodeAt(image, offsets[i], h[i], offsets)} :: i in offsets ==> NodeAt(image, offsets[i], h[i], offsets)
  }

  /** The whole graph: links to the source list first, then the nodes. */
  ghost predicate Encodes(g: Dafsa, offsets: map<nat, nat>, image: seq<int>) {
    && Laid(g.heap, offsets, image)
    && LinksTo(image, |image|, g.source, offsets)
  }

  // Writing at the front keeps what is there

  lemma TextAtPrefixed(x: seq<int>, image: seq<int>, d: nat, text: Word, end: bool)
    requires TextAt(image, d, text, end)
    ensures TextAt(x + image, d, text, end)
  {
    forall k | 0 <= k < |text| ensures ByteAt(x + image, d - k) == CharByte(text, k, end) {
      BytePrefixed(x, image, d - k);
    }
  }

  lemma LinksToKept(x: seq<int>, image: seq<int>, d: nat, children: seq<Ref>, offsets: map<nat, nat>, more: map<nat, nat>)
    requires LinksTo(image, d, children, offsets)
    requires forall i :: i in offsets ==> i in more && more[i] == offsets[i]
    ensures LinksTo(x + image, d, children, more)
  {
    var sorted: seq<Ref> :| multiset(sorted) == multiset(children) && Placed(children, offsets) &&
      LinksAt(image, d, d, OffsetsOf(sorted, offsets));
    LinksAtPrefixed(x, image, d, d, OffsetsOf(sorted, offsets));
    forall k | 0 <= k < |sorted| ensures OffsetOf(sorted[k], more) == OffsetOf(sorted[k], offsets) {
      SameElements(children, sorted, sorted[k]);
    }
    assert OffsetsOf(sorted, more) == OffsetsOf(sorted, offsets);
  }

  lemma NodeAtKept(x: seq<int>, image: seq<int>, d: nat, n: Node, offsets: map<nat, nat>, more: map<nat, nat>)
    requires NodeAt(image, d, n, offsets)
    requires forall i :: i in offsets ==> i in more && more[i] == offsets[i]
    ensures NodeAt(x + image, d, n, more)
  {
    if TextAt(image, d, n.text, false) && OnlyChildAt(n, d - |n.text|, offsets) {
      TextAtPrefixed(x, image, d, n.text, false);
    } else {
      TextAtPrefixed(x, image, d, n.text, true);
      if n.children != [Sink] {
        LinksToKept(x, image, d - |n.text|, n.children, offsets, more);
      }
    }
  }

  lemma OffsetsGrown(offsets: map<nat, nat>, current: nat, i: nat, d: nat)
    requires Offsets(offsets, current) && i !in offsets && d > current
    ensures Offsets(offsets[i := d], d)
  {
  }

  /** One more node, written at the front, with the offset that this gives it. */
  lemma NodeLaid(h: Heap, offsets: map<nat, nat>, image: seq<int>, x: seq<int>, i: nat)
    requires Laid(h, offsets, image) && i !in offsets && i in h && |x| > 0 && Bytes(x)
    requires NodeAt(x + image, |x + image|, h[i], offsets)
    ensures Laid(h, offsets[i := |x + image|], x + image)
  {
    var more := offsets[i := |x + image|];
    OffsetsGrown(offsets, |image|, i, |x + image|);
    forall j | j in more ensures j in h && NodeAt(x + image, more[j], h[j], more) {
      if j == i {
        NodeAtKept([], x + image, |x + image|, h[i], offsets, more);
        assert [] + (x + image) == x + image;
      } else {
        NodeAtKept(x, image, offsets[j], h[j], offsets, more);
      }
    }
  }

  // Labels

  /** `encode_prefix` and `encode_label`, in memory order. */
  function LabelBytes(text: Word, end: bool): (bytes: seq<int>)
    ensures |bytes| == |text|
  {
    seq(|text|, k requires 0 <= k < |text| => CharByte(text, k, end))
  }

  lemma LabelRead(text: Word, end: bool, image: seq<int>)
    requires |text| > 0
    ensures TextAt(LabelBytes(text, end) + image, |text| + |image|, text, end)
  {
    var all := LabelBytes(text, end) + image;
    forall k | 0 <= k < |text| ensures ByteAt(all, |all| - k) == CharByte(text, k, end) {
      assert ByteAt(all, |all| - k) == all[k];
    }
  }

  lemma LabelIsBytes(n: Node, end: bool)
    requires Shaped(n)
    ensures Bytes(LabelBytes(n.text, end))
  {
  }

  // Writing

  /** The output is built backwards: appending reversed bytes puts them in front. */
  method Emit(output: seq<int>, ghost image: seq<int>, bytes: seq<int>) returns (longer: seq<int>)
    requires Reversed(output) == image
    ensures Reversed(longer) == bytes + image && |longer| == |bytes| + |image|
  {
    longer := output + Reversed(bytes);
    ReversedConcat(output, Reversed(bytes));
    ReversedTwice(bytes);
  }

  lemma GoodChildren(g: Dafsa, children: seq<Ref>, offsets: map<nat, nat>)
    requires Valid(g) && ValidRefs(g.heap, children) && Deterministic(g.heap, children) && |children| > 0
    requires forall c :: c in children && c.To? ==> c.id in offsets
    ensures children[0].To? ==> Placed(children, offsets) && Distinct(children)
    ensures children[0].Sink? && |children| == 1 ==> children == [Sink]
  {
  }

  /** The links just written read back as links to the children. */
  lemma LinksWritten(children: seq<Ref>, sorted: seq<Ref>, offsets: map<nat, nat>, image: seq<int>, links: seq<int>)
    requires InOrder(children, sorted, offsets) && |sorted| > 0 && |image| > 0
    requires LinksFor(OffsetsOf(sorted, offsets), |image| + |links|, links)
    ensures LinksTo(links + image, |links + image|, children, offsets) && Bytes(links)
  {
    FlaggedReads(|image| + |links|, OffsetsOf(sorted, offsets), image);
    FlaggedBytes(Distances(|image| + |links|, OffsetsOf(sorted, offsets)));
  }

  /** A node with its children placed can be written as a prefix if its only child comes next. */
  lemma PrefixWritten(n: Node, offsets: map<nat, nat>, image: seq<int>)
    requires Shaped(n) && OnlyChildAt(n, |image|, offsets)
    ensures var x := LabelBytes(n.text, false);
            NodeAt(x + image, |x + image|, n, offsets) && Bytes(x)
  {
    LabelRead(n.text, false, image);
    LabelIsBytes(n, false);
  }

  lemma NodeWritten(n: Node, offsets: map<nat, nat>, image: seq<int>, links: seq<int>)
    requires Shaped(n) && Bytes(links)
    requires (n.children == [Sink] && links == []) || LinksTo(links + image, |links + image|, n.children, offsets)
    ensures var x := LabelBytes(n.text, true) + links;
            NodeAt(x + image, |x + image|, n, offsets) && Bytes(x)
  {
    var bytes := LabelBytes(n.text, true);
    LabelRead(n.text, true, links + image);
    LabelIsBytes(n, true);
    assert bytes + links + image == bytes + (links + image);
    if LinksTo(links + image, |links + image|, n.children, offsets) {
      LinksToKept(bytes, links + image, |links + image|, n.children, offsets, offsets);
    }
  }

  // How many bytes there can be

  /** The most that a node can take: its label, and three bytes for each link. */
  ghost function Cost(n: Node): nat {
    |n.text| + 3 * |n.children|
  }

  ghost function Costs(h: Heap, v: set<nat>): map<nat, nat> {
    map i | i in v && i in h :: Cost(h[i])
  }

  /** The most that the nodes of `v` can take. */
  ghost function Size(h: Heap, v: set<nat>): nat {
    Total(Costs(h, v))
  }

  lemma SizeWith(h: Heap, v: set<nat>, i: nat)
    requires i !in v && i in h
    ensures Size(h, v + {i}) == Size(h, v) + Cost(h[i])
  {
    TotalWithout(Costs(h, v + {i}), i);
    assert Costs(h, v + {i}) - {i} == Costs(h, v);
  }

  lemma SizeMonotone(h: Heap, v: set<nat>, w: set<nat>)
    requires v <= w
    ensures Size(h, v) <= Size(h, w)
  {
    TotalMonotone(Costs(h, v), Costs(h, w));
  }

  /** The most bytes that a graph can take. */
  ghost function Footprint(g: Dafsa): nat {
    Size(g.heap, Live(g)) + 3 * |g.source|
  }

  /** A distance that does not fit means a graph that large. */
  lemma TooLarge(g: Dafsa, i: nat, offsets: map<nat, nat>, current: nat)
    requires Valid(g) && offsets.Keys <= Live(g) && i in Live(g) && i !in offsets
    requires current <= Size(g.heap, offsets.Keys)
    ensures current + 3 * |g.heap[i].children| <= Footprint(g)
    ensures current + Cost(g.heap[i]) <= Size(g.heap, offsets.Keys + {i})
  {
    SizeWith(g.heap, offsets.Keys, i);
    SizeMonotone(g.heap, offsets.Keys + {i}, Live(g));
  }

  // The run of the encoder over a given order of the nodes

  /** The nodes written so far, and where. */
  datatype Layout = Layout(offsets: map<nat, nat>, image: seq<int>)

  /** The bytes of a node behind `current` bytes: a prefix of its only child if that comes next, and
      otherwise its label and its links. */
  ghost function NodeImage(n: Node, offsets: map<nat, nat>, current: nat): seq<int> {
    if OnlyChildAt(n, current, offsets) then LabelBytes(n.text, false)
    else LabelBytes(n.text, true) + LinkList(n.children, offsets, current)
  }

  ghost predicate NodeReaches(n: Node, offsets: map<nat, nat>, current: nat) {
    OnlyChildAt(n, current, offsets) || Reach(n.children, offsets, current)
  }

  /** One more node in front. */
  ghost function InFront(g: Dafsa, l: Layout, i: nat): Layout {
    if i !in g.heap then l else
    var image := NodeImage(g.heap[i], l.offsets, |l.image|) + l.image;
    Layout(l.offsets[i := |image|], image)
  }

  /** The nodes from `k` on, the last one written first. */
  ghost function LaidOut(g: Dafsa, nodes: seq<nat>, k: nat): Layout
    decreases |nodes| - k
  {
    if k >= |nodes| then Layout(map[], []) else InFront(g, LaidOut(g, nodes, k + 1), nodes[k])
  }

  /** The links of node `k` reach what they name, from where that node is written. */
  ghost predicate ReachesAt(g: Dafsa, nodes: seq<nat>, k: nat) {
    k < |nodes| && nodes[k] in g.heap ==>
      var l := LaidOut(g, nodes, k + 1);
      NodeReaches(g.heap[nodes[k]], l.offsets, |l.image|)
  }

  ghost predicate SourceReaches(g: Dafsa, nodes: seq<nat>) {
    var l := LaidOut(g, nodes, 0);
    Reach(g.source, l.offsets, |l.image|)
  }

  /** The links of the nodes from `k` on reach. */
  ghost predicate ReachFrom(g: Dafsa, nodes: seq<nat>, k: nat) {
    forall a: nat {:trigger ReachesAt(g, nodes, a)} :: k <= a ==> ReachesAt(g, nodes, a)
  }

  /** All links of the run reach. */
  ghost predicate AllReach(g: Dafsa, nodes: seq<nat>) {
    ReachFrom(g, nodes, 0) && SourceReaches(g, nodes)
  }

  /** The image of the whole graph. */
  ghost function ImageOf(g: Dafsa, nodes: seq<nat>): seq<int> {
    var l := LaidOut(g, nodes, 0);
    LinkList(g.source, l.offsets, |l.image|) + l.image
  }

  ghost predicate RepeatedSink(n: Node) {
    Sink in n.children && |n.children| > 1
  }

  /** No reachable node lists the sink twice. */
  ghost predicate NoRepeats(g: Dafsa) {
    forall i :: i in Live(g) ==> !RepeatedSink(g.heap[i])
  }

  /** What `encode` knows when it comes to node `i`. */
  ghost predicate Ready(g: Dafsa, i: nat, offsets: map<nat, nat>, image: seq<int>) {
    && GoodGraph(g) && i in g.heap && i !in offsets && Laid(g.heap, offsets, image)
    && forall c :: c in g.heap[i].children && c.To? ==> c.id in offsets
  }

  lemma ReadyChildren(g: Dafsa, i: nat, offsets: map<nat, nat>, image: seq<int>)
    requires Ready(g, i, offsets, image)
    ensures var n := g.heap[i];
            && Shaped(n)
            && (n.children[0].To? ==> Placed(n.children, offsets) && Distinct(n.children) && |image| > 0)
            && (n.children[0].Sink? ==> Sink in n.children)
            && (n.children[0].Sink? && |n.children| == 1 ==> n.children == [Sink])
  {
    var n := g.heap[i];
    assert ValidNode(g.heap, i, n) && GoodNode(g.heap, i);
    GoodChildren(g, n.children, offsets);
    assert n.children[0] in n.children;
  }

  /** What may come of encoding node `i` behind `current` bytes. */
  ghost predicate NodeOutcome(g: Dafsa, i: nat, offsets: map<nat, nat>, current: nat, r: Result<seq<int>>)
    requires i in g.heap
  {
    var n := g.heap[i];
    match r
    case Ok(bytes) =>
      !RepeatedSink(n) && NodeReaches(n, offsets, current) && bytes == NodeImage(n, offsets, current) && |bytes| <= Cost(n)
    case Err(BadDistance) => !NodeReaches(n, offsets, current) && current + 3 * |n.children| >= MAX_DISTANCE
    case Err(e) => e == AssertionFailed && RepeatedSink(n)
  }

  /** What `encode_links` makes of the children of a node. */
  ghost predicate LinksMade(children: seq<Ref>, offsets: map<nat, nat>, current: nat, sorted: seq<Ref>, r: Result<seq<int>>) {
    && |children| > 0
    && (children[0].Sink? ==> r == if |children| == 1 then Ok([]) else Err(AssertionFailed))
    && (children[0].To? ==> InOrder(children, sorted, offsets) && |sorted| > 0 && (r.Ok? <==> Reach(children, offsets, current)))
    && (children[0].To? && r.Err? ==> r.error == BadDistance && current + 3 * |children| >= MAX_DISTANCE)
    && (children[0].To? && r.Ok? ==> LinksFor(OffsetsOf(sorted, offsets), current + |r.value|, r.value))
    && (r.Ok? ==> r.value == LinkList(children, offsets, current) && |r.value| <= 3 * |children|)
  }

  lemma LinksOutcome(g: Dafsa, i: nat, offsets: map<nat, nat>, image: seq<int>, sorted: seq<Ref>, links: Result<seq<int>>)
    requires Ready(g, i, offsets, image) && !OnlyChildAt(g.heap[i], |image|, offsets)
    requires LinksMade(g.heap[i].children, offsets, |image|, sorted, links)
    ensures NodeOutcome(g, i, offsets, |image|, if links.Err? then links else Ok(LabelBytes(g.heap[i].text, true) + links.value))
  {
    ReadyChildren(g, i, offsets, image);
  }

  lemma LinkedNodeAt(n: Node, offsets: map<nat, nat>, image: seq<int>, sorted: seq<Ref>, links: seq<int>)
    requires Shaped(n) && LinksMade(n.children, offsets, |image|, sorted, Ok(links)) && (n.children[0].To? ==> |image| > 0)
    ensures var bytes := LabelBytes(n.text, true) + links;
            |bytes| > 0 && Bytes(bytes) && NodeAt(bytes + image, |bytes + image|, n, offsets)
  {
    if n.children[0].To? {
      LinksWritten(n.children, sorted, offsets, image, links);
    } else {
      assert n.children == [Sink];
    }
    NodeWritten(n, offsets, image, links);
  }

  lemma ReadyNodeAt(g: Dafsa, i: nat, offsets: map<nat, nat>, image: seq<int>, sorted: seq<Ref>, links: seq<int>)
    requires Ready(g, i, offsets, image) && LinksMade(g.heap[i].children, offsets, |image|, sorted, Ok(links))
    ensures var bytes := LabelBytes(g.heap[i].text, true) + links;
            |bytes| > 0 && Bytes(bytes) && NodeAt(bytes + image, |bytes + image|, g.heap[i], offsets)
  {
    ReadyChildren(g, i, offsets, image);
    LinkedNodeAt(g.heap[i], offsets, image, sorted, links);
  }

  method LinksOf(g: Dafsa, i: nat, offsets: map<nat, nat>, ghost image: seq<int>, current: nat)
      returns (links: Result<seq<int>>, ghost sorted: seq<Ref>)
    requires Ready(g, i, offsets, image) && current == |image|
    ensures LinksMade(g.heap[i].children, offsets, current, sorted, links)
  {
    ReadyChildren(g, i, offsets, image);
    links, sorted := EncodeLinks(g.heap[i].children, offsets, current);
  }

  /** The label and the links of node `i`, in memory order. */
  method EncodeWithLinks(g: Dafsa, i: nat, offsets: map<nat, nat>, ghost image: seq<int>, current: nat) returns (r: Result<seq<int>>)
    requires Ready(g, i, offsets, image) && current == |image| && !OnlyChildAt(g.heap[i], current, offsets)
    ensures NodeOutcome(g, i, offsets, current, r)
    ensures r.Ok? ==> |r.value| > 0 && Bytes(r.value) && NodeAt(r.value + image, |r.value + image|, g.heap[i], offsets)
  {
    var links, sorted := LinksOf(g, i, offsets, image, current);
    LinksOutcome(g, i, offsets, image, sorted, links);
    if links.Err? {
      return links;
    }
    ReadyNodeAt(g, i, offsets, image, sorted, links.value);
    r := Ok(LabelBytes(g.heap[i].text, true) + links.value);
  }

  lemma PrefixOutcome(g: Dafsa, i: nat, offsets: map<nat, nat>, image: seq<int>)
    requires Ready(g, i, offsets, image) && OnlyChildAt(g.heap[i], |image|, offsets)
    ensures var bytes := LabelBytes(g.heap[i].text, false);
            && NodeOutcome(g, i, offsets, |image|, Ok(bytes))
            && |bytes| > 0 && Bytes(bytes) && NodeAt(bytes + image, |bytes + image|, g.heap[i], offsets)
  {
    ReadyChildren(g, i, offsets, image);
    PrefixWritten(g.heap[i], offsets, image);
  }

  lemma FirstPlaced(g: Dafsa, i: nat, offsets: map<nat, nat>, image: seq<int>)
    requires Ready(g, i, offsets, image)
    ensures |g.heap[i].children| > 0 && (g.heap[i].children[0].To? ==> g.heap[i].children[0].id in offsets)
  {
    assert ValidNode(g.heap, i, g.heap[i]) && g.heap[i].children[0] in g.heap[i].children;
  }

  /** The bytes of one node; a node whose only child comes next needs no links. */
  method EncodeNode(g: Dafsa, i: nat, offsets: map<nat, nat>, ghost image: seq<int>, current: nat) returns (r: Result<seq<int>>)
    requires Ready(g, i, offsets, image) && current == |image|
    ensures NodeOutcome(g, i, offsets, current, r)
    ensures r.Ok? ==> |r.value| > 0 && Bytes(r.value) && NodeAt(r.value + image, |r.value + image|, g.heap[i], offsets)
  {
    var n := g.heap[i];
    FirstPlaced(g, i, offsets, image);
    if |n.children| == 1 && n.children[0].To? && offsets[n.children[0].id] == current {
      PrefixOutcome(g, i, offsets, image);
      return Ok(LabelBytes(n.text, false));
    }
    r := EncodeWithLinks(g, i, offsets, image, current);
  }

  lemma ChildrenPlaced(g: Dafsa, nodes: seq<nat>, k: nat, offsets: map<nat, nat>)
    requires TopSorted(g, nodes) && k < |nodes| && offsets.Keys == Elements(nodes[k + 1..])
    ensures nodes[k] in g.heap && nodes[k] !in offsets
    ensures forall c :: c in g.heap[nodes[k]].children && c.To? ==> c.id in offsets
  {
    assert nodes[k] in nodes;
    forall c | c in g.heap[nodes[k]].children && c.To? ensures c.id in offsets {
      assert c.id in nodes && c.id !in nodes[..k + 1];
      assert nodes == nodes[..k + 1] + nodes[k + 1..];
    }
  }

  lemma DeterministicDistinct(g: Dafsa)
    requires GoodGraph(g)
    ensures Distinct(g.source) && RootsOnce(g)
  {
    assert Distinct(g.source);
    forall i: nat ensures multiset(g.source)[To(i)] <= 1 {
      NotTwice(g.source, To(i));
    }
  }

  /** These nodes have been written. */
  ghost predicate WrittenNodes(g: Dafsa, output: seq<int>, l: Layout) {
    && Reversed(output) == l.image && Laid(g.heap, l.offsets, l.image)
    && forall i :: i in l.offsets ==> i in g.heap && !RepeatedSink(g.heap[i])
  }

  /** The nodes from `k` on have been written, and all their links reach. */
  ghost predicate Progress(g: Dafsa, nodes: seq<nat>, k: nat, output: seq<int>, l: Layout) {
    && k <= |nodes| && l.offsets.Keys == Elements(nodes[k..]) && WrittenNodes(g, output, l)
    && |output| <= Size(g.heap, l.offsets.Keys) && l == LaidOut(g, nodes, k) && ReachFrom(g, nodes, k)
  }

  /** Why encoding a graph fails. */
  ghost predicate Failure(g: Dafsa, nodes: seq<nat>, e: Error) {
    if e == BadDistance then !AllReach(g, nodes) && Footprint(g) >= MAX_DISTANCE else e == AssertionFailed && !NoRepeats(g)
  }

  lemma NodeStuck(g: Dafsa, nodes: seq<nat>, k: nat, l: Layout, e: Error)
    requires k < |nodes| && nodes[k] in Live(g) && l == LaidOut(g, nodes, k + 1)
    requires NodeOutcome(g, nodes[k], l.offsets, |l.image|, Err(e))
    requires |l.image| + 3 * |g.heap[nodes[k]].children| <= Footprint(g)
    ensures Failure(g, nodes, e)
  {
    if e == BadDistance {
      assert !ReachesAt(g, nodes, k);
    }
  }

  lemma NextReady(g: Dafsa, nodes: seq<nat>, k: nat, output: seq<int>, l: Layout)
    requires GoodGraph(g) && TopSorted(g, nodes) && k < |nodes| && Progress(g, nodes, k + 1, output, l)
    ensures Ready(g, nodes[k], l.offsets, l.image) && |output| == |l.image| && nodes[k] in Live(g)
    ensures |output| + 3 * |g.heap[nodes[k]].children| <= Footprint(g)
    ensures |output| + Cost(g.heap[nodes[k]]) <= Size(g.heap, l.offsets.Keys + {nodes[k]})
  {
    ChildrenPlaced(g, nodes, k, l.offsets);
    ListedIsLive(g, nodes, k, l.offsets);
    TooLarge(g, nodes[k], l.offsets, |output|);
  }

  /** Writes one node. */
  method AppendNode(g: Dafsa, i: nat, output: seq<int>, offsets: map<nat, nat>, ghost image: seq<int>)
      returns (r: Result<seq<int>>)
    requires Ready(g, i, offsets, image) && WrittenNodes(g, output, Layout(offsets, image))
    ensures r.Ok? ==> WrittenNodes(g, r.value, InFront(g, Layout(offsets, image), i)) && |r.value| <= |output| + Cost(g.heap[i])
    ensures r.Ok? ==> InFront(g, Layout(offsets, image), i).offsets == offsets[i := |r.value|]
    ensures r.Ok? ==> NodeReaches(g.heap[i], offsets, |image|)
    ensures r.Err? ==> NodeOutcome(g, i, offsets, |image|, r)
  {
    r := EncodeNode(g, i, offsets, image, |output|);
    if r.Ok? {
      var longer := AppendBytes(g, i, output, offsets, image, r.value);
      r := Ok(longer);
    }
  }

  method AppendBytes(g: Dafsa, i: nat, output: seq<int>, ghost offsets: map<nat, nat>, ghost image: seq<int>, bytes: seq<int>)
      returns (longer: seq<int>)
    requires WrittenNodes(g, output, Layout(offsets, image)) && i in g.heap && i !in offsets && !RepeatedSink(g.heap[i])
    requires |bytes| > 0 && Bytes(bytes) && NodeAt(bytes + image, |bytes + image|, g.heap[i], offsets)
    ensures WrittenNodes(g, longer, Layout(offsets[i := |longer|], bytes + image)) && |longer| == |bytes| + |output|
  {
    assert |output| == |image|;
    NodeLaid(g.heap, offsets, image, bytes, i);
    longer := Emit(output, image, bytes);
  }

  /** Writes node `k`. */
  method EncodeNext(g: Dafsa, nodes: seq<nat>, k: nat, output: seq<int>, offsets: map<nat, nat>, ghost l: Layout)
      returns (r: Result<seq<int>>, more: map<nat, nat>, ghost all: Layout)
    requires GoodGraph(g) && TopSorted(g, nodes) && k < |nodes| && Progress(g, nodes, k + 1, output, l) && l.offsets == offsets
    ensures r.Ok? ==> Progress(g, nodes, k, r.value, all) && all.offsets == more
    ensures r.Err? ==> Failure(g, nodes, r.error)
  {
    NextReady(g, nodes, k, output, l);
    r := AppendNode(g, nodes[k], output, offsets, l.image);
    more, all := offsets, l;
    if r.Err? {
      NodeStuck(g, nodes, k, l, r.error);
    } else {
      more := offsets[nodes[k] := |r.value|];
      all := InFront(g, l, nodes[k]);
      OneMore(nodes, k, offsets, |r.value|);
      NextReaches(g, nodes, k, l);
    }
  }

  lemma NextReaches(g: Dafsa, nodes: seq<nat>, k: nat, l: Layout)
    requires k < |nodes| && nodes[k] in g.heap && l == LaidOut(g, nodes, k + 1)
    requires NodeReaches(g.heap[nodes[k]], l.offsets, |l.image|)
    ensures ReachesAt(g, nodes, k) && LaidOut(g, nodes, k) == InFront(g, l, nodes[k])
  {
  }

  lemma OneMore(nodes: seq<nat>, k: nat, offsets: map<nat, nat>, d: nat)
    requires k < |nodes| && offsets.Keys == Elements(nodes[k + 1..])
    ensures offsets[nodes[k] := d].Keys == Elements(nodes[k..]) == offsets.Keys + {nodes[k]}
  {
    assert nodes[k..] == [nodes[k]] + nodes[k + 1..];
  }

  lemma ListedIsLive(g: Dafsa, nodes: seq<nat>, k: nat, offsets: map<nat, nat>)
    requires TopSorted(g, nodes) && k < |nodes| && offsets.Keys == Elements(nodes[k + 1..])
    ensures nodes[k] in Live(g) && offsets.Keys <= Live(g)
  {
    assert nodes[k] in Elements(nodes);
    forall i | i in offsets ensures i in Live(g) {
      assert i in nodes[k + 1..];
      assert i in Elements(nodes);
    }
  }

  lemma NothingWritten(g: Dafsa, nodes: seq<nat>)
    ensures Progress(g, nodes, |nodes|, [], Layout(map[], []))
  {
    assert nodes[|nodes|..] == [];
  }

  /** Writes the nodes, children first. */
  method EncodeNodes(g: Dafsa, nodes: seq<nat>) returns (r: Result<seq<int>>, offsets: map<nat, nat>, ghost l: Layout)
    requires GoodGraph(g) && TopSorted(g, nodes)
    ensures r.Ok? ==> Progress(g, nodes, 0, r.value, l) && l.offsets == offsets
    ensures r.Err? ==> Failure(g, nodes, r.error)
  {
    r, offsets, l := Ok([]), map[], Layout(map[], []);
    NothingWritten(g, nodes);
    for k := |nodes| downto 0
      invariant r.Ok? && Progress(g, nodes, k, r.value, l) && l.offsets == offsets
    {
      r, offsets, l := EncodeNext(g, nodes, k, r.value, offsets, l);
      if r.Err? {
        return;
      }
    }
  }

  lemma NodesDone(g: Dafsa, nodes: seq<nat>, output: seq<int>, l: Layout)
    requires TopSorted(g, nodes) && Progress(g, nodes, 0, output, l)
    ensures l.offsets.Keys == Live(g) && |output| <= Size(g.heap, Live(g)) && NoRepeats(g)
    ensures AllReach(g, nodes) <==> Reach(g.source, l.offsets, |l.image|)
  {
    assert nodes[0..] == nodes;
  }

  /** Encodes a graph to bytes, in the order that `top_sort` gives: succeeds iff no reachable node lists the
      sink twice and all links of that run reach. */
  method Encode(g: Dafsa) returns (r: Result<seq<int>>, ghost offsets: map<nat, nat>, ghost order: seq<nat>)
    requires GoodGraph(g)
    ensures TopSorted(g, order) && (r.Ok? <==> NoRepeats(g) && AllReach(g, order))
    ensures r.Ok? ==> Encodes(g, offsets, r.value) && r.value == ImageOf(g, order)
    ensures r.Ok? ==> NoRepeats(g) && |r.value| <= Footprint(g)
    ensures r.Err? ==> Failure(g, order, r.error)
    ensures r.Err? && NoRepeats(g) ==> r.error == BadDistance && Footprint(g) >= MAX_DISTANCE
  {
    DeterministicDistinct(g);
    var nodes := TopSort(g);
    order := nodes.value;
    var output, places, l := EncodeNodes(g, nodes.value);
    offsets := places;
    if output.Err? {
      r := output;
      return;
    }
    NodesDone(g, nodes.value, output.value, l);
    SourcePlaced(g, nodes.value, places);
    r := EncodeSource(g, output.value, places, l, order);
  }

  /** Writes the links of the source list in front of all nodes. */
  method EncodeSource(g: Dafsa, output: seq<int>, offsets: map<nat, nat>, ghost l: Layout, ghost order: seq<nat>)
      returns (r: Result<seq<int>>)
    requires GoodGraph(g) && Reversed(output) == l.image && Laid(g.heap, offsets, l.image) && |output| <= Size(g.heap, Live(g))
    requires l == LaidOut(g, order, 0) && l.offsets == offsets && forall c :: c in g.source && c.To? ==> c.id in offsets
    ensures r.Ok? <==> Reach(g.source, offsets, |l.image|)
    ensures r.Ok? ==> Encodes(g, offsets, r.value) && r.value == ImageOf(g, order) && |r.value| <= Footprint(g)
    ensures r.Err? ==> r.error == BadDistance && Failure(g, order, r.error)
  {
    SourceChildren(g, offsets, l.image);
    var links, sorted := EncodeLinks(g.source, offsets, |output|);
    if links.Err? {
      assert !SourceReaches(g, order);
      return links;
    }
    SourceWritten(g, offsets, l, order, sorted, links.value);
    var all := Emit(output, l.image, links.value);
    r := Ok(Reversed(all));
  }

  lemma SourceWritten(g: Dafsa, offsets: map<nat, nat>, l: Layout, order: seq<nat>, sorted: seq<Ref>, links: seq<int>)
    requires Laid(g.heap, offsets, l.image) && |l.image| > 0 && l == LaidOut(g, order, 0) && l.offsets == offsets
    requires InOrder(g.source, sorted, offsets) && |sorted| > 0 && |l.image| <= Size(g.heap, Live(g)) && |links| <= 3 * |g.source|
    requires LinksFor(OffsetsOf(sorted, offsets), |l.image| + |links|, links) && links == LinkList(g.source, offsets, |l.image|)
    ensures Encodes(g, offsets, links + l.image) && links + l.image == ImageOf(g, order) && |links + l.image| <= Footprint(g)
  {
    LinksWritten(g.source, sorted, offsets, l.image, links);
    SourceLaid(g, offsets, l.image, links);
  }

  lemma SourceChildren(g: Dafsa, offsets: map<nat, nat>, image: seq<int>)
    requires GoodGraph(g) && Laid(g.heap, offsets, image) && forall c :: c in g.source && c.To? ==> c.id in offsets
    ensures g.source[0].To? && Placed(g.source, offsets) && Distinct(g.source) && |image| > 0
  {
    GoodChildren(g, g.source, offsets);
    assert g.source[0] in g.source;
  }

  lemma SourcePlaced(g: Dafsa, nodes: seq<nat>, offsets: map<nat, nat>)
    requires TopSorted(g, nodes) && offsets.Keys == Live(g)
    ensures forall c :: c in g.source && c.To? ==> c.id in offsets
  {
    forall c | c in g.source && c.To? ensures c.id in offsets {
      assert c.id in Elements(nodes);
    }
  }

  lemma SourceLaid(g: Dafsa, offsets: map<nat, nat>, image: seq<int>, links: seq<int>)
    requires Laid(g.heap, offsets, image) && Bytes(links)
    requires LinksTo(links + image, |links + image|, g.source, offsets)
    ensures Encodes(g, offsets, links + image)
  {
    forall i | i in offsets ensures NodeAt(links + image, offsets[i], g.heap[i], offsets) {
      NodeAtKept(links, image, offsets[i], g.heap[i], offsets, offsets);
    }
  }

  // A small graph always fits

  lemma NodeImageLength(n: Node, offsets: map<nat, nat>, current: nat)
    requires |n.text| > 0
    ensures 0 < |NodeImage(n, offsets, current)| <= Cost(n)
  {
    LinkListLength(n.children, offsets, current);
  }

  /** The run places the nodes one in front of the other, within what they can take. */
  ghost predicate Fits(g: Dafsa, nodes: seq<nat>, k: nat, l: Layout)
    requires k <= |nodes|
  {
    && l.offsets.Keys == Elements(nodes[k..]) && Offsets(l.offsets, |l.image|)
    && |l.image| <= Size(g.heap, l.offsets.Keys)
  }

  ghost predicate FitsFrom(g: Dafsa, nodes: seq<nat>, k: nat) {
    k <= |nodes| && Fits(g, nodes, k, LaidOut(g, nodes, k))
  }

  lemma InFrontFits(g: Dafsa, nodes: seq<nat>, k: nat, l: Layout)
    requires GoodGraph(g) && TopSorted(g, nodes) && k < |nodes| && Fits(g, nodes, k + 1, l)
    ensures Fits(g, nodes, k, InFront(g, l, nodes[k]))
  {
    ChildrenPlaced(g, nodes, k, l.offsets);
    var i := nodes[k];
    assert ValidNode(g.heap, i, g.heap[i]);
    NodeImageLength(g.heap[i], l.offsets, |l.image|);
    var d := |NodeImage(g.heap[i], l.offsets, |l.image|) + l.image|;
    OffsetsGrown(l.offsets, |l.image|, i, d);
    OneMore(nodes, k, l.offsets, d);
    SizeWith(g.heap, l.offsets.Keys, i);
  }

  lemma NothingFits(g: Dafsa, nodes: seq<nat>)
    ensures FitsFrom(g, nodes, |nodes|)
  {
    assert nodes[|nodes|..] == [];
  }

  lemma FitsBefore(g: Dafsa, nodes: seq<nat>, k: nat)
    requires GoodGraph(g) && TopSorted(g, nodes) && k < |nodes| && FitsFrom(g, nodes, k + 1)
    ensures FitsFrom(g, nodes, k)
  {
    InFrontFits(g, nodes, k, LaidOut(g, nodes, k + 1));
  }

  lemma LaidOutFits(g: Dafsa, nodes: seq<nat>, k: nat)
    requires GoodGraph(g) && TopSorted(g, nodes) && k <= |nodes|
    ensures FitsFrom(g, nodes, k)
  {
    NothingFits(g, nodes);
    for j := |nodes| downto k
      invariant FitsFrom(g, nodes, j)
    {
      FitsBefore(g, nodes, j);
    }
  }

  lemma SmallNodeReaches(g: Dafsa, nodes: seq<nat>, k: nat)
    requires GoodGraph(g) && TopSorted(g, nodes) && Footprint(g) < MAX_DISTANCE
    ensures ReachesAt(g, nodes, k)
  {
    if k < |nodes| {
      var l, i := LaidOut(g, nodes, k + 1), nodes[k];
      LaidOutFits(g, nodes, k + 1);
      ChildrenPlaced(g, nodes, k, l.offsets);
      ListedIsLive(g, nodes, k, l.offsets);
      TooLarge(g, i, l.offsets, |l.image|);
      assert ValidNode(g.heap, i, g.heap[i]) && GoodNode(g.heap, i);
      GoodChildren(g, g.heap[i].children, l.offsets);
      NearReaches(g.heap[i].children, l.offsets, |l.image|);
    }
  }

  /** All links reach in a graph whose footprint is below their range, in whatever order it is written. */
  lemma SmallReaches(g: Dafsa, nodes: seq<nat>)
    requires GoodGraph(g) && TopSorted(g, nodes) && Footprint(g) < MAX_DISTANCE
    ensures AllReach(g, nodes)
  {
    forall k: nat ensures ReachesAt(g, nodes, k) {
      SmallNodeReaches(g, nodes, k);
    }
    var l := LaidOut(g, nodes, 0);
    LaidOutFits(g, nodes, 0);
    assert nodes[0..] == nodes;
    SourcePlaced(g, nodes, l.offsets);
    GoodChildren(g, g.source, l.offsets);
    NearReaches(g.source, l.offsets, |l.image|);
  }
}
