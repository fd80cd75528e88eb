/** lookup_string_in_fixed_set.cc: a machine that follows a key through the byte array. */
module DafsaLookup {
  import opened DafsaGraph
  import opened DafsaLinks
  import opened DafsaEncode

  const NOT_FOUND := -1  // kDafsaNotFound

  /** A pointer into the byte array. */
  datatype Pointer = Null | At(index: nat)

  /** What a position of the machine stands for in the graph. */
  datatype Place =
    | Exhausted
    | InText(node: nat, k: nat)
    | AtLinks(children: seq<Ref>)

  /** `v` is what may still follow at a place. */
  ghost predicate Rest(h: Heap, p: Place, v: Word) {
    match p
    case Exhausted => false
    case InText(i, k) =>
      && i in h && k <= |h[i].text|
      && |h[i].text| - k <= |v|
      && v[..|h[i].text| - k] == h[i].text[k..]
      && AcceptsAny(h, h[i].children, v[|h[i].text| - k..])
    case AtLinks(children) => AcceptsAny(h, children, v)
  }

  /** The array encodes a graph that lookup can follow. */
  ghost predicate Searchable(g: Dafsa, offsets: map<nat, nat>, graph: seq<int>) {
    GoodGraph(g) && Encodes(g, offsets, graph)
  }

  /** The links at `d` lead to `children`, which can be told apart. */
  ghost predicate LinksPlace(g: Dafsa, offsets: map<nat, nat>, graph: seq<int>, d: nat, children: seq<Ref>) {
    && GoodGraph(g) && ValidRefs(g.heap, children) && Deterministic(g.heap, children)
    && d <= |graph| && LinksTo(graph, d, children, offsets)
  }

  /** The machine stands at a place, `d` bytes before the end of the array. */
  ghost predicate Stands(g: Dafsa, offsets: map<nat, nat>, graph: seq<int>, p: Place, d: nat, isLabel: bool) {
    match p
    case Exhausted => false
    case InText(i, k) => isLabel && i in offsets && i in g.heap && k < |g.heap[i].text| && d + k == offsets[i]
    case AtLinks(children) => !isLabel && LinksPlace(g, offsets, graph, d, children)
  }

  /** How a node stands in the array: with bit 7 set on its last character and the sink or links
      behind it, or without and its only child behind it. */
  lemma NodeForm(g: Dafsa, offsets: map<nat, nat>, graph: seq<int>, i: nat) returns (end: bool)
    requires Searchable(g, offsets, graph) && i in offsets && i in g.heap
    ensures var n := g.heap[i];
            && TextAt(graph, offsets[i], n.text, end)
            && Shaped(n) && (Sink in n.children <==> n.children == [Sink])
            && (end ==> n.children == [Sink] || LinksTo(graph, offsets[i] - |n.text|, n.children, offsets))
            && (!end ==> OnlyChildAt(n, offsets[i] - |n.text|, offsets))
  {
    var n := g.heap[i];
    assert GoodNode(g.heap, i) && NodeAt(graph, offsets[i], n, offsets);
    if TextAt(graph, offsets[i], n.text, false) && OnlyChildAt(n, offsets[i] - |n.text|, offsets) {
      end := false;
    } else {
      end := true;
      if n.children == [Sink] {
        assert n.children[0] in n.children;
      } else {
        assert Sink !in n.children;
      }
    }
  }

  /** The byte of a character gives the character and, at the end of a label, bit 7. */
  lemma CharacterAt(g: Dafsa, offsets: map<nat, nat>, graph: seq<int>, i: nat, k: nat) returns (end: bool)
    requires Searchable(g, offsets, graph) && i in offsets && i in g.heap && k < |g.heap[i].text|
    ensures 0 < offsets[i] - k <= |graph|
    ensures var n := g.heap[i];
            && |n.text| <= offsets[i]
            && ByteAt(graph, offsets[i] - k) == CharByte(n.text, k, end)
            && (end ==> n.children == [Sink] || LinksTo(graph, offsets[i] - |n.text|, n.children, offsets))
            && (!end ==> OnlyChildAt(n, offsets[i] - |n.text|, offsets))
            && (if k == |n.text| - 1 && n.children == [Sink] then IsValue(n.text[k]) else Printable(n.text[k]))
  {
    end := NodeForm(g, offsets, graph, i);
    assert CharByte(g.heap[i].text, k, end) == ByteAt(graph, offsets[i] - k);
  }

  /** Where the machine is after character `k` of node `i`. */
  ghost function After(h: Heap, i: nat, k: nat, end: bool): Place
    requires i in h
  {
    if k + 1 < |h[i].text| then InText(i, k + 1)
    else if end || |h[i].children| != 1 || h[i].children[0].Sink? then AtLinks(h[i].children)
    else InText(h[i].children[0].id, 0)
  }

  lemma RestOfText(h: Heap, i: nat, k: nat, c: int, v: Word)
    requires i in h && k < |h[i].text|
    ensures Rest(h, InText(i, k), [c] + v) <==> c == h[i].text[k] && Rest(h, InText(i, k + 1), v)
  {
    var text := h[i].text;
    var w := [c] + v;
    assert text[k..] == [text[k]] + text[k + 1..];
    if |text| - k <= |w| {
      assert w[..|text| - k] == [c] + v[..|text| - k - 1];
      assert w[|text| - k..] == v[|text| - k - 1..];
    }
  }

  lemma RestAtEnd(h: Heap, i: nat, v: Word)
    requires i in h
    ensures Rest(h, InText(i, |h[i].text|), v) <==> AcceptsAny(h, h[i].children, v)
  {
    assert v[..0] == h[i].text[|h[i].text|..];
    assert v[0..] == v;
  }

  lemma RestAtStart(h: Heap, i: nat, v: Word)
    requires i in h && |h[i].text| > 0
    ensures Rest(h, InText(i, 0), v) <==> Accepts(h, To(i), v)
  {
    assert h[i].text[0..] == h[i].text;
  }

  /** The words that may follow after one more character. */
  lemma RestAfter(h: Heap, i: nat, k: nat, end: bool, v: Word)
    requires ValidHeap(h) && i in h && k < |h[i].text|
    ensures Rest(h, After(h, i, k, end), v) <==> Rest(h, InText(i, k), [h[i].text[k]] + v)
  {
    var n := h[i];
    RestOfText(h, i, k, n.text[k], v);
    if k + 1 == |n.text| {
      RestAtEnd(h, i, v);
      if !(end || |n.children| != 1 || n.children[0].Sink?) {
        assert ValidNode(h, i, n) && n.children[0] in n.children;
        var c := n.children[0].id;
        assert ValidNode(h, c, h[c]);
        RestAtStart(h, c, v);
        assert AcceptsAny(h, n.children, v) <==> Accepts(h, n.children[0], v);
      }
    }
  }

  /** And the machine stands there, one byte further, still inside the array. */
  lemma StandsAfter(g: Dafsa, offsets: map<nat, nat>, graph: seq<int>, i: nat, k: nat, end: bool)
    requires Searchable(g, offsets, graph) && i in offsets && i in g.heap
    requires k < |g.heap[i].text| <= offsets[i] <= |graph| && Printable(g.heap[i].text[k])
    requires end ==> g.heap[i].children == [Sink] || LinksTo(graph, offsets[i] - |g.heap[i].text|, g.heap[i].children, offsets)
    requires !end ==> OnlyChildAt(g.heap[i], offsets[i] - |g.heap[i].text|, offsets)
    ensures Stands(g, offsets, graph, After(g.heap, i, k, end), offsets[i] - k - 1, !(end && k == |g.heap[i].text| - 1))
    ensures offsets[i] - k - 1 > 0
  {
    var n := g.heap[i];
    assert ValidNode(g.heap, i, n) && GoodNode(g.heap, i);
    if k + 1 == |n.text| {
      if end {
        assert Sink !in n.children && Sink in [Sink];
      } else {
        var c := n.children[0].id;
        assert n.children[0] in n.children && ValidNode(g.heap, c, g.heap[c]);
      }
    }
  }

  // Bit tests on one byte

  predicate IsEOL(b: int) {
    b % 256 >= 0x80
  }

  predicate IsMatch(b: int, key: int) {
    b % 128 == key
  }

  /** The return value of a byte in [0x80, 0x9F]; -1 for any other byte. */
  function ReturnValue(b: int): (value: int) {
    if b / 32 == 4 then b % 32 else NOT_FOUND
  }

  /** What those tests say about a character of a label. */
  lemma CharacterTests(text: Word, k: nat, end: bool)
    requires k < |text| && (Printable(text[k]) || (IsValue(text[k]) && end && k == |text| - 1))
    ensures var b := CharByte(text, k, end);
            && (IsEOL(b) <==> end && k == |text| - 1)
            && (forall key :: IsMatch(b, key) <==> key == text[k])
            && ReturnValue(b) == if IsValue(text[k]) then text[k] else NOT_FOUND
  {
  }

  /** Reads the next link at `pos`, moves `offset` by its distance, and `pos` to the link after it
      or to null. */
  method GetNextOffset(graph: seq<int>, pos: Pointer, offset: nat, ghost targets: seq<nat>)
      returns (ok: bool, next: Pointer, target: nat)
    requires Bytes(graph)
    requires pos.At? ==> pos.index < |graph| && offset <= |graph| &&
                         LinksAt(graph, |graph| - pos.index, |graph| - offset, targets)
    ensures ok <==> pos.At?
    ensures ok ==> target <= |graph| && |graph| - target == targets[0]
    ensures ok ==> (next.Null? <==> |targets| == 1)
    ensures ok && next.At? ==> next.index < |graph| && LinksAt(graph, |graph| - next.index, targets[0], targets[1..])
  {
    if pos.Null? {
      return false, pos, offset;
    }
    var b := graph[pos.index];
    ghost var d := |graph| - pos.index;
    assert b == ByteAt(graph, d);
    var distance, consumed := b % 64, 1;
    if b % 128 >= 0x60 {
      assert graph[pos.index + 1] == ByteAt(graph, d - 1) && graph[pos.index + 2] == ByteAt(graph, d - 2);
      distance := b % 32 * 0x1_0000 + graph[pos.index + 1] * 0x100 + graph[pos.index + 2];
      consumed := 3;
    } else if b % 128 >= 0x40 {
      assert graph[pos.index + 1] == ByteAt(graph, d - 1);
      distance := b % 32 * 0x100 + graph[pos.index + 1];
      consumed := 2;
    }
    assert distance == LinkDistance(graph, d) && consumed == LinkWidth(b) && distance >= 0;
    ok, target, next := true, offset + distance, if b % 256 >= 0x80 then Null else At(pos.index + consumed);
  }

  // The links of one node

  /** The links at `d` lead to `sorted`, which are the children. */
  ghost predicate Leads(g: Dafsa, offsets: map<nat, nat>, graph: seq<int>, children: seq<Ref>, sorted: seq<Ref>) {
    && Searchable(g, offsets, graph)
    && ValidRefs(g.heap, children) && Deterministic(g.heap, children)
    && multiset(sorted) == multiset(children) && Placed(children, offsets)
  }

  lemma LinkedChild(g: Dafsa, offsets: map<nat, nat>, graph: seq<int>, children: seq<Ref>, sorted: seq<Ref>, j: nat)
    requires Leads(g, offsets, graph, children, sorted) && j < |sorted|
    ensures var c := sorted[j];
            && c in children && c.To? && c.id in offsets && c.id in g.heap
            && |g.heap[c.id].text| > 0 && OffsetOf(c, offsets) == offsets[c.id]
  {
    SameElements(children, sorted, sorted[j]);
    assert ValidRef(g.heap, sorted[j]);
    assert ValidNode(g.heap, sorted[j].id, g.heap[sorted[j].id]);
  }

  /** A word that begins with `c` can only be spelled by the child that begins with `c`. */
  lemma OneChildMatches(g: Dafsa, offsets: map<nat, nat>, graph: seq<int>, children: seq<Ref>, sorted: seq<Ref>, j: nat, v: Word)
    requires Leads(g, offsets, graph, children, sorted) && j < |sorted|
    ensures sorted[j].To?
    ensures var c := First(g.heap, sorted[j]);
            AcceptsAny(g.heap, children, [c] + v) <==> Rest(g.heap, InText(sorted[j].id, 0), [c] + v)
  {
    LinkedChild(g, offsets, graph, children, sorted, j);
    var r := sorted[j];
    var w := [g.heap[r.id].text[0]] + v;
    RestAtStart(g.heap, r.id, w);
    if AcceptsAny(g.heap, children, w) {
      var s :| s in children && Accepts(g.heap, s, w);
      assert s.To?;
      assert ValidNode(g.heap, s.id, g.heap[s.id]);
      assert Head(g.heap, s) == w[..|g.heap[s.id].text|][0] == w[0];
      var a :| 0 <= a < |children| && children[a] == s;
      var b :| 0 <= b < |children| && children[b] == r;
      assert a == b;
    }
  }

  lemma NoChildMatches(g: Dafsa, offsets: map<nat, nat>, graph: seq<int>, children: seq<Ref>, sorted: seq<Ref>, c: int, v: Word)
    requires Leads(g, offsets, graph, children, sorted)
    requires forall j :: 0 <= j < |sorted| ==> First(g.heap, sorted[j]) != c
    ensures !AcceptsAny(g.heap, children, [c] + v)
  {
    var w := [c] + v;
    forall s | s in children ensures !Accepts(g.heap, s, w) {
      SameElements(children, sorted, s);
      assert s.To? && s.id in g.heap && |g.heap[s.id].text| > 0 ==> First(g.heap, s) == g.heap[s.id].text[0];
    }
  }

  /** The first character of a node, if there is one. */
  ghost function First(h: Heap, r: Ref): int {
    if r.To? && r.id in h && |h[r.id].text| > 0 then h[r.id].text[0] else NOT_FOUND
  }

  lemma LinkOrder(g: Dafsa, offsets: map<nat, nat>, graph: seq<int>, d: nat, children: seq<Ref>) returns (sorted: seq<Ref>)
    requires Searchable(g, offsets, graph) && LinksPlace(g, offsets, graph, d, children)
    ensures Leads(g, offsets, graph, children, sorted) && LinksAt(graph, d, d, OffsetsOf(sorted, offsets))
  {
    sorted :| multiset(sorted) == multiset(children) && Placed(children, offsets) &&
      LinksAt(graph, d, d, OffsetsOf(sorted, offsets));
  }

  /** The first byte of child `j`. */
  lemma FirstByteOfChild(g: Dafsa, offsets: map<nat, nat>, graph: seq<int>, children: seq<Ref>, sorted: seq<Ref>, j: nat, offset: nat)
    requires Leads(g, offsets, graph, children, sorted) && j < |sorted|
    requires offset <= |graph| && |graph| - offset == OffsetOf(sorted[j], offsets)
    ensures offset < |graph|
    ensures forall key :: IsMatch(graph[offset], key) <==> key == First(g.heap, sorted[j])
    ensures var c := First(g.heap, sorted[j]);
            ReturnValue(graph[offset]) == if IsValue(c) then c else NOT_FOUND
  {
    LinkedChild(g, offsets, graph, children, sorted, j);
    var i := sorted[j].id;
    var end := CharacterAt(g, offsets, graph, i, 0);
    assert graph[offset] == ByteAt(graph, offsets[i]);
    CharacterTests(g.heap[i].text, 0, end);
  }

  lemma MatchedChild(g: Dafsa, offsets: map<nat, nat>, graph: seq<int>, children: seq<Ref>, sorted: seq<Ref>, j: nat, input: int)
      returns (i: nat)
    requires Leads(g, offsets, graph, children, sorted) && j < |sorted| && First(g.heap, sorted[j]) == input >= 0x20
    ensures sorted[j] == To(i) && i in offsets && i in g.heap && OffsetOf(sorted[j], offsets) == offsets[i]
    ensures |g.heap[i].text| > 0 && g.heap[i].text[0] == input && Printable(input)
    ensures forall v :: AcceptsAny(g.heap, children, [input] + v) <==> Rest(g.heap, InText(i, 0), [input] + v)
  {
    LinkedChild(g, offsets, graph, children, sorted, j);
    i := sorted[j].id;
    assert GoodNode(g.heap, i);
    forall v ensures AcceptsAny(g.heap, children, [input] + v) <==> Rest(g.heap, InText(i, 0), [input] + v) {
      OneChildMatches(g, offsets, graph, children, sorted, j, v);
    }
  }

  /** Reads links until a child begins with `input` or none is left. */
  method FindChild(graph: seq<int>, start: nat, input: int,
                   ghost g: Dafsa, ghost offsets: map<nat, nat>, ghost children: seq<Ref>, ghost sorted: seq<Ref>)
      returns (found: bool, offset: nat, ghost j: nat)
    requires Leads(g, offsets, graph, children, sorted) && start < |graph|
    requires LinksAt(graph, |graph| - start, |graph| - start, OffsetsOf(sorted, offsets))
    ensures found ==> j < |sorted| && offset < |graph| && |graph| - offset == OffsetOf(sorted[j], offsets) &&
                      First(g.heap, sorted[j]) == input
    ensures !found ==> forall b :: 0 <= b < |sorted| ==> First(g.heap, sorted[b]) != input
  {
    ghost var targets := OffsetsOf(sorted, offsets);
    var p := At(start);
    offset, j, found := start, 0, true;
    assert targets[0..] == targets;
    while true
      invariant j <= |targets| && (p.Null? <==> j == |targets|)
      invariant p.At? ==> p.index < |graph| && offset <= |graph| &&
                          LinksAt(graph, |graph| - p.index, |graph| - offset, targets[j..])
      invariant forall b :: 0 <= b < j ==> First(g.heap, sorted[b]) != input
      decreases |targets| - j
    {
      found, p, offset := GetNextOffset(graph, p, offset, targets[j..]);
      if !found {
        return;
      }
      FirstByteOfChild(g, offsets, graph, children, sorted, j, offset);
      if IsMatch(graph[offset], input) {
        return;
      }
      assert targets[j..][1..] == targets[j + 1..];
      j := j + 1;
    }
  }

  /** `r` is a value that may follow at a place, or none may. */
  ghost predicate ResultAt(h: Heap, p: Place, r: int) {
    if r == NOT_FOUND then forall u :: IsValue(u) ==> !Rest(h, p, [u])
    else IsValue(r) && Rest(h, p, [r])
  }

  /** A value ends a label in front of the sink, so nothing follows it. */
  lemma ValueInText(g: Dafsa, i: nat, k: nat)
    requires GoodGraph(g) && i in g.heap && k < |g.heap[i].text|
    ensures ResultAt(g.heap, InText(i, k), if IsValue(g.heap[i].text[k]) then g.heap[i].text[k] else NOT_FOUND)
  {
    var n := g.heap[i];
    assert GoodNode(g.heap, i) && ValidNode(g.heap, i, n);
    forall u ensures Rest(g.heap, InText(i, k), [u]) ==> u == n.text[k] {
      RestOfText(g.heap, i, k, u, []);
      assert [u] + [] == [u];
    }
    if IsValue(n.text[k]) {
      assert k == |n.text| - 1 && Sink in n.children;
      assert Accepts(g.heap, Sink, []);
      RestAtEnd(g.heap, i, []);
      RestOfText(g.heap, i, k, n.text[k], []);
      assert [n.text[k]] + [] == [n.text[k]];
    }
  }

  lemma ValueAtChild(g: Dafsa, offsets: map<nat, nat>, graph: seq<int>, children: seq<Ref>, sorted: seq<Ref>, j: nat)
    requires Leads(g, offsets, graph, children, sorted) && j < |sorted| && IsValue(First(g.heap, sorted[j]))
    ensures ResultAt(g.heap, AtLinks(children), First(g.heap, sorted[j]))
  {
    LinkedChild(g, offsets, graph, children, sorted, j);
    var i := sorted[j].id;
    ValueInText(g, i, 0);
    RestAtStart(g.heap, i, [First(g.heap, sorted[j])]);
  }

  lemma NoValueAtChildren(g: Dafsa, offsets: map<nat, nat>, graph: seq<int>, children: seq<Ref>, sorted: seq<Ref>)
    requires Leads(g, offsets, graph, children, sorted)
    requires forall b :: 0 <= b < |sorted| ==> !IsValue(First(g.heap, sorted[b]))
    ensures ResultAt(g.heap, AtLinks(children), NOT_FOUND)
  {
    forall u | IsValue(u) ensures !AcceptsAny(g.heap, children, [u]) {
      NoChildMatches(g, offsets, graph, children, sorted, u, []);
      assert [u] + [] == [u];
    }
  }

  /** Reads links until a child is a return value or none is left. */
  method FindReturnValue(graph: seq<int>, start: nat,
                         ghost g: Dafsa, ghost offsets: map<nat, nat>, ghost children: seq<Ref>, ghost sorted: seq<Ref>)
      returns (value: int, ghost j: nat)
    requires Leads(g, offsets, graph, children, sorted) && start < |graph|
    requires LinksAt(graph, |graph| - start, |graph| - start, OffsetsOf(sorted, offsets))
    ensures value != NOT_FOUND ==> j < |sorted| && IsValue(value) && First(g.heap, sorted[j]) == value
    ensures value == NOT_FOUND ==> forall b :: 0 <= b < |sorted| ==> !IsValue(First(g.heap, sorted[b]))
  {
    ghost var targets := OffsetsOf(sorted, offsets);
    var p, found := At(start), true;
    var offset: nat := start;
    value, j := NOT_FOUND, 0;
    assert targets[0..] == targets;
    while true
      invariant j <= |targets| && (p.Null? <==> j == |targets|) && value == NOT_FOUND
      invariant p.At? ==> p.index < |graph| && offset <= |graph| &&
                          LinksAt(graph, |graph| - p.index, |graph| - offset, targets[j..])
      invariant forall b :: 0 <= b < j ==> !IsValue(First(g.heap, sorted[b]))
      decreases |targets| - j
    {
      found, p, offset := GetNextOffset(graph, p, offset, targets[j..]);
      if !found {
        return;
      }
      FirstByteOfChild(g, offsets, graph, children, sorted, j, offset);
      value := ReturnValue(graph[offset]);
      if value != NOT_FOUND {
        return;
      }
      assert targets[j..][1..] == targets[j + 1..];
      j := j + 1;
    }
  }

  /** Wherever the machine stands, some word goes on from there. */
  lemma SomethingFollows(g: Dafsa, offsets: map<nat, nat>, graph: seq<int>, p: Place, d: nat, isLabel: bool)
    requires GoodGraph(g) && Stands(g, offsets, graph, p, d, isLabel)
    ensures exists v :: Rest(g.heap, p, v)
  {
    match p
    case InText(i, k) =>
      var n := g.heap[i];
      assert ValidNode(g.heap, i, n) && n.children[0] in n.children;
      var v := SomeWord(g.heap, n.children[0]);
      var w := n.text[k..] + v;
      assert w[..|n.text| - k] == n.text[k..] && w[|n.text| - k..] == v;
      assert Rest(g.heap, p, w);
    case AtLinks(children) =>
      var sorted: seq<Ref> :| multiset(sorted) == multiset(children) && LinksAt(graph, d, d, OffsetsOf(sorted, offsets));
      SameElements(children, sorted, sorted[0]);
      var v := SomeWord(g.heap, sorted[0]);
      assert Rest(g.heap, p, v);
  }

  class FixedSetIncrementalLookup {
    const graph: seq<int>
    ghost const g: Dafsa
    ghost const offsets: map<nat, nat>
    var pos: Pointer
    var posIsLabelCharacter: bool
    /** What the position stands for. */
    ghost var place: Place

    ghost predicate Valid()
      reads this
    {
      && Searchable(g, offsets, graph)
      && match pos
         case Null => !posIsLabelCharacter && place == Exhausted
         case At(p) => p < |graph| && Stands(g, offsets, graph, place, |graph| - p, posIsLabelCharacter)
    }

    constructor (graph: seq<int>, ghost g: Dafsa, ghost offsets: map<nat, nat>)
      requires Searchable(g, offsets, graph)
      ensures Valid() && this.graph == graph && this.g == g && this.offsets == offsets
      ensures place == AtLinks(g.source)
    {
      this.graph := graph;
      this.g := g;
      this.offsets := offsets;
      pos := At(0);
      posIsLabelCharacter := false;
      place := AtLinks(g.source);
    }

    /** Moves behind the character at `p`, which has just been matched: it is character `k` of node
        `i`. Behind the last character of a label come links, behind any other the next one. */
    method MoveBehind(p: nat, ghost i: nat, ghost k: nat)
      requires Searchable(g, offsets, graph)
      requires i in offsets && i in g.heap && k < |g.heap[i].text| && k <= offsets[i] && p + offsets[i] == |graph| + k
      requires Printable(g.heap[i].text[k])
      modifies this
      ensures Valid() && place != Exhausted
      ensures forall v :: Rest(g.heap, place, v) <==> Rest(g.heap, InText(i, k), [g.heap[i].text[k]] + v)
    {
      ghost var end := CharacterAt(g, offsets, graph, i, k);
      assert graph[p] == ByteAt(graph, offsets[i] - k);
      CharacterTests(g.heap[i].text, k, end);
      StandsAfter(g, offsets, graph, i, k, end);
      forall v ensures Rest(g.heap, After(g.heap, i, k, end), v) <==> Rest(g.heap, InText(i, k), [g.heap[i].text[k]] + v) {
        RestAfter(g.heap, i, k, end, v);
      }
      pos := At(p + 1);
      posIsLabelCharacter := !IsEOL(graph[p]);
      place := After(g.heap, i, k, end);
    }

    method Exhaust()
      requires Searchable(g, offsets, graph)
      modifies this
      ensures Valid() && place == Exhausted
    {
      pos := Null;
      posIsLabelCharacter := false;
      place := Exhausted;
    }

    /** Inside a label, only the byte at `pos` has to match. */
    method AdvanceInText(input: int) returns (ok: bool)
      requires Valid() && place.InText? && input >= 0x20
      modifies this
      ensures Valid() && (ok <==> place != Exhausted)
      ensures forall v :: Rest(g.heap, place, v) <==> Rest(g.heap, old(place), [input] + v)
    {
      ghost var i, k := place.node, place.k;
      ghost var end := CharacterAt(g, offsets, graph, i, k);
      var b := graph[pos.index];
      assert b == ByteAt(graph, offsets[i] - k);
      CharacterTests(g.heap[i].text, k, end);
      forall v ensures Rest(g.heap, InText(i, k), [input] + v) ==> input == g.heap[i].text[k] {
        RestOfText(g.heap, i, k, input, v);
      }
      if IsMatch(b, input) {
        MoveBehind(pos.index, i, k);
        ok := true;
      } else {
        Exhaust();
        ok := false;
      }
    }

    /** At links, moves behind the first character of the child that begins with `input`. */
    method AdvanceAtLinks(input: int) returns (ok: bool)
      requires Valid() && place.AtLinks? && input >= 0x20
      modifies this
      ensures Valid() && (ok <==> place != Exhausted)
      ensures forall v :: Rest(g.heap, place, v) <==> Rest(g.heap, old(place), [input] + v)
    {
      ghost var children := place.children;
      ghost var sorted := LinkOrder(g, offsets, graph, |graph| - pos.index, children);
      var offset: nat;
      ghost var j: nat;
      ok, offset, j := FindChild(graph, pos.index, input, g, offsets, children, sorted);
      if ok {
        ghost var i := MatchedChild(g, offsets, graph, children, sorted, j, input);
        MoveBehind(offset, i, 0);
      } else {
        forall v ensures !AcceptsAny(g.heap, children, [input] + v) {
          NoChildMatches(g, offsets, graph, children, sorted, input, v);
        }
        Exhaust();
      }
    }

    /** Adds a character to the input sequence: true iff some word still goes on with what has
        been read. Characters below 0x20 never match. */
    method Advance(input: int) returns (ok: bool)
      requires Valid()
      modifies this
      ensures Valid() && (ok <==> exists v :: Rest(g.heap, place, v))
      ensures !ok ==> place == Exhausted
      ensures input < 0x20 ==> !ok
      ensures input >= 0x20 ==> forall v :: Rest(g.heap, place, v) <==> Rest(g.heap, old(place), [input] + v)
    {
      if pos.Null? {
        return false;
      }
      if input >= 0x20 {
        if posIsLabelCharacter {
          ok := AdvanceInText(input);
        } else {
          ok := AdvanceAtLinks(input);
        }
      } else {
        Exhaust();
        ok := false;
      }
      if ok {
        SomethingFollows(g, offsets, graph, place, |graph| - pos.index, posIsLabelCharacter);
      }
    }

    /** The result code for the input so far, or NOT_FOUND. */
    method GetResultForCurrentSequence() returns (value: int)
      requires Valid()
      ensures ResultAt(g.heap, place, value)
    {
      if pos.Null? {
        return NOT_FOUND;
      }
      if posIsLabelCharacter {
        ghost var end := CharacterAt(g, offsets, graph, place.node, place.k);
        assert graph[pos.index] == ByteAt(graph, offsets[place.node] - place.k);
        CharacterTests(g.heap[place.node].text, place.k, end);
        value := ReturnValue(graph[pos.index]);
        ValueInText(g, place.node, place.k);
      } else {
        ghost var sorted := LinkOrder(g, offsets, graph, |graph| - pos.index, place.children);
        ghost var j: nat;
        value, j := FindReturnValue(graph, pos.index, g, offsets, place.children, sorted);
        if value != NOT_FOUND {
          ValueAtChild(g, offsets, graph, place.children, sorted, j);
        } else {
          NoValueAtChildren(g, offsets, graph, place.children, sorted);
        }
      }
    }
  }

  // Whole keys

  /** All characters of a word but its last are printable. */
  lemma {:induction false} WordsArePrintable(g: Dafsa, r: Ref, w: Word, k: nat)
    requires GoodGraph(g) && ValidRef(g.heap, r) && Accepts(g.heap, r, w) && k < |w| - 1
    ensures Printable(w[k])
    decreases |w|
  {
    var n := g.heap[r.id];
    assert ValidNode(g.heap, r.id, n) && GoodNode(g.heap, r.id);
    var rest := w[|n.text|..];
    assert w == n.text + rest && AcceptsAny(g.heap, n.children, rest);
    var c :| c in n.children && Accepts(g.heap, c, rest);
    if k >= |n.text| {
      WordsArePrintable(g, c, rest, k - |n.text|);
    }
  }

  /** A value that the graph lists for the key, or none is listed. */
  ghost predicate Found(g: Dafsa, key: Word, value: int) {
    if value == NOT_FOUND then forall u :: IsValue(u) ==> !Spells(g, key + [u])
    else IsValue(value) && Spells(g, key + [value])
  }

  lemma UnprintableKey(g: Dafsa, key: Word, n: nat)
    requires GoodGraph(g) && n < |key| && key[n] < 0x20
    ensures Found(g, key, NOT_FOUND)
  {
    forall u ensures !Spells(g, key + [u]) {
      if Spells(g, key + [u]) {
        var c :| c in g.source && Accepts(g.heap, c, key + [u]);
        WordsArePrintable(g, c, key + [u], n);
      }
    }
  }

  /** Having read `read`, the machine stands where exactly its continuations follow. */
  ghost predicate Follows(g: Dafsa, p: Place, read: Word) {
    forall v :: Rest(g.heap, p, v) <==> Spells(g, read + v)
  }

  lemma FollowsAtStart(g: Dafsa)
    ensures Follows(g, AtLinks(g.source), [])
  {
    forall v: Word ensures Rest(g.heap, AtLinks(g.source), v) <==> Spells(g, [] + v) {
      assert [] + v == v;
    }
  }

  lemma FollowsNext(g: Dafsa, p: Place, q: Place, read: Word, c: int)
    requires Follows(g, p, read) && forall v :: Rest(g.heap, q, v) <==> Rest(g.heap, p, [c] + v)
    ensures Follows(g, q, read + [c])
  {
    forall v ensures Rest(g.heap, q, v) <==> Spells(g, read + [c] + v) {
      assert read + [c] + v == read + ([c] + v);
    }
  }

  lemma FollowsAtEnd(g: Dafsa, p: Place, key: Word, value: int)
    requires Follows(g, p, key) && ResultAt(g.heap, p, value)
    ensures Found(g, key, value)
  {
  }

  lemma FollowsNothing(g: Dafsa, key: Word, n: nat)
    requires n <= |key| && Follows(g, Exhausted, key[..n])
    ensures Found(g, key, NOT_FOUND)
  {
    forall u ensures !Spells(g, key + [u]) {
      assert key + [u] == key[..n] + (key[n..] + [u]);
      assert !Rest(g.heap, Exhausted, key[n..] + [u]);
    }
  }

  /** One character of the key. */
  method Consume(lookup: FixedSetIncrementalLookup, c: int, ghost read: Word) returns (ok: bool)
    requires lookup.Valid() && Follows(lookup.g, lookup.place, read)
    modifies lookup
    ensures lookup.Valid() && (!ok ==> lookup.place == Exhausted) && (c < 0x20 ==> !ok)
    ensures c >= 0x20 ==> Follows(lookup.g, lookup.place, read + [c])
  {
    ghost var p := lookup.place;
    ok := lookup.Advance(c);
    if c >= 0x20 {
      FollowsNext(lookup.g, p, lookup.place, read, c);
    }
  }

  method LookupStringInFixedSet(graph: seq<int>, key: seq<int>, ghost g: Dafsa, ghost offsets: map<nat, nat>) returns (value: int)
    requires Searchable(g, offsets, graph)
    ensures Found(g, key, value)
  {
    var lookup := new FixedSetIncrementalLookup(graph, g, offsets);
    FollowsAtStart(g);
    for n := 0 to |key|
      invariant lookup.Valid() && lookup.g == g && Follows(g, lookup.place, key[..n])
    {
      var ok := Consume(lookup, key[n], key[..n]);
      assert key[..n + 1] == key[..n] + [key[n]];
      if !ok {
        if key[n] < 0x20 {
          UnprintableKey(g, key, n);
        } else {
          FollowsNothing(g, key, n + 1);
        }
        return NOT_FOUND;
      }
    }
    assert key[..|key|] == key;
    value := lookup.GetResultForCurrentSequence();
    FollowsAtEnd(g, lookup.place, key, value);
  }
}
