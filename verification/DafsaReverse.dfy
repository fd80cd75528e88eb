/** `reverse` of make_dafsa.py: a depth-first walk that turns every edge around. */
module DafsaReverse {
  import opened DafsaGraph

  /** The identity given to the reverse of node `i`: parents, whose identities are larger, get
      smaller ones. */
  function Mirror(next: nat, i: nat): (m: nat)
    ensures i < next ==> m < next
  {
    if i < next then next - 1 - i else i
  }

  /** The walk's local variables: the new nodes and the new source list. */
  datatype Walk = Walk(nodemap: Heap, sink: seq<Ref>)

  /** How often reference `x` occurs among the new children recorded for old node `y`. */
  ghost function Links(next: nat, s: Walk, x: Ref, y: Ref): nat {
    match y
    case Sink => multiset(s.sink)[x]
    case To(i) => if Mirror(next, i) in s.nodemap then multiset(s.nodemap[Mirror(next, i)].children)[x] else 0
  }

  /** How often old node `p` lists `y` as its child. */
  ghost function Edges(g: Dafsa, p: nat, y: Ref): nat {
    if p in g.heap then multiset(g.heap[p].children)[y] else 0
  }

  /** `x` may stand for a parent: the old source, or a node already visited. */
  ghost predicate Known(s: Walk, x: Ref) {
    x.Sink? || x.id in s.nodemap
  }

  /** The new nodes are reverses of old ones. */
  ghost predicate Reverses(g: Dafsa, nodemap: Heap) {
    forall j :: j in nodemap ==>
      && Mirror(g.next, j) in g.heap
      && nodemap[j].text == Reversed(g.heap[Mirror(g.next, j)].text)
      && |nodemap[j].children| > 0
  }

  ghost predicate Walking(g: Dafsa, s: Walk) {
    && Reverses(g, s.nodemap)
    && forall x: Ref, y: Ref :: !Known(s, x) ==> Links(g.next, s, x, y) == 0
  }

  /** `r` holds every edge of the part of `g` that its source reaches, reversed, as often as it
      occurs in `g`; the source and the sink change places. */
  ghost predicate Transposed(g: Dafsa, r: Dafsa) {
    && r.next == g.next
    && Reverses(g, r.heap)
    && forall x: Ref, y: Ref :: Links(g.next, Walk(r.heap, r.source), x, y) ==
        match x
        case Sink => multiset(g.source)[y]
        case To(j) => if j in r.heap then Edges(g, Mirror(g.next, j), y) else 0
  }

  /** Appends `parent` to the new children of `node`, creating its reverse on the first visit. */
  function Recorded(g: Dafsa, s: Walk, node: Ref, parent: Ref): (t: Walk)
    requires ValidRef(g.heap, node)
  {
    match node
    case Sink => s.(sink := s.sink + [parent])
    case To(i) =>
      var m := Mirror(g.next, i);
      if m in s.nodemap then
        s.(nodemap := s.nodemap[m := s.nodemap[m].(children := s.nodemap[m].children + [parent])])
      else
        s.(nodemap := s.nodemap[m := Node(Reversed(g.heap[i].text), [parent])])
  }

  lemma RecordedLinks(g: Dafsa, s: Walk, node: Ref, parent: Ref)
    requires Valid(g) && ValidRef(g.heap, node)
    ensures var t := Recorded(g, s, node, parent);
            forall x: Ref, y: Ref ::
              Links(g.next, t, x, y) == Links(g.next, s, x, y) + if x == parent && y == node then 1 else 0
  {
  }

  lemma RecordedWalking(g: Dafsa, s: Walk, node: Ref, parent: Ref)
    requires Valid(g) && Walking(g, s) && ValidRef(g.heap, node) && Known(s, parent)
    ensures Walking(g, Recorded(g, s, node, parent))
  {
    RecordedLinks(g, s, node, parent);
  }

  /** From `s` to `t` the edge from `parent` to `node` was recorded, and all the edges that leave
      the nodes visited meanwhile. */
  ghost predicate Walked(g: Dafsa, s: Walk, t: Walk, node: Ref, parent: Ref) {
    && Walking(g, t)
    && s.nodemap.Keys <= t.nodemap.Keys
    && (node.To? ==> Mirror(g.next, node.id) in t.nodemap)
    && forall x: Ref, y: Ref ::
        Links(g.next, t, x, y) ==
          if Known(s, x) then Links(g.next, s, x, y) + (if x == parent && y == node then 1 else 0)
          else if Known(t, x) then Edges(g, Mirror(g.next, x.id), y) else 0
  }

  /** As `Walked`, but of the edges that leave `node`, just visited, only `done` are recorded. */
  ghost predicate PartlyWalked(g: Dafsa, s: Walk, t: Walk, node: Ref, parent: Ref, done: seq<Ref>) {
    && node.To?
    && Walking(g, t)
    && s.nodemap.Keys <= t.nodemap.Keys
    && Mirror(g.next, node.id) in t.nodemap
    && forall x: Ref, y: Ref ::
        Links(g.next, t, x, y) ==
          if Known(s, x) then Links(g.next, s, x, y) + (if x == parent && y == node then 1 else 0)
          else if x == To(Mirror(g.next, node.id)) then multiset(done)[y]
          else if Known(t, x) then Edges(g, Mirror(g.next, x.id), y) else 0
  }

  lemma FirstVisit(g: Dafsa, s: Walk, node: Ref, parent: Ref)
    requires Valid(g) && Walking(g, s) && ValidRef(g.heap, node) && Known(s, parent)
    requires node.To? && Mirror(g.next, node.id) !in s.nodemap
    ensures PartlyWalked(g, s, Recorded(g, s, node, parent), node, parent, [])
  {
    RecordedLinks(g, s, node, parent);
    RecordedWalking(g, s, node, parent);
  }

  lemma NextChild(g: Dafsa, s: Walk, t: Walk, u: Walk, node: Ref, parent: Ref, done: seq<Ref>, child: Ref)
    requires node.To? && Mirror(g.next, node.id) !in s.nodemap
    requires PartlyWalked(g, s, t, node, parent, done)
    requires Walked(g, t, u, child, To(Mirror(g.next, node.id)))
    ensures PartlyWalked(g, s, u, node, parent, done + [child])
  {
  }

  lemma LastChild(g: Dafsa, s: Walk, t: Walk, node: Ref, parent: Ref)
    requires node.To? && node.id in g.heap && Mirror(g.next, node.id) !in s.nodemap
    requires PartlyWalked(g, s, t, node, parent, g.heap[node.id].children)
    ensures Walked(g, s, t, node, parent)
  {
  }

  lemma LaterVisit(g: Dafsa, s: Walk, node: Ref, parent: Ref)
    requires Valid(g) && Walking(g, s) && ValidRef(g.heap, node) && Known(s, parent)
    requires node.Sink? || Mirror(g.next, node.id) in s.nodemap
    ensures Walked(g, s, Recorded(g, s, node, parent), node, parent)
  {
    RecordedLinks(g, s, node, parent);
    RecordedWalking(g, s, node, parent);
  }

  // The order in which the walk comes to the nodes

  /** A path leads from `r` down to node `i`. */
  ghost predicate Leads(h: Heap, r: Ref, i: nat)
    requires ValidHeap(h) && ValidRef(h, r)
    decreases if r.Sink? then 0 else r.id + 1
  {
    r.To? &&
    (assert ValidNode(h, r.id, h[r.id]);
     r.id == i || exists c :: c in h[r.id].children && Leads(h, c, i))
  }

  /** The first entry of the source list that leads to node `i`. */
  ghost function Turn(g: Dafsa, i: nat): (k: nat)
    requires Valid(g)
    ensures k <= |g.source| && (k < |g.source| ==> Leads(g.heap, g.source[k], i))
    ensures forall l :: 0 <= l < k ==> !Leads(g.heap, g.source[l], i)
  {
    TurnFrom(g, i, 0)
  }

  ghost function TurnFrom(g: Dafsa, i: nat, from: nat): (k: nat)
    requires Valid(g) && from <= |g.source|
    ensures from <= k <= |g.source| && (k < |g.source| ==> Leads(g.heap, g.source[k], i))
    ensures forall l :: from <= l < k ==> !Leads(g.heap, g.source[l], i)
    decreases |g.source| - from
  {
    if from == |g.source| || Leads(g.heap, g.source[from], i) then from else TurnFrom(g, i, from + 1)
  }

  ghost function TurnOf(g: Dafsa, x: Ref): nat
    requires Valid(g) && x.To?
  {
    Turn(g, Mirror(g.next, x.id))
  }

  /** Those whose turn came first are first. */
  ghost predicate InTurn(g: Dafsa, rs: seq<Ref>)
    requires Valid(g)
  {
    forall a, b :: 0 <= a < b < |rs| && rs[a].To? && rs[b].To? ==> TurnOf(g, rs[a]) <= TurnOf(g, rs[b])
  }

  /** What the walk has recorded when it follows entry `k`: all nodes of earlier entries have been visited,
      none of later ones, and everything is in turn. */
  ghost predicate Timely(g: Dafsa, s: Walk, k: nat)
    requires Valid(g)
  {
    && (forall i :: i in g.heap && Turn(g, i) < k ==> Mirror(g.next, i) in s.nodemap)
    && (forall j :: j in s.nodemap ==> TurnOf(g, To(j)) <= k)
    && InTurn(g, s.sink)
    && forall j :: j in s.nodemap ==> InTurn(g, s.nodemap[j].children)
  }

  /** A parent that is the source or was visited in this turn. */
  ghost predicate Present(g: Dafsa, x: Ref, k: nat)
    requires Valid(g)
  {
    x.To? ==> TurnOf(g, x) == k
  }

  /** Entry `k` leads to the node. */
  ghost predicate InReach(g: Dafsa, node: Ref, k: nat)
    requires Valid(g)
  {
    k < |g.source| && ValidRef(g.heap, node) && (node.To? ==> Leads(g.heap, g.source[k], node.id))
  }

  lemma InTurnAppend(g: Dafsa, rs: seq<Ref>, x: Ref, k: nat)
    requires Valid(g) && InTurn(g, rs) && Present(g, x, k)
    requires forall c :: c in rs && c.To? ==> TurnOf(g, c) <= k
    ensures InTurn(g, rs + [x])
  {
  }

  /** What is listed has been visited. */
  lemma ListedKnown(g: Dafsa, s: Walk, y: Ref, rs: seq<Ref>, k: nat)
    requires Valid(g) && Walking(g, s) && Timely(g, s, k)
    requires forall x :: multiset(rs)[x] == Links(g.next, s, x, y)
    ensures forall c :: c in rs && c.To? ==> TurnOf(g, c) <= k
  {
    forall c | c in rs && c.To? ensures TurnOf(g, c) <= k {
      assert multiset(rs)[c] > 0;
      assert Known(s, c);
    }
  }

  lemma RecordedTimely(g: Dafsa, s: Walk, node: Ref, parent: Ref, k: nat)
    requires Valid(g) && Walking(g, s) && Timely(g, s, k) && Present(g, parent, k)
    requires InReach(g, node, k)
    ensures Timely(g, Recorded(g, s, node, parent), k)
    ensures node.To? && Mirror(g.next, node.id) !in s.nodemap ==> Present(g, To(Mirror(g.next, node.id)), k)
  {
    if node.Sink? {
      ListedKnown(g, s, Sink, s.sink, k);
      InTurnAppend(g, s.sink, parent, k);
    } else if Mirror(g.next, node.id) in s.nodemap {
      AgainTimely(g, s, node, parent, k);
    } else {
      VisitedNow(g, s, node.id, k);
    }
  }

  lemma AgainTimely(g: Dafsa, s: Walk, node: Ref, parent: Ref, k: nat)
    requires Valid(g) && Walking(g, s) && Timely(g, s, k) && Present(g, parent, k)
    requires node.To? && node.id in g.heap && Mirror(g.next, node.id) in s.nodemap
    ensures Timely(g, Recorded(g, s, node, parent), k)
  {
    var m := Mirror(g.next, node.id);
    ListedKnown(g, s, node, s.nodemap[m].children, k);
    InTurnAppend(g, s.nodemap[m].children, parent, k);
    assert Recorded(g, s, node, parent).nodemap.Keys == s.nodemap.Keys;
  }

  lemma VisitedNow(g: Dafsa, s: Walk, i: nat, k: nat)
    requires Valid(g) && Timely(g, s, k) && i in g.heap && Mirror(g.next, i) !in s.nodemap && InReach(g, To(i), k)
    ensures TurnOf(g, To(Mirror(g.next, i))) == k
  {
    assert Mirror(g.next, Mirror(g.next, i)) == i;
  }

  lemma {:induction false} LeadsOn(h: Heap, r: Ref, i: nat, c: Ref)
    requires ValidHeap(h) && ValidRef(h, r) && i in h && Leads(h, r, i) && c in h[i].children && c.To? && ValidRef(h, c)
    ensures Leads(h, r, c.id)
    decreases r.id
  {
    assert ValidNode(h, r.id, h[r.id]);
    if r.id == i {
      assert Leads(h, c, c.id);
    } else {
      var d :| d in h[r.id].children && Leads(h, d, i);
      LeadsOn(h, d, i, c);
    }
  }

  lemma ChildInReach(g: Dafsa, node: Ref, c: Ref, k: nat)
    requires Valid(g) && InReach(g, node, k) && node.To? && c in g.heap[node.id].children
    ensures InReach(g, c, k) && (c.To? ==> c.id < node.id)
  {
    assert ValidNode(g.heap, node.id, g.heap[node.id]);
    if c.To? {
      LeadsOn(g.heap, g.source[k], node.id, c);
    }
  }

  /** The edges of visited nodes have been recorded. */
  ghost predicate AllRecorded(g: Dafsa, s: Walk) {
    forall j, y: Ref :: j in s.nodemap ==> Links(g.next, s, To(j), y) == Edges(g, Mirror(g.next, j), y)
  }

  lemma {:induction false} LeadsVisited(g: Dafsa, s: Walk, r: Ref, i: nat)
    requires Valid(g) && Reverses(g, s.nodemap) && AllRecorded(g, s) && ValidRef(g.heap, r) && Leads(g.heap, r, i)
    requires Mirror(g.next, r.id) in s.nodemap
    ensures Mirror(g.next, i) in s.nodemap
    decreases r.id
  {
    if r.id != i {
      assert ValidNode(g.heap, r.id, g.heap[r.id]);
      var c :| c in g.heap[r.id].children && Leads(g.heap, c, i);
      assert Mirror(g.next, Mirror(g.next, r.id)) == r.id;
      assert Links(g.next, s, To(Mirror(g.next, r.id)), c) == Edges(g, r.id, c) > 0;
      LeadsVisited(g, s, c, i);
    }
  }

  /** The first `k` entries of the source list have been followed. */
  ghost predicate SoFar(g: Dafsa, s: Walk, k: nat)
    requires Valid(g)
  {
    && k <= |g.source| && Walking(g, s) && Timely(g, s, k) && AllRecorded(g, s)
    && (forall j :: j in s.nodemap ==> TurnOf(g, To(j)) < k)
    && forall y: Ref :: Links(g.next, s, Sink, y) == multiset(g.source[..k])[y]
  }

  lemma FollowedOneMore(g: Dafsa, s: Walk, t: Walk, k: nat)
    requires Valid(g) && SoFar(g, s, k) && k < |g.source| && Walked(g, s, t, g.source[k], Sink)
    ensures forall y: Ref :: Links(g.next, t, Sink, y) == multiset(g.source[..k + 1])[y]
  {
    assert g.source[..k + 1] == g.source[..k] + [g.source[k]];
    forall y: Ref ensures Links(g.next, t, Sink, y) == multiset(g.source[..k + 1])[y] {
      assert Links(g.next, s, Sink, y) == multiset(g.source[..k])[y];
      AppendedCount(g.source[..k], g.source[k], y);
    }
  }

  lemma AppendedCount(rest: seq<Ref>, c: Ref, x: Ref)
    ensures multiset(rest + [c])[x] == multiset(rest)[x] + if c == x then 1 else 0
  {
  }

  lemma StillRecorded(g: Dafsa, s: Walk, t: Walk, node: Ref)
    requires Valid(g) && AllRecorded(g, s) && Walked(g, s, t, node, Sink)
    ensures AllRecorded(g, t)
  {
    forall j, y: Ref | j in t.nodemap ensures Links(g.next, t, To(j), y) == Edges(g, Mirror(g.next, j), y) {
      assert j in s.nodemap ==> Links(g.next, s, To(j), y) == Edges(g, Mirror(g.next, j), y);
    }
  }

  lemma NothingFollowed(g: Dafsa)
    requires Valid(g)
    ensures SoFar(g, Walk(map[], []), 0)
  {
    assert g.source[..0] == [];
  }

  lemma SourceInReach(g: Dafsa, k: nat)
    requires Valid(g) && k < |g.source|
    ensures InReach(g, g.source[k], k)
  {
    assert g.source[k] in g.source;
  }

  lemma AllFollowed(g: Dafsa, r: Dafsa)
    requires Valid(g) && r.next == g.next && SoFar(g, Walk(r.heap, r.source), |g.source|)
    ensures Transposed(g, r)
  {
    var s := Walk(r.heap, r.source);
    assert g.source[..|g.source|] == g.source;
    forall x: Ref, y: Ref ensures Links(g.next, s, x, y) ==
        match x
        case Sink => multiset(g.source)[y]
        case To(j) => if j in r.heap then Edges(g, Mirror(g.next, j), y) else 0
    {
      assert x.To? && x.id !in r.heap ==> !Known(s, x);
    }
  }

  /** The next turn begins. */
  lemma TurnEnds(g: Dafsa, s: Walk, t: Walk, k: nat)
    requires Valid(g) && SoFar(g, s, k) && k < |g.source| && Walked(g, s, t, g.source[k], Sink) && Timely(g, t, k)
    ensures SoFar(g, t, k + 1)
  {
    FollowedOneMore(g, s, t, k);
    StillRecorded(g, s, t, g.source[k]);
    forall i | i in g.heap && Turn(g, i) < k + 1 ensures Mirror(g.next, i) in t.nodemap {
      if Turn(g, i) == k {
        LeadsVisited(g, t, g.source[k], i);
      }
    }
  }

  /** Every recorded list is in the order of the walk: by the first entry of the old source list that leads
      to the node. */
  ghost predicate WalkOrder(g: Dafsa, r: Dafsa)
    requires Valid(g)
  {
    && (forall j :: j in r.heap ==> TurnOf(g, To(j)) < |g.source|)
    && InTurn(g, r.source)
    && forall j :: j in r.heap ==> InTurn(g, r.heap[j].children)
  }

  /** In this turn `node` was visited, and of the edges that leave it the first `k` are recorded. */
  ghost predicate Visiting(g: Dafsa, s: Walk, t: Walk, node: Ref, parent: Ref, k: nat, turn: nat)
    requires Valid(g)
  {
    && InReach(g, node, turn) && node.To? && k <= |g.heap[node.id].children|
    && PartlyWalked(g, s, t, node, parent, g.heap[node.id].children[..k]) && Timely(g, t, turn)
    && Mirror(g.next, node.id) !in s.nodemap && Present(g, To(Mirror(g.next, node.id)), turn)
  }

  lemma VisitStarts(g: Dafsa, s: Walk, node: Ref, parent: Ref, turn: nat)
    requires Valid(g) && Walking(g, s) && Known(s, parent) && Timely(g, s, turn)
    requires Present(g, parent, turn) && InReach(g, node, turn) && node.To? && Mirror(g.next, node.id) !in s.nodemap
    ensures Visiting(g, s, Recorded(g, s, node, parent), node, parent, 0, turn)
  {
    assert g.heap[node.id].children[..0] == [];
    FirstVisit(g, s, node, parent);
    RecordedTimely(g, s, node, parent, turn);
  }

  lemma ChildVisited(g: Dafsa, s: Walk, t: Walk, u: Walk, node: Ref, parent: Ref, k: nat, turn: nat)
    requires Valid(g) && Visiting(g, s, t, node, parent, k, turn) && k < |g.heap[node.id].children|
    requires Walked(g, t, u, g.heap[node.id].children[k], To(Mirror(g.next, node.id))) && Timely(g, u, turn)
    ensures Visiting(g, s, u, node, parent, k + 1, turn)
  {
    NextChildAt(g, s, t, u, node, parent, g.heap[node.id].children, k);
  }

  lemma NextChildAt(g: Dafsa, s: Walk, t: Walk, u: Walk, node: Ref, parent: Ref, children: seq<Ref>, k: nat)
    requires node.To? && Mirror(g.next, node.id) !in s.nodemap && k < |children|
    requires PartlyWalked(g, s, t, node, parent, children[..k])
    requires Walked(g, t, u, children[k], To(Mirror(g.next, node.id)))
    ensures PartlyWalked(g, s, u, node, parent, children[..k + 1])
  {
    assert children[..k + 1] == children[..k] + [children[k]];
    NextChild(g, s, t, u, node, parent, children[..k], children[k]);
  }

  lemma VisitEnds(g: Dafsa, s: Walk, t: Walk, node: Ref, parent: Ref, turn: nat)
    requires Valid(g) && node.To? && node.id in g.heap
    requires Visiting(g, s, t, node, parent, |g.heap[node.id].children|, turn)
    ensures Walked(g, s, t, node, parent) && Timely(g, t, turn)
  {
    var children := g.heap[node.id].children;
    assert children[..|children|] == children;
    LastChild(g, s, t, node, parent);
  }

  class Reversal {
    const g: Dafsa
    var sink: seq<Ref>
    var nodemap: Heap

    constructor (g: Dafsa)
      ensures this.g == g && State() == Walk(map[], [])
    {
      this.g := g;
      sink := [];
      nodemap := map[];
    }

    ghost function State(): Walk
      reads this
    {
      Walk(nodemap, sink)
    }

    method Record(node: Ref, parent: Ref)
      requires ValidRef(g.heap, node)
      modifies this
      ensures State() == Recorded(g, old(State()), node, parent)
    {
      if node.Sink? {
        sink := sink + [parent];
      } else {
        var m := Mirror(g.next, node.id);
        if m !in nodemap {
          nodemap := nodemap[m := Node(Reversed(g.heap[node.id].text), [parent])];
        } else {
          nodemap := nodemap[m := nodemap[m].(children := nodemap[m].children + [parent])];
        }
      }
    }

    /** Records the edge from `parent` to `node` and, on the first visit, walks on. */
    method Dfs(node: Ref, parent: Ref, ghost turn: nat)
      requires Valid(g) && Walking(g, State()) && Known(State(), parent) && Timely(g, State(), turn)
      requires Present(g, parent, turn) && InReach(g, node, turn)
      modifies this
      ensures Walked(g, old(State()), State(), node, parent) && Timely(g, State(), turn)
      decreases if node.Sink? then 0 else node.id + 1, 1, 0
    {
      ghost var s := State();
      var first := node.To? && Mirror(g.next, node.id) !in nodemap;
      Record(node, parent);
      if first {
        VisitStarts(g, s, node, parent, turn);
        WalkOn(node, parent, s, turn);
        VisitEnds(g, s, State(), node, parent, turn);
      } else {
        RecordedTimely(g, s, node, parent, turn);
        LaterVisit(g, s, node, parent);
      }
    }

    /** Walks on from a node that has just been visited. */
    method WalkOn(node: Ref, ghost parent: Ref, ghost s: Walk, ghost turn: nat)
      requires Valid(g) && Visiting(g, s, State(), node, parent, 0, turn)
      modifies this
      ensures Visiting(g, s, State(), node, parent, |g.heap[node.id].children|, turn)
      decreases node.id + 1, 0, 1
    {
      for k := 0 to |g.heap[node.id].children|
        invariant Visiting(g, s, State(), node, parent, k, turn)
      {
        WalkChild(node, parent, s, k, turn);
      }
    }

    method WalkChild(node: Ref, ghost parent: Ref, ghost s: Walk, k: nat, ghost turn: nat)
      requires Valid(g) && Visiting(g, s, State(), node, parent, k, turn) && k < |g.heap[node.id].children|
      modifies this
      ensures Visiting(g, s, State(), node, parent, k + 1, turn)
      decreases node.id + 1, 0, 0
    {
      ghost var t := State();
      var children := g.heap[node.id].children;
      ChildInReach(g, node, children[k], turn);
      Dfs(children[k], To(Mirror(g.next, node.id)), turn);
      ChildVisited(g, s, t, State(), node, parent, k, turn);
    }

    /** Follows entry `k` of the source list. */
    method Follow(k: nat)
      requires Valid(g) && SoFar(g, State(), k) && k < |g.source|
      modifies this
      ensures SoFar(g, State(), k + 1)
    {
      ghost var s := State();
      SourceInReach(g, k);
      Dfs(g.source[k], Sink, k);
      TurnEnds(g, s, State(), k);
    }
  }

  method Reverse(g: Dafsa) returns (r: Dafsa)
    requires Valid(g)
    ensures Transposed(g, r) && WalkOrder(g, r)
  {
    var walk := new Reversal(g);
    NothingFollowed(g);
    for k := 0 to |g.source|
      invariant walk.g == g && SoFar(g, walk.State(), k)
    {
      walk.Follow(k);
    }
    r := Dafsa(walk.nodemap, walk.sink, g.next);
    AllFollowed(g, r);
  }

  // What the transposition means for the words

  /** A recorded link is an edge of the old graph turned around. */
  lemma LinkIsEdge(g: Dafsa, r: Dafsa, j: nat, c: Ref)
    requires Valid(g) && Transposed(g, r) && j in r.heap && c in r.heap[j].children
    ensures c.Sink? ==> To(Mirror(g.next, j)) in g.source
    ensures c.To? ==> c.id in r.heap && c.id < j && Mirror(g.next, c.id) in g.heap &&
                      To(Mirror(g.next, j)) in g.heap[Mirror(g.next, c.id)].children
  {
    var i := Mirror(g.next, j);
    assert Links(g.next, Walk(r.heap, r.source), c, To(i)) > 0;
    if c.To? {
      assert ValidNode(g.heap, Mirror(g.next, c.id), g.heap[Mirror(g.next, c.id)]);
    }
  }

  lemma SourceLinkIsEdge(g: Dafsa, r: Dafsa, c: Ref)
    requires Valid(g) && Transposed(g, r) && c in r.source
    ensures c.Sink? ==> Sink in g.source
    ensures c.To? ==> c.id in r.heap && Mirror(g.next, c.id) in g.heap &&
                      Sink in g.heap[Mirror(g.next, c.id)].children
  {
    assert Links(g.next, Walk(r.heap, r.source), c, Sink) > 0;
  }

  /** And every edge from a visited node was recorded. */
  lemma EdgeIsLink(g: Dafsa, r: Dafsa, p: nat, c: Ref)
    requires Valid(g) && Transposed(g, r) && p in g.heap && Mirror(g.next, p) in r.heap
    requires c in g.heap[p].children
    ensures c.Sink? ==> To(Mirror(g.next, p)) in r.source
    ensures c.To? ==> Mirror(g.next, c.id) in r.heap &&
                      To(Mirror(g.next, p)) in r.heap[Mirror(g.next, c.id)].children
  {
    assert Links(g.next, Walk(r.heap, r.source), To(Mirror(g.next, p)), c) == Edges(g, p, c) > 0;
  }

  lemma SourceEdgeIsLink(g: Dafsa, r: Dafsa, c: Ref)
    requires Valid(g) && Transposed(g, r) && c in g.source
    ensures c.Sink? ==> Sink in r.source
    ensures c.To? ==> Mirror(g.next, c.id) in r.heap && Sink in r.heap[Mirror(g.next, c.id)].children
  {
    assert Links(g.next, Walk(r.heap, r.source), Sink, c) > 0;
  }

  lemma TransposedValid(g: Dafsa, r: Dafsa)
    requires Valid(g) && Transposed(g, r)
    ensures Valid(r)
  {
    forall j | j in r.heap ensures ValidNode(r.heap, j, r.heap[j]) && j < r.next {
      assert ValidNode(g.heap, Mirror(g.next, j), g.heap[Mirror(g.next, j)]);
      forall c | c in r.heap[j].children ensures c.To? ==> c.id in r.heap && c.id < j {
        LinkIsEdge(g, r, j, c);
      }
    }
    forall c | c in r.source ensures ValidRef(r.heap, c) {
      SourceLinkIsEdge(g, r, c);
    }
  }

  /** A path down the old graph from node `i`, met by a path down the new one from one of the
      reversed parents of `i`, is a path of the whole new graph. */
  lemma {:induction false} ForwardPath(g: Dafsa, r: Dafsa, i: nat, v: Word, c: Ref, u: Word)
    requires Valid(g) && Transposed(g, r) && i in g.heap && Mirror(g.next, i) in r.heap
    requires Accepts(g.heap, To(i), v)
    requires c in r.heap[Mirror(g.next, i)].children && Accepts(r.heap, c, u)
    ensures Spells(r, Reversed(v) + u)
    decreases |v|
  {
    var text := g.heap[i].text;
    var rest := v[|text|..];
    AcceptsStep(r.heap, Mirror(g.next, i), c, u);
    assert v == text + rest && AcceptsAny(g.heap, g.heap[i].children, rest);
    ReversedConcat(text, rest);
    var d :| d in g.heap[i].children && Accepts(g.heap, d, rest);
    EdgeIsLink(g, r, i, d);
    if d.Sink? {
      assert Reversed(v) + u == Reversed(text) + u;
    } else {
      ForwardPath(g, r, d.id, rest, To(Mirror(g.next, i)), Reversed(text) + u);
      assert Reversed(v) + u == Reversed(rest) + (Reversed(text) + u);
    }
  }

  /** The converse: down the new graph from node `j`, met by a path of the old one. */
  lemma {:induction false} BackwardPath(g: Dafsa, r: Dafsa, j: nat, v: Word, c: Ref, u: Word)
    requires Valid(g) && Transposed(g, r) && j in r.heap && Mirror(g.next, j) in g.heap
    requires Accepts(r.heap, To(j), v)
    requires c in g.heap[Mirror(g.next, j)].children && Accepts(g.heap, c, u)
    ensures Spells(g, Reversed(v) + u)
    decreases |v|
  {
    var text := r.heap[j].text;
    var rest := v[|text|..];
    assert ValidNode(g.heap, Mirror(g.next, j), g.heap[Mirror(g.next, j)]);
    ReversedTwice(g.heap[Mirror(g.next, j)].text);
    AcceptsStep(g.heap, Mirror(g.next, j), c, u);
    assert v == text + rest && AcceptsAny(r.heap, r.heap[j].children, rest);
    ReversedConcat(text, rest);
    var d :| d in r.heap[j].children && Accepts(r.heap, d, rest);
    LinkIsEdge(g, r, j, d);
    if d.Sink? {
      assert Reversed(v) + u == Reversed(text) + u;
    } else {
      BackwardPath(g, r, d.id, rest, To(Mirror(g.next, j)), Reversed(text) + u);
      assert Reversed(v) + u == Reversed(rest) + (Reversed(text) + u);
    }
  }

  /** The reversed graph spells exactly the reversed words. */
  lemma TransposedSpells(g: Dafsa, r: Dafsa, w: Word)
    requires Valid(g) && Transposed(g, r)
    ensures Spells(g, w) <==> Spells(r, Reversed(w))
  {
    if Spells(g, w) {
      var c :| c in g.source && Accepts(g.heap, c, w);
      SourceEdgeIsLink(g, r, c);
      if c.To? {
        ForwardPath(g, r, c.id, w, Sink, []);
        assert Reversed(w) + [] == Reversed(w);
      }
    }
    if Spells(r, Reversed(w)) {
      var c :| c in r.source && Accepts(r.heap, c, Reversed(w));
      SourceLinkIsEdge(g, r, c);
      ReversedTwice(w);
      if c.To? {
        BackwardPath(g, r, c.id, Reversed(w), Sink, []);
        assert w + [] == w;
      } else {
        assert Accepts(g.heap, Sink, w);
      }
    }
  }
}
