/** `CidrRange::exclude` of cidr_range.h: a worklist that takes ranges out of ranges. */
module CidrExclude {
  import opened CidrBlocks
  import opened CidrRanges

  ghost predicate AllValid(rs: seq<CidrRange>) {
    forall i :: 0 <= i < |rs| ==> rs[i].Valid()
  }

  ghost function Views(rs: seq<CidrRange>): (bs: seq<Block>)
    requires AllValid(rs)
    ensures |bs| == |rs| && forall i :: 0 <= i < |rs| ==> bs[i] == rs[i].View()
  {
    seq(|rs|, i requires 0 <= i < |rs| => rs[i].View())
  }

  // What the algorithm promises

  /** Some block of the list contains `b`. */
  ghost predicate Covers(bs: seq<Block>, b: Block) {
    exists i :: 0 <= i < |bs| && Contains(bs[i], b)
  }

  ghost predicate Apart(bs: seq<Block>, b: Block) {
    forall i :: 0 <= i < |bs| ==> Disjoint(bs[i], b)
  }

  ghost predicate PairwiseDisjoint(bs: seq<Block>) {
    forall i, j :: 0 <= i < j < |bs| ==> Disjoint(bs[i], bs[j])
  }

  ghost predicate Ascending(bs: seq<Block>) {
    forall i, j :: 0 <= i < j < |bs| ==> Precedes(bs[i], bs[j])
  }

  /** The addresses of the originals without those of the exclusions. */
  ghost predicate Difference(originals: seq<Block>, excluded: seq<Block>, result: seq<Block>) {
    forall a :: IsAddress(a) ==> (Covers(result, a) <==> Covers(originals, a) && !Covers(excluded, a))
  }

  /** Every block inside an original and apart from the exclusions lies inside one block of the result. */
  ghost predicate Coarsest(originals: seq<Block>, excluded: seq<Block>, result: seq<Block>) {
    forall b :: Covers(originals, b) && Apart(excluded, b) ==> Covers(result, b)
  }

  // The worklist

  /** What the loop keeps, with `done` finished and `stack` still to be looked at. */
  ghost predicate Excluding(originals: seq<Block>, excluded: seq<Block>, done: seq<Block>, stack: seq<Block>) {
    && (forall a :: IsAddress(a) ==>
          (Covers(done, a) || (Covers(stack, a) && !Covers(excluded, a)) <==> Covers(originals, a) && !Covers(excluded, a)))
    && (forall b :: Covers(originals, b) && Apart(excluded, b) ==> Covers(done, b) || Covers(stack, b))
    && (PairwiseDisjoint(originals) ==> PairwiseDisjoint(done + stack) && Ascending(done + stack))
  }

  lemma CoversPush(x: Block, bs: seq<Block>, b: Block)
    ensures Covers([x] + bs, b) <==> Contains(x, b) || Covers(bs, b)
  {
    var all := [x] + bs;
    if Contains(x, b) {
      assert Contains(all[0], b);
    }
    if Covers(bs, b) {
      var i :| 0 <= i < |bs| && Contains(bs[i], b);
      assert all[i + 1] == bs[i];
    }
    if Covers(all, b) {
      var i :| 0 <= i < |all| && Contains(all[i], b);
      assert i > 0 ==> all[i] == bs[i - 1];
    }
  }

  lemma CoversAppend(bs: seq<Block>, x: Block, b: Block)
    ensures Covers(bs + [x], b) <==> Contains(x, b) || Covers(bs, b)
  {
    var all := bs + [x];
    if Contains(x, b) {
      assert Contains(all[|bs|], b);
    }
    if Covers(bs, b) {
      var i :| 0 <= i < |bs| && Contains(bs[i], b);
      assert all[i] == bs[i];
    }
  }

  /** A block inside an exclusion holds nothing that is wanted. */
  lemma Skip(originals: seq<Block>, excluded: seq<Block>, done: seq<Block>, x: Block, rest: seq<Block>, e: nat)
    requires Excluding(originals, excluded, done, [x] + rest) && e < |excluded| && Contains(excluded[e], x)
    ensures Excluding(originals, excluded, done, rest)
  {
    forall b ensures Covers([x] + rest, b) <==> Contains(x, b) || Covers(rest, b) {
      CoversPush(x, rest, b);
    }
    forall b | Contains(x, b) ensures Contains(excluded[e], b) {
      ContainsTransitive(excluded[e], x, b);
    }
    if PairwiseDisjoint(originals) {
      Dropped(done, x, rest);
    }
  }

  lemma Dropped(done: seq<Block>, x: Block, rest: seq<Block>)
    requires PairwiseDisjoint(done + ([x] + rest)) && Ascending(done + ([x] + rest))
    ensures PairwiseDisjoint(done + rest) && Ascending(done + rest)
  {
    var before, after := done + ([x] + rest), done + rest;
    forall i | 0 <= i < |after| ensures after[i] == before[if i < |done| then i else i + 1] {
    }
  }

  /** A block apart from all exclusions is wanted as a whole. */
  lemma Keep(originals: seq<Block>, excluded: seq<Block>, done: seq<Block>, x: Block, rest: seq<Block>)
    requires Excluding(originals, excluded, done, [x] + rest) && Apart(excluded, x)
    ensures Excluding(originals, excluded, done + [x], rest)
  {
    forall b ensures Covers([x] + rest, b) <==> Contains(x, b) || Covers(rest, b)
             ensures Covers(done + [x], b) <==> Contains(x, b) || Covers(done, b)
    {
      CoversPush(x, rest, b);
      CoversAppend(done, x, b);
    }
    forall a | Contains(x, a) ensures !Covers(excluded, a) {
      forall i | 0 <= i < |excluded| ensures !Contains(excluded[i], a) {
        if Contains(excluded[i], a) {
          NestedOrDisjoint(excluded[i], x, a);
        }
      }
    }
    assert done + [x] + rest == done + ([x] + rest);
  }

  /** A block with an exclusion strictly inside it is wanted in halves. */
  lemma Divide(originals: seq<Block>, excluded: seq<Block>, done: seq<Block>, x: Block, rest: seq<Block>, e: nat)
    requires Excluding(originals, excluded, done, [x] + rest) && |x.bits| < 8 * x.size
    requires e < |excluded| && Contains(x, excluded[e])
    ensures Excluding(originals, excluded, done, [Half(x, false)] + ([Half(x, true)] + rest))
  {
    var l, h := Half(x, false), Half(x, true);
    forall b
      ensures Covers([x] + rest, b) <==> Contains(x, b) || Covers(rest, b)
      ensures Covers([l] + ([h] + rest), b) <==> Contains(l, b) || Contains(h, b) || Covers(rest, b)
      ensures Contains(x, b) && x != b <==> Contains(l, b) || Contains(h, b)
    {
      CoversPush(x, rest, b);
      CoversPush(h, rest, b);
      CoversPush(l, [h] + rest, b);
      Halves(x, b);
    }
    forall b | Apart(excluded, b) ensures b != x {
      assert Disjoint(excluded[e], b);
    }
    if PairwiseDisjoint(originals) {
      Halved(done, x, rest);
    }
  }

  /** A half takes the place of the whole. */
  lemma HalfInPlace(x: Block, bit: bool, y: Block)
    requires Disjoint(x, y)
    ensures Disjoint(Half(x, bit), y)
    ensures Precedes(x, y) ==> Precedes(Half(x, bit), y)
    ensures Precedes(y, x) ==> Precedes(y, Half(x, bit))
  {
    var h := Half(x, bit);
    Halves(x, y);
    Halves(x, h);
    if Contains(y, h) {
      NestedOrDisjoint(x, y, h);
    }
    PrefixBefore(x.bits, h.bits);
    if Precedes(y, x) {
      PrecedesTransitive(y, x, h);
    }
    if Precedes(x, y) {
      PrecedesTotal(h, y);
      if Precedes(y, h) {
        BetweenIsContained(x, y, h);
      }
    }
  }

  lemma Halved(done: seq<Block>, x: Block, rest: seq<Block>)
    requires PairwiseDisjoint(done + ([x] + rest)) && Ascending(done + ([x] + rest))
    ensures var halves := done + ([Half(x, false)] + ([Half(x, true)] + rest));
            PairwiseDisjoint(halves) && Ascending(halves)
  {
    var before := done + ([x] + rest);
    var after := done + ([Half(x, false)] + ([Half(x, true)] + rest));
    assert before[|done|] == x;
    forall i, j | 0 <= i < j < |after| ensures Disjoint(after[i], after[j]) && Precedes(after[i], after[j]) {
      HalvedPair(done, x, rest, i, j);
    }
  }

  lemma HalvedPair(done: seq<Block>, x: Block, rest: seq<Block>, i: nat, j: nat)
    requires PairwiseDisjoint(done + ([x] + rest)) && Ascending(done + ([x] + rest))
    requires i < j < |done| + 2 + |rest|
    ensures var after := done + ([Half(x, false)] + ([Half(x, true)] + rest));
            Disjoint(after[i], after[j]) && Precedes(after[i], after[j])
  {
    var n := |done|;
    var before := done + ([x] + rest);
    var i', j' := if i <= n then i else i - 1, if j <= n then j else j - 1;
    assert before[n] == x;
    if i' == j' {
      Halves(x, Half(x, true));
      Halves(x, Half(x, false));
      PartingDecides(Half(x, false).bits, Half(x, true).bits, |x.bits|);
    } else {
      assert Disjoint(before[i'], before[j']) && Precedes(before[i'], before[j']);
      if i' == n {
        HalfInPlace(x, i == n + 1, before[j']);
      } else if j' == n {
        HalfInPlace(x, j == n + 1, before[i']);
      }
    }
  }

  // Sorting

  /** In the order of `operator<`, equal ranges side by side. */
  ghost predicate Sorted(bs: seq<Block>) {
    forall i, j :: 0 <= i < j < |bs| ==> !Precedes(bs[j], bs[i])
  }

  lemma InsertedInPlace(bs: seq<Block>, k: nat, x: Block)
    requires Sorted(bs) && k <= |bs|
    requires forall i :: 0 <= i < k ==> !Precedes(x, bs[i])
    requires k < |bs| ==> Precedes(x, bs[k])
    ensures Sorted(bs[..k] + [x] + bs[k..])
  {
    var all := bs[..k] + [x] + bs[k..];
    forall j | k <= j < |bs| ensures !Precedes(bs[j], x) {
      if Precedes(bs[j], x) {
        PrecedesTransitive(bs[j], x, bs[k]);
        if j == k {
          PrecedesStrict(bs[k], bs[k]);
        }
      }
    }
    forall i, j | 0 <= i < j < |all| ensures !Precedes(all[j], all[i]) {
      assert all[i] == if i < k then bs[i] else if i == k then x else bs[i - 1];
      assert all[j] == if j < k then bs[j] else if j == k then x else bs[j - 1];
    }
  }

  lemma ViewsInserted(rs: seq<CidrRange>, k: nat, x: CidrRange)
    requires AllValid(rs) && x.Valid() && k <= |rs|
    ensures AllValid(rs[..k] + [x] + rs[k..])
    ensures Views(rs[..k] + [x] + rs[k..]) == Views(rs)[..k] + [x.View()] + Views(rs)[k..]
    ensures multiset(rs[..k] + [x] + rs[k..]) == multiset(rs) + multiset{x}
  {
    assert rs == rs[..k] + rs[k..];
  }

  method SortIn(sorted: seq<CidrRange>, x: CidrRange) returns (more: seq<CidrRange>)
    requires AllValid(sorted) && x.Valid() && Sorted(Views(sorted))
    ensures AllValid(more) && multiset(more) == multiset(sorted) + multiset{x} && Sorted(Views(more))
  {
    var k := InsertionPoint(sorted, x);
    InsertedInPlace(Views(sorted), k, x.View());
    ViewsInserted(sorted, k, x);
    more := sorted[..k] + [x] + sorted[k..];
  }

  /** `stack.sort()`: by insertion. */
  method Sort(rs: seq<CidrRange>) returns (sorted: seq<CidrRange>)
    requires AllValid(rs)
    ensures AllValid(sorted) && multiset(sorted) == multiset(rs) && Sorted(Views(sorted))
  {
    sorted := [];
    for n := 0 to |rs|
      invariant AllValid(sorted) && multiset(sorted) == multiset(rs[..n]) && Sorted(Views(sorted))
    {
      sorted := SortIn(sorted, rs[n]);
      assert rs[..n + 1] == rs[..n] + [rs[n]];
    }
    assert rs[..|rs|] == rs;
  }

  method InsertionPoint(sorted: seq<CidrRange>, x: CidrRange) returns (k: nat)
    requires AllValid(sorted) && x.Valid()
    ensures k <= |sorted| && (forall i :: 0 <= i < k ==> !Precedes(x.View(), Views(sorted)[i]))
    ensures k < |sorted| ==> Precedes(x.View(), Views(sorted)[k])
  {
    k := 0;
    while k < |sorted|
      invariant k <= |sorted| && forall i :: 0 <= i < k ==> !Precedes(x.View(), Views(sorted)[i])
    {
      var less := LessThan(x, sorted[k]);
      if less {
        return;
      }
      k := k + 1;
    }
  }

  /** A permutation covers the same and keeps blocks apart. */
  lemma Permuted(rs: seq<CidrRange>, sorted: seq<CidrRange>)
    requires AllValid(rs) && AllValid(sorted) && multiset(sorted) == multiset(rs)
    ensures forall b :: Covers(Views(sorted), b) <==> Covers(Views(rs), b)
    ensures PairwiseDisjoint(Views(rs)) ==> PairwiseDisjoint(Views(sorted))
  {
    forall b ensures Covers(Views(sorted), b) <==> Covers(Views(rs), b) {
      PermutedCovers(rs, sorted, b);
      PermutedCovers(sorted, rs, b);
    }
    if PairwiseDisjoint(Views(rs)) {
      forall i, j | 0 <= i < j < |sorted| ensures Disjoint(sorted[i].View(), sorted[j].View()) {
        var k, l := TwoPlaces(sorted, rs, i, j);
        assert if k < l then Disjoint(Views(rs)[k], Views(rs)[l]) else Disjoint(Views(rs)[l], Views(rs)[k]);
      }
    }
  }

  lemma PermutedCovers(rs: seq<CidrRange>, ss: seq<CidrRange>, b: Block)
    requires AllValid(rs) && AllValid(ss) && multiset(ss) == multiset(rs)
    ensures Covers(Views(rs), b) ==> Covers(Views(ss), b)
  {
    if Covers(Views(rs), b) {
      var i :| 0 <= i < |rs| && Contains(Views(rs)[i], b);
      assert rs[i] in multiset(rs) && rs[i] in multiset(ss);
      var j :| 0 <= j < |ss| && ss[j] == rs[i];
      assert Contains(Views(ss)[j], b);
    }
  }

  lemma Without<T>(s: seq<T>, i: nat)
    requires i < |s|
    ensures multiset(s[..i] + s[i + 1..]) == multiset(s) - multiset{s[i]}
  {
    assert s == s[..i] + [s[i]] + s[i + 1..];
  }

  /** Two places of one sequence are two places of its permutation. */
  lemma TwoPlaces<T>(a: seq<T>, b: seq<T>, i: nat, j: nat) returns (k: nat, l: nat)
    requires multiset(a) == multiset(b) && i < j < |a|
    ensures k < |b| && l < |b| && k != l && a[i] == b[k] && a[j] == b[l]
  {
    assert a[i] in multiset(b);
    k :| 0 <= k < |b| && b[k] == a[i];
    Without(a, i);
    Without(b, k);
    var a', b' := a[..i] + a[i + 1..], b[..k] + b[k + 1..];
    assert a'[j - 1] == a[j];
    assert a[j] in multiset(a');
    assert a[j] in multiset(b');
    var m :| 0 <= m < |b'| && b'[m] == a[j];
    l := if m < k then m else m + 1;
  }

  // The algorithm

  /** Compares a range with the exclusions in turn, up to the first that is nested with it. */
  method Classify(range: CidrRange, excluded: seq<CidrRange>) returns (skip: bool, split: bool, ghost e: nat)
    requires range.Valid() && AllValid(excluded)
    ensures !(skip && split)
    ensures skip ==> e < |excluded| && Contains(Views(excluded)[e], range.View())
    ensures split ==> e < |excluded| && Contains(range.View(), Views(excluded)[e]) && range.View() != Views(excluded)[e]
    ensures !skip && !split ==> Apart(Views(excluded), range.View())
  {
    skip, split, e := false, false, 0;
    for i := 0 to |excluded|
      invariant !skip && !split
      invariant forall j :: 0 <= j < i ==> Disjoint(Views(excluded)[j], range.View())
    {
      skip := ContainsRange(excluded[i], range);
      if skip {
        e := i;
        return;
      }
      split := ContainsRange(range, excluded[i]);
      if split {
        e := i;
        return;
      }
    }
  }

  /** Bounds how many ranges a block can still give rise to. */
  ghost function Weight(n: nat): nat {
    if n == 0 then 1 else 2 * Weight(n - 1) + 1
  }

  ghost function Weights(bs: seq<Block>): nat {
    if bs == [] then 0
    else Weight(if |bs[0].bits| <= 8 * bs[0].size then 8 * bs[0].size - |bs[0].bits| else 0) + Weights(bs[1..])
  }

  lemma WeightsPush(x: Block, bs: seq<Block>)
    requires |x.bits| <= 8 * x.size
    ensures Weights([x] + bs) == Weight(8 * x.size - |x.bits|) + Weights(bs) > Weights(bs)
  {
    assert ([x] + bs)[1..] == bs;
  }

  lemma WeightsHalved(x: Block, rest: seq<Block>)
    requires |x.bits| < 8 * x.size
    ensures Weights([Half(x, false)] + ([Half(x, true)] + rest)) < Weights([x] + rest)
  {
    WeightsPush(x, rest);
    WeightsPush(Half(x, true), rest);
    WeightsPush(Half(x, false), [Half(x, true)] + rest);
  }

  lemma ViewsPush(x: CidrRange, rs: seq<CidrRange>)
    requires x.Valid() && AllValid(rs)
    ensures AllValid([x] + rs) && Views([x] + rs) == [x.View()] + Views(rs)
    ensures AllValid(rs + [x]) && Views(rs + [x]) == Views(rs) + [x.View()]
  {
  }

  lemma StartExcluding(originals: seq<CidrRange>, excluded: seq<Block>, stack: seq<CidrRange>)
    requires AllValid(originals) && AllValid(stack) && multiset(stack) == multiset(originals) && Sorted(Views(stack))
    ensures Excluding(Views(originals), excluded, [], Views(stack))
  {
    Permuted(originals, stack);
    assert [] + Views(stack) == Views(stack);
    if PairwiseDisjoint(Views(originals)) {
      forall i, j | 0 <= i < j < |stack| ensures Precedes(Views(stack)[i], Views(stack)[j]) {
        PrecedesTotal(Views(stack)[i], Views(stack)[j]);
      }
    }
  }

  lemma FinishExcluding(originals: seq<Block>, excluded: seq<Block>, done: seq<Block>)
    requires Excluding(originals, excluded, done, [])
    ensures Difference(originals, excluded, done) && Coarsest(originals, excluded, done)
    ensures PairwiseDisjoint(originals) ==> PairwiseDisjoint(done) && Ascending(done)
  {
    assert done + [] == done;
  }

  /** One round of the loop: the first range of the stack is dropped, split or kept. */
  method ExcludeNext(ghost os: seq<Block>, excluded: seq<CidrRange>, done0: seq<CidrRange>, range: CidrRange, rest: seq<CidrRange>)
      returns (done: seq<CidrRange>, stack: seq<CidrRange>)
    requires AllValid(excluded) && AllValid(done0) && range.Valid() && AllValid(rest)
    requires Excluding(os, Views(excluded), Views(done0), [range.View()] + Views(rest))
    ensures AllValid(done) && AllValid(stack) && Excluding(os, Views(excluded), Views(done), Views(stack))
    ensures Weights(Views(stack)) < Weights([range.View()] + Views(rest))
  {
    ghost var es := Views(excluded);
    done, stack := done0, rest;
    WeightsPush(range.View(), Views(rest));
    var skip, split, e := Classify(range, excluded);
    if skip {
      Skip(os, es, Views(done), range.View(), Views(rest), e);
    } else if split {
      InnerIsLonger(range, excluded[e]);
      var halves := Split(range);
      Divide(os, es, Views(done), range.View(), Views(rest), e);
      WeightsHalved(range.View(), Views(rest));
      ViewsPush(halves.value.1, rest);
      ViewsPush(halves.value.0, [halves.value.1] + rest);
      stack := [halves.value.0] + ([halves.value.1] + rest);
    } else {
      Keep(os, es, Views(done), range.View(), Views(rest));
      ViewsPush(range, done);
      done := done + [range];
    }
  }

  /** `exclude`: ranges for the addresses of the originals that lie in no exclusion. */
  method Exclude(originals: seq<CidrRange>, excluded: seq<CidrRange>) returns (done: seq<CidrRange>)
    requires AllValid(originals) && AllValid(excluded)
    ensures AllValid(done)
    ensures Difference(Views(originals), Views(excluded), Views(done))
    ensures Coarsest(Views(originals), Views(excluded), Views(done))
    ensures PairwiseDisjoint(Views(originals)) ==> PairwiseDisjoint(Views(done)) && Ascending(Views(done))
  {
    done := [];
    var stack := Sort(originals);
    ghost var os := Views(originals);
    StartExcluding(originals, Views(excluded), stack);
    while stack != []
      invariant AllValid(done) && AllValid(stack) && Excluding(os, Views(excluded), Views(done), Views(stack))
      decreases Weights(Views(stack))
    {
      var range, rest := stack[0], stack[1..];
      ViewsPush(range, rest);
      assert stack == [range] + rest;
      done, stack := ExcludeNext(os, excluded, done, range, rest);
    }
    FinishExcluding(os, Views(excluded), Views(done));
  }

  /** A range that strictly contains another can be split. */
  lemma InnerIsLonger(a: CidrRange, b: CidrRange)
    requires a.Valid() && b.Valid() && Contains(a.View(), b.View()) && a.View() != b.View()
    ensures a.prefixLen < 8 * |a.address|
  {
  }
}
