/** `CidrRangeSet` of cidr_range.h: an ordered container whose comparator is no order on ranges at
    large, and why its searches are right all the same. */
module CidrRangeSets {
  import opened CidrBlocks
  import opened CidrRanges
  import opened CidrExclude

  /** `ModifiedLess`. */
  predicate Less(x: Block, y: Block) {
    Precedes(x, y) && !Contains(x, y)
  }

  /** Ranges that the set may hold: none nested in another, in the order of `operator<`. */
  ghost predicate Antichain(bs: seq<Block>) {
    PairwiseDisjoint(bs) && Ascending(bs)
  }

  /** On ranges at large the comparator is not a strict weak order: being equivalent is not
      transitive. */
  lemma NotAWeakOrder()
    ensures var whole, left, right := Block(4, []), Block(4, [false]), Block(4, [true]);
            && !Less(whole, left) && !Less(left, whole)
            && !Less(whole, right) && !Less(right, whole)
            && Less(left, right)
  {
    var whole, left, right := Block(4, []), Block(4, [false]), Block(4, [true]);
    assert Before(left.bits, right.bits);
  }

  /** On an antichain it is `operator<`, a strict total order. */
  lemma LessOnAntichain(bs: seq<Block>, i: nat, j: nat)
    requires Antichain(bs) && i < |bs| && j < |bs|
    ensures Less(bs[i], bs[j]) <==> i < j
  {
    if i < j {
      assert Disjoint(bs[i], bs[j]);
    } else if i > j {
      assert Disjoint(bs[j], bs[i]) && Precedes(bs[j], bs[i]);
      PrecedesStrict(bs[j], bs[i]);
    }
  }

  /** The elements less than a probe come first. */
  lemma LessIsPrefix(bs: seq<Block>, x: Block, i: nat, j: nat)
    requires Antichain(bs) && i < j < |bs| && Less(bs[j], x)
    ensures Less(bs[i], x)
  {
    PrecedesTransitive(bs[i], bs[j], x);
    assert Disjoint(bs[i], bs[j]);
    if Contains(bs[i], x) {
      BetweenIsContained(bs[i], bs[j], x);
    }
  }

  /** And those that the probe is less than come last. */
  lemma GreaterIsSuffix(bs: seq<Block>, x: Block, i: nat, j: nat)
    requires Antichain(bs) && i < j < |bs| && Less(x, bs[i])
    ensures Less(x, bs[j])
  {
    PrecedesTransitive(x, bs[i], bs[j]);
    if Contains(x, bs[j]) {
      BetweenIsContained(x, bs[i], bs[j]);
    }
  }

  /** What is neither is nested with the probe, and conversely. */
  lemma EquivalentIsNested(y: Block, x: Block)
    ensures !Less(y, x) && !Less(x, y) <==> !Disjoint(y, x)
  {
    PrecedesTotal(y, x);
    if Contains(y, x) {
      ContainerFirst(y, x);
    }
    if Contains(x, y) {
      ContainerFirst(x, y);
    }
  }

  /** The places `lo` to `hi` hold the elements equivalent to the probe. */
  ghost predicate EqualRange(bs: seq<Block>, x: Block, lo: nat, hi: nat) {
    && lo <= hi <= |bs|
    && (forall i :: 0 <= i < lo ==> Less(bs[i], x))
    && (forall i :: lo <= i < hi ==> !Disjoint(bs[i], x))
    && (forall i :: hi <= i < |bs| ==> Less(x, bs[i]))
  }

  /** `less` as the container calls it. */
  method ModifiedLess(lhs: CidrRange, rhs: CidrRange) returns (r: bool)
    requires lhs.Valid() && rhs.Valid()
    ensures r <==> Less(lhs.View(), rhs.View())
  {
    r := LessThan(lhs, rhs);
    if r {
      var inside := ContainsRange(lhs, rhs);
      r := !inside;
    }
  }

  /** The first place whose element is not less than the probe, found by comparing with any
      element in between, as a search tree of any shape may. */
  method LowerBound(stored: seq<CidrRange>, x: CidrRange) returns (lo: nat)
    requires AllValid(stored) && x.Valid() && Antichain(Views(stored))
    ensures lo <= |stored|
    ensures forall i :: 0 <= i < |stored| ==> (Less(Views(stored)[i], x.View()) <==> i < lo)
  {
    ghost var bs := Views(stored);
    lo := 0;
    var hi := |stored|;
    while lo < hi
      invariant lo <= hi <= |stored|
      invariant forall i :: 0 <= i < lo ==> Less(bs[i], x.View())
      invariant forall i :: hi <= i < |stored| ==> !Less(bs[i], x.View())
      decreases hi - lo
    {
      var mid: nat :| lo <= mid < hi;
      var less := ModifiedLess(stored[mid], x);
      if less {
        forall i | 0 <= i < mid ensures Less(bs[i], x.View()) {
          LessIsPrefix(bs, x.View(), i, mid);
        }
        lo := mid + 1;
      } else {
        forall i | mid < i < |stored| ensures !Less(bs[i], x.View()) {
          if Less(bs[i], x.View()) {
            LessIsPrefix(bs, x.View(), mid, i);
          }
        }
        hi := mid;
      }
    }
  }

  /** The first place whose element the probe is less than. */
  method UpperBound(stored: seq<CidrRange>, x: CidrRange) returns (hi: nat)
    requires AllValid(stored) && x.Valid() && Antichain(Views(stored))
    ensures hi <= |stored|
    ensures forall i :: 0 <= i < |stored| ==> (Less(x.View(), Views(stored)[i]) <==> hi <= i)
  {
    ghost var bs := Views(stored);
    var lo := 0;
    hi := |stored|;
    while lo < hi
      invariant lo <= hi <= |stored|
      invariant forall i :: 0 <= i < lo ==> !Less(x.View(), bs[i])
      invariant forall i :: hi <= i < |stored| ==> Less(x.View(), bs[i])
      decreases hi - lo
    {
      var mid: nat :| lo <= mid < hi;
      var less := ModifiedLess(x, stored[mid]);
      if less {
        forall i | mid < i < |stored| ensures Less(x.View(), bs[i]) {
          GreaterIsSuffix(bs, x.View(), mid, i);
        }
        hi := mid;
      } else {
        forall i | 0 <= i < mid ensures !Less(x.View(), bs[i]) {
          if Less(x.View(), bs[i]) {
            GreaterIsSuffix(bs, x.View(), i, mid);
          }
        }
        lo := mid + 1;
      }
    }
  }

  /** `equal_range`. */
  method FindEqualRange(stored: seq<CidrRange>, x: CidrRange) returns (lo: nat, hi: nat)
    requires AllValid(stored) && x.Valid() && Antichain(Views(stored))
    ensures EqualRange(Views(stored), x.View(), lo, hi)
  {
    lo := LowerBound(stored, x);
    hi := UpperBound(stored, x);
    ghost var bs := Views(stored);
    if hi < lo {
      assert Less(bs[hi], x.View()) && Less(x.View(), bs[hi]);
      PrecedesStrict(bs[hi], x.View());
    }
    forall i | lo <= i < hi ensures !Disjoint(bs[i], x.View()) {
      EquivalentIsNested(bs[i], x.View());
    }
  }

  // Insertion

  /** The set while the elements inside the probe are taken out: `n` of them are gone from `lo` on. */
  ghost predicate Erased(before: seq<CidrRange>, x: Block, lo: nat, n: nat, now: seq<CidrRange>)
    requires AllValid(before)
  {
    && lo + n <= |before| && now == before[..lo] + before[lo + n..]
    && forall i :: lo <= i < lo + n ==> Contains(x, Views(before)[i])
  }

  lemma OneMoreErased(before: seq<CidrRange>, x: Block, lo: nat, n: nat, now: seq<CidrRange>)
    requires AllValid(before) && Erased(before, x, lo, n, now) && lo < |now| && Contains(x, Views(before)[lo + n])
    ensures Erased(before, x, lo, n + 1, now[..lo] + now[lo + 1..])
  {
    assert now[lo + 1..] == before[lo + n + 1..];
  }

  /** An element that is not inside the probe is around it, and leaves no room for one inside it. */
  lemma NoneErased(before: seq<CidrRange>, x: Block, lo: nat, hi: nat, n: nat, now: seq<CidrRange>)
    requires AllValid(before) && Antichain(Views(before)) && EqualRange(Views(before), x, lo, hi)
    requires Erased(before, x, lo, n, now) && lo + n < hi && !Contains(x, Views(before)[lo + n])
    ensures now == before && Contains(Views(before)[lo], x) && !Contains(x, Views(before)[lo])
  {
    var bs := Views(before);
    assert Contains(bs[lo + n], x);
    assert n > 0 ==> Disjoint(bs[lo], bs[lo + n]);
    if n > 0 {
      ContainsTransitive(bs[lo + n], x, bs[lo]);
    }
    assert before[..lo] + before[lo..] == before;
  }

  /** With the elements inside it gone, the probe fits in between. */
  lemma FitsBetween(bs: seq<Block>, x: Block, lo: nat, hi: nat)
    requires Antichain(bs) && EqualRange(bs, x, lo, hi)
    ensures Antichain(bs[..lo] + [x] + bs[hi..])
  {
    var cs := bs[..lo] + [x] + bs[hi..];
    forall i | 0 <= i < |bs| && !(lo <= i < hi) ensures Disjoint(bs[i], x) {
      EquivalentIsNested(bs[i], x);
    }
    forall i, j | 0 <= i < j < |cs| ensures Disjoint(cs[i], cs[j]) && Precedes(cs[i], cs[j]) {
      var i' := if i <= lo then i else i - lo - 1 + hi;
      var j' := if j <= lo then j else j - lo - 1 + hi;
      assert i != lo ==> cs[i] == bs[i'];
      assert j != lo ==> cs[j] == bs[j'];
    }
  }

  lemma BetweenHolds(bs: seq<Block>, x: Block, lo: nat, hi: nat, b: Block)
    requires EqualRange(bs, x, lo, hi) && forall i :: lo <= i < hi ==> Contains(x, bs[i])
    ensures b in bs[..lo] + [x] + bs[hi..] <==> b == x || (b in bs && !Contains(x, b))
  {
    forall i | 0 <= i < |bs| && !(lo <= i < hi) ensures Disjoint(bs[i], x) {
      EquivalentIsNested(bs[i], x);
    }
    if b in bs && !Contains(x, b) {
      var i :| 0 <= i < |bs| && bs[i] == b;
      assert if i < lo then b in bs[..lo] else bs[hi..][i - hi] == b;
    }
  }

  lemma Inserted(before: seq<CidrRange>, x: CidrRange, lo: nat, hi: nat)
    requires AllValid(before) && x.Valid() && Antichain(Views(before)) && EqualRange(Views(before), x.View(), lo, hi)
    requires forall i :: lo <= i < hi ==> Contains(x.View(), Views(before)[i])
    ensures var now := before[..lo] + [x] + before[hi..];
            && AllValid(now) && Antichain(Views(now))
            && (forall b :: b in Views(now) <==> b == x.View() || (b in Views(before) && !Contains(x.View(), b)))
  {
    var now := before[..lo] + [x] + before[hi..];
    var cs := Views(before)[..lo] + [x.View()] + Views(before)[hi..];
    assert AllValid(now) && Views(now) == cs;
    FitsBetween(Views(before), x.View(), lo, hi);
    forall b ensures b in cs <==> b == x.View() || (b in Views(before) && !Contains(x.View(), b)) {
      BetweenHolds(Views(before), x.View(), lo, hi, b);
    }
  }

  /** What the set covers is what has been inserted. */
  ghost predicate CoversHistory(bs: seq<Block>, inserted: set<Block>) {
    forall b :: Covers(bs, b) <==> exists h :: h in inserted && Contains(h, b)
  }

  lemma HistoryKept(bs: seq<Block>, cs: seq<Block>, inserted: set<Block>, x: Block)
    requires CoversHistory(bs, inserted)
    requires forall b :: b in cs <==> b == x || (b in bs && !Contains(x, b))
    ensures CoversHistory(cs, inserted + {x})
  {
    forall b ensures Covers(cs, b) <==> exists h :: h in inserted + {x} && Contains(h, b) {
      if Covers(cs, b) {
        var i :| 0 <= i < |cs| && Contains(cs[i], b);
        assert cs[i] in cs;
        if cs[i] == x {
          assert x in inserted + {x};
        } else {
          var j :| 0 <= j < |bs| && bs[j] == cs[i];
          assert Covers(bs, b);
          var h :| h in inserted && Contains(h, b);
          assert h in inserted + {x};
        }
      }
      if h :| h in inserted + {x} && Contains(h, b) {
        if h == x {
          InList(cs, x, b);
        } else {
          assert Covers(bs, b);
          var i :| 0 <= i < |bs| && Contains(bs[i], b);
          if Contains(x, bs[i]) {
            ContainsTransitive(x, bs[i], b);
            InList(cs, x, b);
          } else {
            assert bs[i] in bs;
            InList(cs, bs[i], b);
          }
        }
      }
    }
  }

  lemma InList(bs: seq<Block>, x: Block, b: Block)
    requires x in bs && Contains(x, b)
    ensures Covers(bs, b)
  {
    var i :| 0 <= i < |bs| && bs[i] == x;
    assert Contains(bs[i], b);
  }

  /** A probe that some element holds adds nothing. */
  lemma HistoryUnchanged(bs: seq<Block>, inserted: set<Block>, x: Block, i: nat)
    requires CoversHistory(bs, inserted) && i < |bs| && Contains(bs[i], x)
    ensures CoversHistory(bs, inserted + {x})
  {
    forall b ensures Covers(bs, b) <==> exists h :: h in inserted + {x} && Contains(h, b) {
      if Covers(bs, b) {
        var h :| h in inserted && Contains(h, b);
        assert h in inserted + {x};
      }
      if h :| h in inserted + {x} && Contains(h, b) {
        if h == x {
          ContainsTransitive(bs[i], x, b);
        } else {
          assert h in inserted;
        }
      }
    }
  }

  class CidrRangeSet {
    var ranges: seq<CidrRange>
    /** All ranges inserted since the last clear. */
    ghost var inserted: set<Block>

    ghost predicate Valid()
      reads this
    {
      AllValid(ranges) && Antichain(Views(ranges)) && CoversHistory(Views(ranges), inserted)
    }

    constructor ()
      ensures Valid() && ranges == [] && inserted == {}
    {
      ranges := [];
      inserted := {};
    }

    /** Takes out the elements inside `range`; true if none is left that is nested with it. Every
        round takes one out or ends the loop. */
    method EraseInside(range: CidrRange, lo: nat, hi: nat) returns (ok: bool)
      requires Valid() && range.Valid() && EqualRange(Views(ranges), range.View(), lo, hi)
      modifies this`ranges
      ensures !ok ==> ranges == old(ranges) && lo < hi && Contains(Views(ranges)[lo], range.View()) &&
                      !Contains(range.View(), Views(ranges)[lo])
      ensures ok ==> Erased(old(ranges), range.View(), lo, hi - lo, ranges)
    {
      ghost var before := ranges;
      ghost var n := 0;
      var end := hi;
      assert ranges == before[..lo] + before[lo..];
      while lo < end
        invariant lo <= end && end + n == hi && Erased(before, range.View(), lo, n, ranges)
        decreases end - lo
      {
        assert ranges[lo] == before[lo + n];
        var inside := ContainsRange(range, ranges[lo]);
        if !inside {
          NoneErased(before, range.View(), lo, hi, n, ranges);
          // An element nested neither way would keep the loop going for ever; there is none.
          var around := ContainsRange(ranges[lo], range);
          assert around;
          return false;
        }
        OneMoreErased(before, range.View(), lo, n, ranges);
        ranges := ranges[..lo] + ranges[lo + 1..];
        end, n := end - 1, n + 1;
      }
      ok := true;
    }

    /** Inserts a range unless one strictly around it is there. */
    method Insert(range: CidrRange) returns (ok: bool)
      requires Valid() && range.Valid()
      modifies this
      ensures Valid() && inserted == old(inserted) + {range.View()}
      ensures ok <==> !exists i :: 0 <= i < |old(ranges)| && Contains(old(Views(ranges))[i], range.View()) &&
                                   old(Views(ranges))[i] != range.View()
      ensures !ok ==> ranges == old(ranges)
      ensures ok ==> forall b :: b in Views(ranges) <==>
                       b == range.View() || (b in old(Views(ranges)) && !Contains(range.View(), b))
    {
      ghost var before := ranges;
      var lo, hi := FindEqualRange(ranges, range);
      ok := EraseInside(range, lo, hi);
      if ok {
        Inserted(before, range, lo, hi);
        ranges := ranges[..lo] + [range] + ranges[lo..];
        assert ranges == before[..lo] + [range] + before[hi..];
        HistoryKept(Views(before), Views(ranges), inserted, range.View());
        NoneAround(before, range.View(), lo, hi);
      } else {
        HistoryUnchanged(Views(ranges), inserted, range.View(), lo);
      }
      inserted := inserted + {range.View()};
    }

    /** Whether any range inserted since the last clear contains `range`. */
    method Includes(range: CidrRange) returns (r: bool)
      requires Valid() && range.Valid()
      ensures r <==> exists h :: h in inserted && Contains(h, range.View())
    {
      var lo, hi := FindEqualRange(ranges, range);
      r := false;
      for i := lo to hi
        invariant !r && forall j :: lo <= j < i ==> !Contains(Views(ranges)[j], range.View())
      {
        r := ContainsRange(ranges[i], range);
        if r {
          assert Covers(Views(ranges), range.View());
          return;
        }
      }
      OnlyInRange(Views(ranges), range.View(), lo, hi);
    }

    method Clear()
      modifies this
      ensures Valid() && ranges == [] && inserted == {}
    {
      ranges := [];
      inserted := {};
    }
  }

  lemma NoneAround(before: seq<CidrRange>, x: Block, lo: nat, hi: nat)
    requires AllValid(before) && EqualRange(Views(before), x, lo, hi)
    requires forall i :: lo <= i < hi ==> Contains(x, Views(before)[i])
    ensures forall i :: 0 <= i < |before| && Contains(Views(before)[i], x) ==> Views(before)[i] == x
  {
    forall i | 0 <= i < |before| && Contains(Views(before)[i], x) ensures Views(before)[i] == x {
      EquivalentIsNested(Views(before)[i], x);
    }
  }

  lemma OnlyInRange(bs: seq<Block>, x: Block, lo: nat, hi: nat)
    requires EqualRange(bs, x, lo, hi) && forall j :: lo <= j < hi ==> !Contains(bs[j], x)
    ensures !Covers(bs, x)
  {
    forall i | 0 <= i < |bs| ensures !Contains(bs[i], x) {
      EquivalentIsNested(bs[i], x);
    }
  }
}
