/** CIDR blocks as bit prefixes: a block of an address family holds the addresses that start with
    its bits. Section 3.1 of RFC 4632 writes the same as address and prefix length. */
module CidrBlocks {
  import opened Common

  /** `size` is the number of address bytes of the family. */
  datatype Block = Block(size: nat, bits: seq<bool>)

  ghost predicate IsAddress(a: Block) {
    |a.bits| == 8 * a.size
  }

  predicate Contains(x: Block, y: Block) {
    x.size == y.size && x.bits <= y.bits
  }

  /** No address lies in both. */
  ghost predicate Disjoint(x: Block, y: Block) {
    !Contains(x, y) && !Contains(y, x)
  }

  // What the two relations mean, as sets of addresses

  /** Some address of a block. */
  ghost function Filled(x: Block, fill: bool): (a: Block)
    requires |x.bits| <= 8 * x.size
    ensures IsAddress(a) && Contains(x, a) && forall i :: |x.bits| <= i < |a.bits| ==> a.bits[i] == fill
  {
    Block(x.size, x.bits + seq(8 * x.size - |x.bits|, _ => fill))
  }

  lemma ContainsMeans(x: Block, y: Block)
    requires |x.bits| <= 8 * x.size && |y.bits| <= 8 * y.size
    ensures Contains(x, y) <==> forall a :: IsAddress(a) && Contains(y, a) ==> Contains(x, a)
  {
    if !Contains(x, y) {
      var n := |y.bits|;
      var a := Filled(y, if n < |x.bits| then !x.bits[n] else false);
      assert a.bits[..n] == y.bits;
      assert !Contains(x, a);
    }
  }

  lemma DisjointMeans(x: Block, y: Block)
    requires |x.bits| <= 8 * x.size && |y.bits| <= 8 * y.size
    ensures Disjoint(x, y) <==> forall a :: IsAddress(a) ==> !(Contains(x, a) && Contains(y, a))
  {
    assert Contains(x, y) ==> Contains(x, Filled(y, false));
    assert Contains(y, x) ==> Contains(y, Filled(x, false));
  }

  /** Lexicographic order of bit strings, a prefix before its extensions. */
  predicate Before(p: seq<bool>, q: seq<bool>) {
    if q == [] then false
    else if p == [] then true
    else if p[0] != q[0] then q[0]
    else Before(p[1..], q[1..])
  }

  predicate Precedes(x: Block, y: Block) {
    x.size < y.size || (x.size == y.size && Before(x.bits, y.bits))
  }

  // The order

  lemma {:induction false} BeforeTotal(p: seq<bool>, q: seq<bool>)
    ensures p == q || Before(p, q) || Before(q, p)
  {
    if p != [] && q != [] && p[0] == q[0] {
      BeforeTotal(p[1..], q[1..]);
      assert p == [p[0]] + p[1..] && q == [q[0]] + q[1..];
    }
  }

  lemma {:induction false} BeforeAsymmetric(p: seq<bool>, q: seq<bool>)
    requires Before(p, q)
    ensures !Before(q, p) && p != q
  {
    if p != [] && p[0] == q[0] {
      BeforeAsymmetric(p[1..], q[1..]);
    }
  }

  lemma {:induction false} BeforeTransitive(p: seq<bool>, q: seq<bool>, r: seq<bool>)
    requires Before(p, q) && Before(q, r)
    ensures Before(p, r)
  {
    if p != [] && p[0] == q[0] == r[0] {
      BeforeTransitive(p[1..], q[1..], r[1..]);
    }
  }

  /** A prefix comes before its extensions. */
  lemma {:induction false} PrefixBefore(p: seq<bool>, q: seq<bool>)
    requires p < q
    ensures Before(p, q)
  {
    if p != [] {
      PrefixBefore(p[1..], q[1..]);
    }
  }

  /** The first place where two bit strings part decides. */
  lemma {:induction false} PartingDecides(p: seq<bool>, q: seq<bool>, n: nat)
    requires n < |p| && n < |q| && p[..n] == q[..n] && p[n] != q[n]
    ensures Before(p, q) <==> q[n]
    decreases n
  {
    if n > 0 {
      assert p[0] == p[..n][0] == q[..n][0] == q[0];
      assert p[1..][..n - 1] == p[..n][1..] && q[1..][..n - 1] == q[..n][1..];
      PartingDecides(p[1..], q[1..], n - 1);
    }
  }

  /** The extensions of a prefix are consecutive. */
  lemma {:induction false} Convex(p: seq<bool>, q: seq<bool>, r: seq<bool>)
    requires Before(p, q) && Before(q, r) && p <= r
    ensures p <= q
  {
    if p != [] {
      Convex(p[1..], q[1..], r[1..]);
    }
  }

  lemma PrecedesTotal(x: Block, y: Block)
    ensures x == y || Precedes(x, y) || Precedes(y, x)
  {
    BeforeTotal(x.bits, y.bits);
  }

  lemma PrecedesStrict(x: Block, y: Block)
    requires Precedes(x, y)
    ensures !Precedes(y, x) && x != y && !Precedes(x, x)
  {
    if x.size == y.size {
      BeforeAsymmetric(x.bits, y.bits);
    }
    if Precedes(x, x) {
      BeforeAsymmetric(x.bits, x.bits);
    }
  }

  lemma PrecedesTransitive(x: Block, y: Block, z: Block)
    requires Precedes(x, y) && Precedes(y, z)
    ensures Precedes(x, z)
  {
    if x.size == y.size == z.size {
      BeforeTransitive(x.bits, y.bits, z.bits);
    }
  }

  /** A block never comes after one that it contains. */
  lemma ContainerFirst(x: Block, y: Block)
    requires Contains(x, y)
    ensures !Precedes(y, x)
  {
    if x != y {
      PrefixBefore(x.bits, y.bits);
      BeforeAsymmetric(x.bits, y.bits);
    } else if Before(x.bits, x.bits) {
      BeforeAsymmetric(x.bits, x.bits);
    }
  }

  lemma BetweenIsContained(x: Block, y: Block, z: Block)
    requires Precedes(x, y) && Precedes(y, z) && Contains(x, z)
    ensures Contains(x, y)
  {
    Convex(x.bits, y.bits, z.bits);
  }

  /** The number that `n` bits spell when they begin with `p` and go on with zeros. */
  ghost function Number(p: seq<bool>, n: nat): (x: nat)
    requires |p| <= n
    ensures x < Power2(n)
  {
    if p == [] then 0 else (if p[0] then Power2(n - 1) else 0) + Number(p[1..], n - 1)
  }

  lemma {:induction false} BeforeByNumber(p: seq<bool>, q: seq<bool>, n: nat)
    requires |p| <= n && |q| <= n
    ensures Before(p, q) <==> Number(p, n) < Number(q, n) || (Number(p, n) == Number(q, n) && |p| < |q|)
    decreases n
  {
    if p != [] && q != [] {
      BeforeByNumber(p[1..], q[1..], n - 1);
    }
  }

  /** Within a family: the lower first address comes first and, of two ranges with the same one, the larger. */
  lemma PrecedesByAddress(x: Block, y: Block)
    requires x.size == y.size && |x.bits| <= 8 * x.size && |y.bits| <= 8 * y.size
    ensures var a, b := Number(x.bits, 8 * x.size), Number(y.bits, 8 * y.size);
            Precedes(x, y) <==> a < b || (a == b && |x.bits| < |y.bits|)
  {
    BeforeByNumber(x.bits, y.bits, 8 * x.size);
  }

  // Containment

  /** Blocks that share an address are nested. */
  lemma NestedOrDisjoint(x: Block, y: Block, a: Block)
    requires Contains(x, a) && Contains(y, a)
    ensures Contains(x, y) || Contains(y, x)
  {
    assert x.bits == a.bits[..|x.bits|] && y.bits == a.bits[..|y.bits|];
    if |x.bits| <= |y.bits| {
      assert y.bits[..|x.bits|] == x.bits;
    } else {
      assert x.bits[..|y.bits|] == y.bits;
    }
  }

  lemma ContainsTransitive(x: Block, y: Block, z: Block)
    requires Contains(x, y) && Contains(y, z)
    ensures Contains(x, z)
  {
    assert x.bits == y.bits[..|x.bits|] == z.bits[..|y.bits|][..|x.bits|];
  }

  ghost function Half(x: Block, bit: bool): Block {
    Block(x.size, x.bits + [bit])
  }

  /** The two halves hold what the block holds, except the block itself. */
  lemma Halves(x: Block, y: Block)
    ensures Contains(x, y) && x != y <==> Contains(Half(x, false), y) || Contains(Half(x, true), y)
    ensures !(Contains(Half(x, false), y) && Contains(Half(x, true), y))
  {
    if Contains(x, y) && x != y {
      var b := y.bits[|x.bits|];
      assert y.bits[..|x.bits| + 1] == x.bits + [b];
    }
    forall b | Contains(Half(x, b), y) ensures Contains(x, y) && y.bits[|x.bits|] == b {
      ContainsTransitive(x, Half(x, b), y);
      assert Half(x, b).bits[|x.bits|] == b;
    }
  }
}
