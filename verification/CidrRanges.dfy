/** `CidrRange` of cidr_range.h: a range kept as address bytes, mask bytes and a prefix length. */
module CidrRanges {
  import opened Common
  import opened CidrBlocks

  /** Bit `k` of a byte, the most significant first. */
  function Bit(b: bv8, k: nat): bool
    requires k < 8
  {
    match k
    case 0 => b & 0x80 != 0
    case 1 => b & 0x40 != 0
    case 2 => b & 0x20 != 0
    case 3 => b & 0x10 != 0
    case 4 => b & 0x08 != 0
    case 5 => b & 0x04 != 0
    case 6 => b & 0x02 != 0
    case _ => b & 0x01 != 0
  }

  /** A byte whose first `c` bits are set. */
  function MaskByte(c: nat): bv8
    requires c <= 8
  {
    match c
    case 0 => 0
    case 1 => 0x80
    case 2 => 0xC0
    case 3 => 0xE0
    case 4 => 0xF0
    case 5 => 0xF8
    case 6 => 0xFC
    case 7 => 0xFE
    case _ => 0xFF
  }

  /** How many of the first `len` bits of an address lie in its byte `i`. */
  function Covered(len: nat, i: nat): (c: nat)
    ensures c <= 8
  {
    if len <= 8 * i then 0 else if len >= 8 * i + 8 then 8 else len - 8 * i
  }

  function Bits(a: seq<bv8>): (bits: seq<bool>)
    ensures |bits| == 8 * |a|
    ensures forall n :: 0 <= n < |bits| ==> bits[n] == Bit(a[n / 8], n % 8)
  {
    seq(8 * |a|, n requires 0 <= n < 8 * |a| => Bit(a[n / 8], n % 8))
  }

  datatype CidrRange = CidrRange(address: seq<bv8>, mask: seq<bv8>, prefixLen: nat) {
    /** The mask follows the prefix length, and no address bit lies outside it. */
    ghost predicate Valid() {
      && |mask| == |address| && prefixLen <= 8 * |address|
      && forall i :: 0 <= i < |address| ==> mask[i] == MaskByte(Covered(prefixLen, i)) && address[i] & mask[i] == address[i]
    }

    /** The addresses in the range, as a block. */
    ghost function View(): Block
      requires prefixLen <= 8 * |address|
    {
      Block(|address|, Bits(address)[..prefixLen])
    }
  }

  // One byte

  lemma AgreeUnderMask(x: bv8, y: bv8, c: nat)
    requires c <= 8
    ensures x & MaskByte(c) == y & MaskByte(c) <==> forall k :: 0 <= k < c ==> Bit(x, k) == Bit(y, k)
  {
    if x & MaskByte(c) == y & MaskByte(c) {
      forall k | 0 <= k < c ensures Bit(x, k) == Bit(y, k) {
        AgreeAt(x, y, c, k);
      }
    }
    if forall k :: 0 <= k < c ==> Bit(x, k) == Bit(y, k) {
      assert c > 0 ==> Bit(x, 0) == Bit(y, 0);
      assert c > 1 ==> Bit(x, 1) == Bit(y, 1);
      assert c > 2 ==> Bit(x, 2) == Bit(y, 2);
      assert c > 3 ==> Bit(x, 3) == Bit(y, 3);
      assert c > 4 ==> Bit(x, 4) == Bit(y, 4);
      assert c > 5 ==> Bit(x, 5) == Bit(y, 5);
      assert c > 6 ==> Bit(x, 6) == Bit(y, 6);
      assert c > 7 ==> Bit(x, 7) == Bit(y, 7);
    }
  }

  lemma AgreeAt(x: bv8, y: bv8, c: nat, k: nat)
    requires k < c <= 8 && x & MaskByte(c) == y & MaskByte(c)
    ensures Bit(x, k) == Bit(y, k)
  {
    assert (x & MaskByte(c)) & MaskByte(k + 1) == (y & MaskByte(c)) & MaskByte(k + 1);
  }

  lemma MasksNested(c: nat, d: nat)
    requires c <= 8 && d <= 8
    ensures MaskByte(c) == MaskByte(d) & MaskByte(c) <==> c <= d
  {
  }

  lemma MaskedBit(x: bv8, c: nat, k: nat)
    requires c <= 8 && k < 8
    ensures Bit(x & MaskByte(c), k) == (k < c && Bit(x, k))
  {
  }

  /** The most significant bit that differs decides. */
  lemma ByteOrder(x: bv8, y: bv8, k: nat)
    requires k < 8 && (forall j :: 0 <= j < k ==> Bit(x, j) == Bit(y, j)) && Bit(x, k) != Bit(y, k)
    ensures x < y <==> Bit(y, k)
  {
    AgreeUnderMask(x, y, k);
  }

  lemma FirstDifferentBit(x: bv8, y: bv8) returns (k: nat)
    requires x != y
    ensures k < 8 && (forall j :: 0 <= j < k ==> Bit(x, j) == Bit(y, j)) && Bit(x, k) != Bit(y, k)
  {
    k := 0;
    while k < 8 && Bit(x, k) == Bit(y, k)
      invariant k <= 8 && forall j :: 0 <= j < k ==> Bit(x, j) == Bit(y, j)
    {
      k := k + 1;
    }
    AgreeUnderMask(x, y, k);
  }

  // All bytes

  /** Byte by byte under the mask of a prefix is the same as bit by bit along the prefix. */
  lemma AgreeOnPrefix(a: seq<bv8>, b: seq<bv8>, len: nat)
    requires |a| == |b| && len <= 8 * |a|
    ensures (forall i :: 0 <= i < |a| ==> AgreeInByte(a, b, len, i)) <==> Bits(a)[..len] == Bits(b)[..len]
  {
    if forall i :: 0 <= i < |a| ==> AgreeInByte(a, b, len, i) {
      forall n | 0 <= n < len ensures Bits(a)[n] == Bits(b)[n] {
        AgreeAtBit(a, b, len, n);
      }
    }
    if Bits(a)[..len] == Bits(b)[..len] {
      forall i | 0 <= i < |a| ensures AgreeInByte(a, b, len, i) {
        AgreeAtByte(a, b, len, i);
      }
    }
  }

  lemma AgreeAtBit(a: seq<bv8>, b: seq<bv8>, len: nat, n: nat)
    requires |a| == |b| && n < len <= 8 * |a| && AgreeInByte(a, b, len, n / 8)
    ensures Bits(a)[n] == Bits(b)[n]
  {
    AgreeUnderMask(a[n / 8], b[n / 8], Covered(len, n / 8));
  }

  lemma AgreeAtByte(a: seq<bv8>, b: seq<bv8>, len: nat, i: nat)
    requires |a| == |b| && len <= 8 * |a| && i < |a| && Bits(a)[..len] == Bits(b)[..len]
    ensures AgreeInByte(a, b, len, i)
  {
    forall k | 0 <= k < Covered(len, i) ensures Bit(a[i], k) == Bit(b[i], k) {
      var n := 8 * i + k;
      assert n / 8 == i && n % 8 == k;
      assert Bits(a)[..len][n] == Bits(b)[..len][n];
    }
    AgreeUnderMask(a[i], b[i], Covered(len, i));
  }

  ghost predicate AgreeInByte(a: seq<bv8>, b: seq<bv8>, len: nat, i: nat)
    requires i < |a| && i < |b|
  {
    a[i] & MaskByte(Covered(len, i)) == b[i] & MaskByte(Covered(len, i))
  }

  /** A longer prefix shows in the mask of some byte, and only a longer one. */
  lemma MaskLengths(la: nat, lb: nat, size: nat)
    requires la <= 8 * size && lb <= 8 * size
    ensures la <= lb <==> forall i :: 0 <= i < size ==> Covered(la, i) <= Covered(lb, i)
  {
    if la > lb {
      var i := lb / 8;
      assert 0 <= i < size && Covered(la, i) > Covered(lb, i);
    }
  }

  /** What `contains` tests in one byte. */
  predicate HeldAt(a: CidrRange, b: CidrRange, i: nat)
    requires i < |a.address| && i < |b.address| && i < |a.mask| && i < |b.mask|
  {
    && a.mask[i] == b.mask[i] & a.mask[i]
    && a.address[i] & a.mask[i] == b.address[i] & a.mask[i]
  }

  lemma HeldMeans(a: CidrRange, b: CidrRange, i: nat)
    requires a.Valid() && b.Valid() && |a.address| == |b.address| && i < |a.address|
    ensures HeldAt(a, b, i) <==> Covered(a.prefixLen, i) <= Covered(b.prefixLen, i) && AgreeInByte(a.address, b.address, a.prefixLen, i)
  {
    MasksNested(Covered(a.prefixLen, i), Covered(b.prefixLen, i));
  }

  lemma HeldEverywhere(a: CidrRange, b: CidrRange)
    requires a.Valid() && b.Valid() && |a.address| == |b.address|
    ensures Contains(a.View(), b.View()) <==> forall i :: 0 <= i < |a.address| ==> HeldAt(a, b, i)
  {
    forall i | 0 <= i < |a.address|
      ensures HeldAt(a, b, i) <==> Covered(a.prefixLen, i) <= Covered(b.prefixLen, i) && AgreeInByte(a.address, b.address, a.prefixLen, i)
    {
      HeldMeans(a, b, i);
    }
    MaskLengths(a.prefixLen, b.prefixLen, |a.address|);
    AgreeOnPrefix(a.address, b.address, a.prefixLen);
    if a.prefixLen <= b.prefixLen {
      assert Bits(b.address)[..b.prefixLen][..a.prefixLen] == Bits(b.address)[..a.prefixLen];
    }
  }

  /** `contains`: the bytes decide whether the blocks are nested. */
  method ContainsRange(a: CidrRange, b: CidrRange) returns (r: bool)
    requires a.Valid() && b.Valid()
    ensures r <==> Contains(a.View(), b.View())
  {
    r := |b.address| == |a.address|;
    if r {
      r := TestBytes(a, b);
      HeldEverywhere(a, b);
    }
  }

  method TestBytes(a: CidrRange, b: CidrRange) returns (r: bool)
    requires |a.mask| == |a.address| == |b.address| == |b.mask|
    ensures r <==> forall i :: 0 <= i < |a.address| ==> HeldAt(a, b, i)
  {
    for i := 0 to |a.address|
      invariant forall j :: 0 <= j < i ==> HeldAt(a, b, j)
    {
      if !HeldAt(a, b, i) {
        return false;
      }
    }
    r := true;
  }

  predicate MatchesAt(a: CidrRange, address: seq<bv8>, i: nat)
    requires i < |a.address| && i < |address| && i < |a.mask|
  {
    a.address[i] & a.mask[i] == address[i] & a.mask[i]
  }

  /** `contains` for a single address. */
  method ContainsAddress(a: CidrRange, address: seq<bv8>) returns (r: bool)
    requires a.Valid()
    ensures r <==> Contains(a.View(), Block(|address|, Bits(address)))
  {
    r := |address| == |a.address|;
    if r {
      AgreeOnPrefix(a.address, address, a.prefixLen);
      assert forall i :: 0 <= i < |address| ==> (MatchesAt(a, address, i) <==> AgreeInByte(a.address, address, a.prefixLen, i));
      r := MatchBytes(a, address);
    }
  }

  method MatchBytes(a: CidrRange, address: seq<bv8>) returns (r: bool)
    requires |a.mask| == |a.address| == |address|
    ensures r <==> forall i :: 0 <= i < |a.address| ==> MatchesAt(a, address, i)
  {
    for i := 0 to |a.address|
      invariant forall j :: 0 <= j < i ==> MatchesAt(a, address, j)
    {
      if !MatchesAt(a, address, i) {
        return false;
      }
    }
    r := true;
  }

  // Order

  /** Bits behind the prefix are zero. */
  lemma ZeroBehindPrefix(a: CidrRange, n: nat)
    requires a.Valid() && a.prefixLen <= n < 8 * |a.address|
    ensures !Bits(a.address)[n]
  {
    var i := n / 8;
    assert a.address[i] & a.mask[i] == a.address[i];
    MaskedBit(a.address[i], Covered(a.prefixLen, i), n % 8);
  }

  /** The first byte that differs holds the first bit that differs, and decides the order. */
  lemma AddressOrder(a: CidrRange, b: CidrRange, i: nat)
    requires a.Valid() && b.Valid() && |a.address| == |b.address| && i < |a.address|
    requires a.address[..i] == b.address[..i] && a.address[i] < b.address[i]
    ensures Precedes(a.View(), b.View()) && !Precedes(b.View(), a.View())
  {
    var n := PartingBit(a.address, b.address, i);
    if b.prefixLen <= n {
      ZeroBehindPrefix(b, n);
    }
    PartingOrder(Bits(a.address), Bits(b.address), a.prefixLen, b.prefixLen, n);
  }

  /** The first bit in which two addresses differ. */
  lemma PartingBit(a: seq<bv8>, b: seq<bv8>, i: nat) returns (n: nat)
    requires |a| == |b| && i < |a| && a[..i] == b[..i] && a[i] < b[i]
    ensures n < 8 * |a| && Bits(a)[..n] == Bits(b)[..n] && !Bits(a)[n] && Bits(b)[n]
  {
    var k := FirstDifferentBit(a[i], b[i]);
    ByteOrder(a[i], b[i], k);
    n := 8 * i + k;
    assert n / 8 == i && n % 8 == k;
    SameBitsBefore(a, b, i, k);
  }

  lemma PartingOrder(x: seq<bool>, y: seq<bool>, la: nat, lb: nat, n: nat)
    requires la <= |x| == |y| && n < lb <= |y| && x[..n] == y[..n] && !x[n] && y[n]
    ensures Before(x[..la], y[..lb]) && !Before(y[..lb], x[..la])
  {
    var p, q := x[..la], y[..lb];
    if n < la {
      assert p[..n] == x[..n] && q[..n] == y[..n];
      PartingDecides(p, q, n);
    } else {
      assert p == x[..n][..la] == y[..n][..la] == q[..la];
      PrefixBefore(p, q);
    }
    BeforeAsymmetric(p, q);
  }

  lemma SameBitsBefore(a: seq<bv8>, b: seq<bv8>, i: nat, k: nat)
    requires |a| == |b| && i < |a| && k < 8 && a[..i] == b[..i]
    requires forall j :: 0 <= j < k ==> Bit(a[i], j) == Bit(b[i], j)
    ensures Bits(a)[..8 * i + k] == Bits(b)[..8 * i + k]
  {
    forall n | 0 <= n < 8 * i + k ensures Bits(a)[n] == Bits(b)[n] {
      if n < 8 * i {
        assert a[n / 8] == a[..i][n / 8] == b[..i][n / 8] == b[n / 8];
      } else {
        assert n / 8 == i && n % 8 < k;
      }
    }
  }

  lemma SameAddressOrder(a: CidrRange, b: CidrRange)
    requires a.Valid() && b.Valid() && a.address == b.address
    ensures Precedes(a.View(), b.View()) <==> a.prefixLen < b.prefixLen
  {
    var x := Bits(a.address);
    if a.prefixLen < b.prefixLen {
      assert x[..a.prefixLen] == x[..b.prefixLen][..a.prefixLen];
      PrefixBefore(x[..a.prefixLen], x[..b.prefixLen]);
    } else {
      assert x[..b.prefixLen] == x[..a.prefixLen][..b.prefixLen];
      ContainerFirst(b.View(), a.View());
    }
  }

  /** `operator<`: by address size, then address bytes, then prefix length. */
  method LessThan(a: CidrRange, b: CidrRange) returns (r: bool)
    requires a.Valid() && b.Valid()
    ensures r <==> Precedes(a.View(), b.View())
  {
    if |a.address| != |b.address| {
      return |a.address| < |b.address|;
    }
    for i := 0 to |a.address|
      invariant a.address[..i] == b.address[..i]
    {
      if a.address[i] != b.address[i] {
        r := a.address[i] < b.address[i];
        if r {
          AddressOrder(a, b, i);
        } else {
          AddressOrder(b, a, i);
        }
        return;
      }
    }
    assert a.address == a.address[..|a.address|] == b.address[..|a.address|] == b.address;
    SameAddressOrder(a, b);
    r := a.prefixLen < b.prefixLen;
  }

  // Making ranges

  lemma ShiftedMask(s: nat)
    requires s < 8
    ensures 0xFF as bv8 << s == MaskByte(8 - s)
  {
    match s
    case 0 =>
    case 1 =>
    case 2 =>
    case 3 =>
    case 4 =>
    case 5 =>
    case 6 =>
    case _ =>
  }

  /** The mask bytes of a prefix length. */
  method MakeMask(size: nat, prefixLen: nat) returns (mask: seq<bv8>)
    requires prefixLen <= 8 * size
    ensures |mask| == size && forall i :: 0 <= i < size ==> mask[i] == MaskByte(Covered(prefixLen, i))
  {
    mask := seq(size, _ => 0);
    if prefixLen != 0 {
      var significant := (prefixLen - 1) / 8;
      for i := 0 to significant
        invariant |mask| == size
        invariant forall j :: 0 <= j < size ==> mask[j] == if j < i then 0xFF else 0
      {
        mask := mask[i := 0xFF];
      }
      var shift := 8 - (prefixLen - significant * 8);
      ShiftedMask(shift);
      mask := mask[significant := 0xFF as bv8 << shift];
    }
  }

  lemma MaskedTwice(x: bv8, m: bv8)
    ensures x & m & m == x & m
  {
  }

  /** `init`: the range of the addresses that share the first bits of `addr`. */
  method Init(addr: seq<bv8>, prefixLen: nat) returns (r: Option<CidrRange>)
    ensures r.None? <==> prefixLen > 8 * |addr|
    ensures r.Some? ==> r.value.Valid() && r.value.prefixLen == prefixLen && |r.value.address| == |addr| &&
                        r.value.View() == Block(|addr|, Bits(addr)[..prefixLen])
  {
    if prefixLen > 8 * |addr| {
      return None;
    }
    var mask := MakeMask(|addr|, prefixLen);
    var address := seq(|addr|, i requires 0 <= i < |addr| => addr[i] & mask[i]);
    forall i | 0 <= i < |addr| ensures address[i] & mask[i] == address[i] && AgreeInByte(address, addr, prefixLen, i) {
      MaskedTwice(addr[i], mask[i]);
    }
    AgreeOnPrefix(address, addr, prefixLen);
    r := Some(CidrRange(address, mask, prefixLen));
  }

  /** The byte in which only bit `k` is set. */
  function OneBit(k: nat): bv8
    requires k < 8
  {
    MaskByte(k + 1) ^ MaskByte(k)
  }

  lemma ShiftedBit(s: nat)
    requires s < 8
    ensures 1 as bv8 << s == OneBit(7 - s)
  {
    match s
    case 0 =>
    case 1 =>
    case 2 =>
    case 3 =>
    case 4 =>
    case 5 =>
    case 6 =>
    case _ =>
  }

  lemma SetBit(x: bv8, k: nat, j: nat)
    requires k < 8 && j < 8
    ensures Bit(x | OneBit(k), j) == (j == k || Bit(x, j))
  {
  }

  lemma BitSetInAddress(a: seq<bv8>, b: seq<bv8>, n: nat)
    requires |a| == |b| && n < 8 * |a| && b == a[n / 8 := a[n / 8] | OneBit(n % 8)]
    ensures Bits(b)[..n + 1] == Bits(a)[..n] + [true]
  {
    forall m | 0 <= m <= n ensures Bits(b)[m] == (m == n || Bits(a)[m]) {
      BitSetAt(a, b, n, m);
    }
  }

  lemma BitSetAt(a: seq<bv8>, b: seq<bv8>, n: nat, m: nat)
    requires |a| == |b| && m <= n < 8 * |a| && b == a[n / 8 := a[n / 8] | OneBit(n % 8)]
    ensures Bits(b)[m] == (m == n || Bits(a)[m])
  {
    var i, k := n / 8, n % 8;
    assert n == 8 * i + k && m == 8 * (m / 8) + m % 8;
    if m / 8 == i {
      SetBit(a[i], k, m % 8);
    }
  }

  /** The address with the first bit behind the prefix set. */
  method SetBehindPrefix(address: seq<bv8>, newPrefixLen: nat) returns (right: seq<bv8>)
    requires 0 < newPrefixLen <= 8 * |address|
    ensures |right| == |address| && Bits(right)[..newPrefixLen] == Bits(address)[..newPrefixLen - 1] + [true]
  {
    var significant := (newPrefixLen - 1) / 8;
    var shift := 8 - (newPrefixLen - significant * 8);
    ShiftedBit(shift);
    right := address[significant := address[significant] | (1 as bv8 << shift)];
    BitSetInAddress(address, right, newPrefixLen - 1);
  }

  /** `split`: the two halves, unless the range is a single address. */
  method Split(a: CidrRange) returns (r: Option<(CidrRange, CidrRange)>)
    requires a.Valid()
    ensures r.None? <==> a.prefixLen == 8 * |a.address|
    ensures r.Some? ==> r.value.0.Valid() && r.value.0.View() == Half(a.View(), false) &&
                        r.value.1.Valid() && r.value.1.View() == Half(a.View(), true)
  {
    if a.prefixLen == 8 * |a.address| {
      return None;
    }
    var newPrefixLen := a.prefixLen + 1;
    var right := SetBehindPrefix(a.address, newPrefixLen);
    ZeroBehindPrefix(a, a.prefixLen);
    assert Bits(a.address)[..newPrefixLen] == Bits(a.address)[..a.prefixLen] + [false];
    var low := Init(a.address, newPrefixLen);
    var high := Init(right, newPrefixLen);
    r := Some((low.value, high.value));
  }
}
