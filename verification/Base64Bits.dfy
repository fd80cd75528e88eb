/** What regrouping means in base64.cpp: the six-bit values have the bits of the bytes (section 4 of RFC 4648). */
module Base64Bits {
  import opened Common
  import opened Base64

  /** The last `n` bits of a number, the most significant first. */
  ghost function BitsOf(x: nat, n: nat): (bits: seq<bool>)
    ensures |bits| == n
  {
    if n == 0 then [] else BitsOf(x / 2, n - 1) + [x % 2 == 1]
  }

  ghost function SextetBits(s: seq<Sextet>): (bits: seq<bool>)
    ensures |bits| == 6 * |s|
  {
    if s == [] then [] else BitsOf(s[0], 6) + SextetBits(s[1..])
  }

  ghost function ByteBits(d: seq<Byte>): (bits: seq<bool>)
    ensures |bits| == 8 * |d|
  {
    if d == [] then [] else BitsOf(d[0], 8) + ByteBits(d[1..])
  }

  ghost function Zeros(n: nat): (bits: seq<bool>)
    ensures |bits| == n
  {
    seq(n, _ => false)
  }

  /** The bits of two numbers put together. */
  lemma {:induction false} BitsJoined(x: nat, n: nat, y: nat, k: nat)
    requires y < Power2(k)
    ensures x * Power2(k) + y >= 0 && BitsOf(x * Power2(k) + y, n + k) == BitsOf(x, n) + BitsOf(y, k)
    decreases k
  {
    if k == 0 {
      assert BitsOf(x, n) + [] == BitsOf(x, n);
    } else {
      var j: nat := k - 1;
      var z := x * Power2(j);
      assert x * Power2(k) == 2 * z;
      assert (2 * z + y) / 2 == z + y / 2 && (2 * z + y) % 2 == y % 2;
      BitsJoined(x, n, y / 2, j);
      assert BitsOf(x, n) + BitsOf(y, k) == (BitsOf(x, n) + BitsOf(y / 2, j)) + [y % 2 == 1];
    }
  }

  lemma TwoBits(x: nat, n: nat, y: nat)
    requires y < 4
    ensures BitsOf(x * 4 + y, n + 2) == BitsOf(x, n) + BitsOf(y, 2)
  {
    assert Power2(2) == 4;
    BitsJoined(x, n, y, 2);
  }

  lemma FourBits(x: nat, n: nat, y: nat)
    requires y < 16
    ensures BitsOf(x * 16 + y, n + 4) == BitsOf(x, n) + BitsOf(y, 4)
  {
    assert Power2(4) == 16;
    BitsJoined(x, n, y, 4);
  }

  lemma SixBits(x: nat, n: nat, y: nat)
    requires y < 64
    ensures BitsOf(x * 64 + y, n + 6) == BitsOf(x, n) + BitsOf(y, 6)
  {
    assert Power2(6) == 64;
    BitsJoined(x, n, y, 6);
  }

  /** A byte between two six-bit values, between two others, and at the end of a group. */
  lemma SplitByte(b: Byte)
    ensures BitsOf(b, 8) == BitsOf(b / 4, 6) + BitsOf(b % 4, 2)
    ensures BitsOf(b, 8) == BitsOf(b / 16, 4) + BitsOf(b % 16, 4)
    ensures BitsOf(b, 8) == BitsOf(b / 64, 2) + BitsOf(b % 64, 6)
  {
    TwoBits(b / 4, 6, b % 4);
    FourBits(b / 16, 4, b % 16);
    SixBits(b / 64, 2, b % 64);
  }

  lemma SplitSextet(v: Sextet)
    ensures BitsOf(v, 6) == BitsOf(v / 16, 2) + BitsOf(v % 16, 4)
    ensures BitsOf(v, 6) == BitsOf(v / 4, 4) + BitsOf(v % 4, 2)
  {
    FourBits(v / 16, 2, v % 16);
    TwoBits(v / 4, 4, v % 4);
  }

  lemma SecondBits(a: Byte, b: Byte)
    ensures BitsOf(Second(a, b), 6) == BitsOf(a % 4, 2) + BitsOf(b / 16, 4)
  {
    var x, y := a % 4, b / 16;
    assert Second(a, b) == x * 16 + y;
    FourBits(x, 2, y);
  }

  lemma ThirdBits(b: Byte, c: Byte)
    ensures BitsOf(Third(b, c), 6) == BitsOf(b % 16, 4) + BitsOf(c / 64, 2)
  {
    var x, y := b % 16, c / 64;
    assert Third(b, c) == x * 4 + y;
    TwoBits(x, 4, y);
  }

  lemma UpperBits(v: Sextet, w: Sextet)
    ensures BitsOf(Upper(v, w), 8) == BitsOf(v, 6) + BitsOf(w / 16, 2)
  {
    TwoBits(v, 6, w / 16);
  }

  lemma MiddleBits(w: Sextet, x: Sextet)
    ensures BitsOf(Middle(w, x), 8) == BitsOf(w % 16, 4) + BitsOf(x / 4, 4)
  {
    FourBits(w % 16, 4, x / 4);
  }

  lemma LowerBits(x: Sextet, y: Sextet)
    ensures BitsOf(Lower(x, y), 8) == BitsOf(x % 4, 2) + BitsOf(y, 6)
  {
    SixBits(x % 4, 2, y);
  }

  lemma ZeroBits(n: nat)
    ensures BitsOf(0, n) == Zeros(n)
  {
    if n > 0 {
      ZeroBits(n - 1);
    }
  }

  lemma Associative(a: seq<bool>, b: seq<bool>, c: seq<bool>)
    ensures a + (b + c) == (a + b) + c
  {
  }

  ghost function GroupOf(a: Byte, b: Byte, c: Byte): seq<bool> {
    BitsOf(a, 8) + BitsOf(b, 8) + BitsOf(c, 8)
  }

  lemma GroupBits(a: Byte, b: Byte, c: Byte)
    ensures BitsOf(First(a), 6) + BitsOf(Second(a, b), 6) + BitsOf(Third(b, c), 6) + BitsOf(Fourth(c), 6) == GroupOf(a, b, c)
  {
    SplitByte(a);
    SplitByte(b);
    SplitByte(c);
    SecondBits(a, b);
    ThirdBits(b, c);
    SixParts(BitsOf(a / 4, 6), BitsOf(a % 4, 2), BitsOf(b / 16, 4), BitsOf(b % 16, 4), BitsOf(c / 64, 2), BitsOf(c % 64, 6));
  }

  lemma ThreeByteBits(d: seq<Byte>)
    requires |d| >= 3
    ensures ByteBits(d) == GroupOf(d[0], d[1], d[2]) + ByteBits(d[3..])
  {
    var one, two, rest := d[1..], d[2..], d[3..];
    assert one[1..] == two && two[1..] == rest;
    assert ByteBits(one) == BitsOf(d[1], 8) + ByteBits(two);
    assert ByteBits(two) == BitsOf(d[2], 8) + ByteBits(rest);
    Associative(BitsOf(d[0], 8), BitsOf(d[1], 8), BitsOf(d[2], 8) + ByteBits(rest));
    Associative(BitsOf(d[0], 8) + BitsOf(d[1], 8), BitsOf(d[2], 8), ByteBits(rest));
  }

  lemma FourSextetBits(w: Sextet, x: Sextet, y: Sextet, z: Sextet, rest: seq<Sextet>)
    ensures SextetBits([w, x, y, z] + rest) == BitsOf(w, 6) + BitsOf(x, 6) + BitsOf(y, 6) + BitsOf(z, 6) + SextetBits(rest)
  {
    var s := [w, x, y, z] + rest;
    assert s[1..] == [x, y, z] + rest && s[1..][1..] == [y, z] + rest;
    assert s[1..][1..][1..] == [z] + rest && ([z] + rest)[1..] == rest;
    assert SextetBits([z] + rest) == BitsOf(z, 6) + SextetBits(rest);
    assert SextetBits([y, z] + rest) == BitsOf(y, 6) + SextetBits([z] + rest);
    assert SextetBits([x, y, z] + rest) == BitsOf(x, 6) + SextetBits([y, z] + rest);
  }

  lemma OneSextetBits(w: Sextet)
    ensures SextetBits([w]) == BitsOf(w, 6)
  {
    assert [w][1..] == [];
    assert BitsOf(w, 6) + [] == BitsOf(w, 6);
  }

  lemma FewSextetBits(w: Sextet, x: Sextet, y: Sextet)
    ensures SextetBits([w, x]) == BitsOf(w, 6) + BitsOf(x, 6)
    ensures SextetBits([w, x, y]) == BitsOf(w, 6) + BitsOf(x, 6) + BitsOf(y, 6)
  {
    OneSextetBits(x);
    OneSextetBits(y);
    assert [w, x][1..] == [x] && [w, x, y][1..] == [x, y] && [x, y][1..] == [y];
    assert SextetBits([x, y]) == BitsOf(x, 6) + SextetBits([y]);
    Associative(BitsOf(w, 6), BitsOf(x, 6), BitsOf(y, 6));
  }

  /** The last byte, and the last two. */
  lemma OneByteBits(a: Byte)
    ensures BitsOf(First(a), 6) + BitsOf(Second(a, 0), 6) == BitsOf(a, 8) + Zeros(4)
  {
    var f, g := BitsOf(a / 4, 6), BitsOf(a % 4, 2);
    SplitByte(a);
    SecondBits(a, 0);
    ZeroBits(4);
    Associative(f, g, Zeros(4));
  }

  lemma TwoByteBits(a: Byte, b: Byte)
    ensures BitsOf(First(a), 6) + BitsOf(Second(a, b), 6) + BitsOf(Third(b, 0), 6) == BitsOf(a, 8) + BitsOf(b, 8) + Zeros(2)
  {
    SplitByte(a);
    SplitByte(b);
    SecondBits(a, b);
    ThirdBits(b, 0);
    ZeroBits(2);
    FiveParts(BitsOf(a / 4, 6), BitsOf(a % 4, 2), BitsOf(b / 16, 4), BitsOf(b % 16, 4), Zeros(2));
  }

  lemma FiveParts(a: seq<bool>, b: seq<bool>, c: seq<bool>, d: seq<bool>, e: seq<bool>)
    ensures a + (b + c) + (d + e) == (a + b) + (c + d) + e
  {
  }

  lemma FewByteBits(a: Byte, b: Byte)
    ensures ByteBits([a]) == BitsOf(a, 8) && ByteBits([a, b]) == BitsOf(a, 8) + BitsOf(b, 8)
  {
    assert [a, b][1..] == [b] && [a][1..] == [] && [b][1..] == [];
    assert ByteBits([b]) == BitsOf(b, 8) + [];
  }

  ghost function Filling(n: nat): nat {
    if n % 3 == 1 then 4 else if n % 3 == 2 then 2 else 0
  }

  /** Six-bit values, put one behind the other, have the bits of the bytes, filled up with zeros. */
  lemma {:induction false} SextetsKeepBits(d: seq<Byte>)
    ensures SextetBits(Sextets(d)) == ByteBits(d) + Zeros(Filling(|d|))
  {
    if |d| < 3 {
      FewKeepBits(d);
    } else {
      SextetsKeepBits(d[3..]);
      GroupKeepsBits(d);
    }
  }

  ghost predicate KeepsBits(d: seq<Byte>) {
    SextetBits(Sextets(d)) == ByteBits(d) + Zeros(Filling(|d|))
  }

  lemma FewKeepBits(d: seq<Byte>)
    requires |d| < 3
    ensures KeepsBits(d)
  {
    if |d| == 0 {
      NoneKeepBits();
    } else if |d| == 1 {
      OneKeepsBits(d[0]);
      assert d == [d[0]];
    } else {
      TwoKeepBits(d[0], d[1]);
      assert d == [d[0], d[1]];
    }
  }

  lemma NoneKeepBits()
    ensures KeepsBits([])
  {
  }

  lemma OneKeepsBits(a: Byte)
    ensures KeepsBits([a])
  {
    FewSextetBits(First(a), Second(a, 0), 0);
    FewByteBits(a, a);
    OneByteBits(a);
  }

  lemma TwoKeepBits(a: Byte, b: Byte)
    ensures KeepsBits([a, b])
  {
    FewSextetBits(First(a), Second(a, b), Third(b, 0));
    FewByteBits(a, b);
    TwoByteBits(a, b);
  }

  lemma GroupKeepsBits(d: seq<Byte>)
    requires |d| >= 3 && SextetBits(Sextets(d[3..])) == ByteBits(d[3..]) + Zeros(Filling(|d| - 3))
    ensures SextetBits(Sextets(d)) == ByteBits(d) + Zeros(Filling(|d|))
  {
    var a, b, c, rest := d[0], d[1], d[2], d[3..];
    FourSextetBits(First(a), Second(a, b), Third(b, c), Fourth(c), Sextets(rest));
    GroupBits(a, b, c);
    ThreeByteBits(d);
    assert Filling(|d|) == Filling(|d| - 3);
    Associative(GroupOf(a, b, c), ByteBits(rest), Zeros(Filling(|d|)));
  }

  /** The bytes have the bits of the six-bit values, without those that do not fill a byte. */
  lemma {:induction false} OctetsKeepBits(s: seq<Sextet>)
    requires |s| % 4 != 1
    ensures |Octets(s)| == 6 * |s| / 8 && ByteBits(Octets(s)) == SextetBits(s)[..8 * |Octets(s)|]
  {
    if |s| < 4 {
      FewOctetBits(s);
    } else {
      OctetsKeepBits(s[4..]);
      OctetGroupBits(s);
    }
  }

  lemma FewOctetBits(s: seq<Sextet>)
    requires |s| < 4 && |s| != 1
    ensures |Octets(s)| == 6 * |s| / 8 && ByteBits(Octets(s)) == SextetBits(s)[..8 * |Octets(s)|]
  {
    if |s| == 2 {
      assert s == [s[0], s[1]];
      TwoSextetOctets(s[0], s[1]);
    } else if |s| == 3 {
      assert s == [s[0], s[1], s[2]];
      ThreeSextetOctets(s[0], s[1], s[2]);
    }
  }

  lemma TwoSextetOctets(w: Sextet, x: Sextet)
    ensures Octets([w, x]) == [Upper(w, x)] && ByteBits([Upper(w, x)]) == SextetBits([w, x])[..8]
  {
    FewSextetBits(w, x, 0);
    FewByteBits(Upper(w, x), 0);
    UpperBits(w, x);
    SplitSextet(x);
    Associative(BitsOf(w, 6), BitsOf(x / 16, 2), BitsOf(x % 16, 4));
  }

  lemma ThreeSextetOctets(w: Sextet, x: Sextet, y: Sextet)
    ensures Octets([w, x, y]) == [Upper(w, x), Middle(x, y)]
    ensures ByteBits([Upper(w, x), Middle(x, y)]) == SextetBits([w, x, y])[..16]
  {
    FewSextetBits(w, x, y);
    FewByteBits(Upper(w, x), Middle(x, y));
    UpperBits(w, x);
    MiddleBits(x, y);
    SplitSextet(x);
    SplitSextet(y);
    FiveParts(BitsOf(w, 6), BitsOf(x / 16, 2), BitsOf(x % 16, 4), BitsOf(y / 4, 4), BitsOf(y % 4, 2));
  }

  lemma OctetGroup(w: Sextet, x: Sextet, y: Sextet, z: Sextet)
    ensures GroupOf(Upper(w, x), Middle(x, y), Lower(y, z)) == BitsOf(w, 6) + BitsOf(x, 6) + BitsOf(y, 6) + BitsOf(z, 6)
  {
    UpperBits(w, x);
    MiddleBits(x, y);
    LowerBits(y, z);
    SplitSextet(x);
    SplitSextet(y);
    SixParts(BitsOf(w, 6), BitsOf(x / 16, 2), BitsOf(x % 16, 4), BitsOf(y / 4, 4), BitsOf(y % 4, 2), BitsOf(z, 6));
  }

  lemma SixParts(a: seq<bool>, b: seq<bool>, c: seq<bool>, d: seq<bool>, e: seq<bool>, f: seq<bool>)
    ensures (a + b) + (c + d) + (e + f) == a + (b + c) + (d + e) + f
  {
  }

  lemma OctetGroupBits(s: seq<Sextet>)
    requires |s| >= 4 && |Octets(s[4..])| == 6 * (|s| - 4) / 8
    requires ByteBits(Octets(s[4..])) == SextetBits(s[4..])[..8 * |Octets(s[4..])|]
    ensures |Octets(s)| == 6 * |s| / 8 && ByteBits(Octets(s)) == SextetBits(s)[..8 * |Octets(s)|]
  {
    var w, x, y, z, rest := s[0], s[1], s[2], s[3], s[4..];
    var group := BitsOf(w, 6) + BitsOf(x, 6) + BitsOf(y, 6) + BitsOf(z, 6);
    assert s == [w, x, y, z] + rest;
    FourSextetBits(w, x, y, z, rest);
    OctetGroup(w, x, y, z);
    ThreeByteBits(Octets(s));
    assert Octets(s)[3..] == Octets(rest);
    PrefixOfBoth(group, SextetBits(rest), 8 * |Octets(rest)|);
  }

  lemma PrefixOfBoth(a: seq<bool>, b: seq<bool>, n: nat)
    requires n <= |b|
    ensures (a + b)[..|a| + n] == a + b[..n]
  {
  }

  // Whole strings

  lemma {:induction false} SextetBitsAt(s: seq<Sextet>, i: nat)
    requires i < |s|
    ensures SextetBits(s)[6 * i..6 * i + 6] == BitsOf(s[i], 6)
  {
    var rest := SextetBits(s[1..]);
    if i > 0 {
      var j: nat := i - 1;
      SextetBitsAt(s[1..], j);
      assert (BitsOf(s[0], 6) + rest)[6 * i..6 * i + 6] == rest[6 * j..6 * j + 6];
    }
  }

  lemma {:induction false} SameBits(x: nat, y: nat, n: nat)
    requires x < Power2(n) && y < Power2(n) && BitsOf(x, n) == BitsOf(y, n)
    ensures x == y
  {
    if n > 0 {
      var m: nat := n - 1;
      assert BitsOf(x, n)[..m] == BitsOf(x / 2, m) && BitsOf(y, n)[..m] == BitsOf(y / 2, m);
      assert BitsOf(x, n)[m] == (x % 2 == 1) && BitsOf(y, n)[m] == (y % 2 == 1);
      SameBits(x / 2, y / 2, m);
    }
  }

  /** Section 4 of RFC 4648: symbol `i` is the one that the alphabet gives to bits `6 * i` to `6 * i + 5` of
      the bytes, filled up with zeros. */
  lemma EncodedByBits(d: seq<Byte>, urlSafe: bool, i: nat, v: Sextet)
    requires 6 * i < 8 * |d| && 6 * i + 6 <= 8 * |d| + Filling(|d|)
    requires BitsOf(v, 6) == (ByteBits(d) + Zeros(Filling(|d|)))[6 * i..6 * i + 6]
    ensures i < |Encoded(d, urlSafe)| && |Alphabet(urlSafe)| == 64
    ensures Encoded(d, urlSafe)[i] == Alphabet(urlSafe)[v] as int
  {
    SextetsKeepBits(d);
    SextetBitsAt(Sextets(d), i);
    assert Power2(6) == 64;
    SameBits(v, Sextets(d)[i], 6);
    StandardAlphabets(urlSafe, v);
  }

  /** Six-bit values whose symbols are in front of the padding. */
  ghost predicate SpelledBy(text: seq<Byte>, urlSafe: bool, s: seq<Sextet>) {
    |s| == |Body(text)| && forall i :: 0 <= i < |s| ==> Stands(Body(text)[i], urlSafe, s[i])
  }

  ghost predicate Stands(c: Byte, urlSafe: bool, v: Sextet) {
    |Alphabet(urlSafe)| == 64 && c == Alphabet(urlSafe)[v] as int
  }

  lemma StandsIff(c: Byte, urlSafe: bool, v: Sextet)
    ensures Stands(c, urlSafe, v) <==> TableFor(urlSafe)[v] == c
  {
    StandardAlphabets(urlSafe, v);
  }

  lemma StandsForValue(c: Byte, urlSafe: bool, v: Sextet)
    requires Stands(c, urlSafe, v)
    ensures IsSymbol(c, urlSafe) && BasisFor(urlSafe)[c] == v
  {
    StandsIff(c, urlSafe, v);
    SymbolValue(v, urlSafe);
  }

  /** What the six-bit values of an accepted text spell, without the bits that do not fill a byte. */
  lemma DecodedByBits(text: seq<Byte>, urlSafe: bool, s: seq<Sextet>)
    requires SpelledBy(text, urlSafe, s)
    ensures Decoded(text, urlSafe).Some? <==> |s| % 4 != 1
    ensures Decoded(text, urlSafe).Some? ==>
              var d := Decoded(text, urlSafe).value;
              |d| == 6 * |s| / 8 && ByteBits(d) == SextetBits(s)[..8 * |d|]
  {
    forall i | 0 <= i < |s| ensures IsSymbol(Body(text)[i], urlSafe) && BasisFor(urlSafe)[Body(text)[i]] == s[i] {
      StandsForValue(Body(text)[i], urlSafe, s[i]);
    }
    assert Values(Body(text), urlSafe) == s;
    if |s| % 4 != 1 {
      OctetsKeepBits(s);
    }
  }

  /** A text with a byte outside the alphabet in front of the padding is refused. */
  lemma AcceptedIsSpelled(text: seq<Byte>, urlSafe: bool) returns (s: seq<Sextet>)
    requires Decoded(text, urlSafe).Some?
    ensures SpelledBy(text, urlSafe, s)
  {
    s := Values(Body(text), urlSafe);
    forall i | 0 <= i < |s| ensures Stands(Body(text)[i], urlSafe, s[i]) {
      BasisKnows(Body(text)[i], urlSafe);
      var v :| 0 <= v < 64 && TableFor(urlSafe)[v] == Body(text)[i];
      SymbolValue(v, urlSafe);
      StandsIff(Body(text)[i], urlSafe, v);
    }
  }
}
