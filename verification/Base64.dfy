/** base64.cpp: Base64 with the alphabets of sections 4 and 5 of RFC 4648; the second is written
    without padding. */
module Base64 {
  import opened Common

  const PADDING: Byte := 61
  const INVALID: Byte := 77

  // The tables

  /** The symbols of the default table: letters, digits, `+` and `/`. */
  function DefaultSymbol(v: int): Byte
    requires 0 <= v < 64
  {
    if v < 26 then 65 + v else if v < 52 then 71 + v else if v < 62 then v - 4 else if v == 62 then 43 else 47
  }

  function DefaultBasis(c: Byte): Byte {
    if 65 <= c <= 90 then c - 65
    else if 97 <= c <= 122 then c - 71
    else if 48 <= c <= 57 then c + 4
    else if c == 43 then 62
    else if c == 47 then 63
    else INVALID
  }

  function DefaultTable(): (t: seq<Byte>)
    ensures |t| == 64 && forall v :: 0 <= v < 64 ==> t[v] == DefaultSymbol(v)
  {
    seq(64, v requires 0 <= v < 64 => DefaultSymbol(v))
  }

  function DefaultBases(): (b: seq<Byte>)
    ensures |b| == 256 && forall c :: 0 <= c < 256 ==> b[c] == DefaultBasis(c)
  {
    seq(256, c requires 0 <= c < 256 => DefaultBasis(c))
  }

  function UrlSafeSymbol(c: Byte): Byte {
    if c == 43 then 45 else if c == 47 then 95 else c
  }

  function UrlSafeTable(xs: seq<Byte>): (t: seq<Byte>)
    ensures |t| == |xs| && forall i :: 0 <= i < |t| ==> t[i] == UrlSafeSymbol(xs[i])
  {
    seq(|xs|, i requires 0 <= i < |xs| => UrlSafeSymbol(xs[i]))
  }

  /** Swaps the entries of `-` and `+`, and of `_` and `/`. */
  function UrlSafeBases(xs: seq<Byte>): (b: seq<Byte>)
    requires |xs| == 256
    ensures |b| == 256
  {
    var ys := xs[45 := xs[43]][43 := xs[45]];
    ys[95 := ys[47]][47 := ys[95]]
  }

  function TableFor(urlSafe: bool): (t: seq<Byte>)
    ensures |t| == 64
  {
    if urlSafe then UrlSafeTable(DefaultTable()) else DefaultTable()
  }

  function BasisFor(urlSafe: bool): (b: seq<Byte>)
    ensures |b| == 256
  {
    if urlSafe then UrlSafeBases(DefaultBases()) else DefaultBases()
  }

  /** A symbol of the alphabet. */
  ghost predicate IsSymbol(c: Byte, urlSafe: bool) {
    exists v :: 0 <= v < 64 && TableFor(urlSafe)[v] == c
  }

  // Tables 1 and 2 of RFC 4648

  function Letters(): string {
    "ABCDEFGHIJKLMNOPQRSTUVWXYZ"
  }

  function SmallLetters(): string {
    "abcdefghijklmnopqrstuvwxyz"
  }

  function Alphabet(urlSafe: bool): string {
    Letters() + SmallLetters() + "0123456789" + if urlSafe then "-_" else "+/"
  }

  lemma LetterAt(v: nat)
    requires v < 26
    ensures |Letters()| == 26 && Letters()[v] as int == 65 + v
  {
  }

  lemma SmallLetterAt(v: nat)
    requires v < 26
    ensures |SmallLetters()| == 26 && SmallLetters()[v] as int == 97 + v
  {
  }

  lemma FigureAt(v: nat)
    requires v < 10
    ensures "0123456789"[v] as int == 48 + v
  {
  }

  /** Behind the letters. */
  lemma AlphabetAt(urlSafe: bool, v: nat)
    requires v < 64 && |Letters()| == |SmallLetters()| == 26
    ensures |Alphabet(urlSafe)| == 64
    ensures Alphabet(urlSafe)[v] == if v < 26 then Letters()[v] else if v < 52 then SmallLetters()[v - 26]
                                    else if v < 62 then "0123456789"[v - 52] else (if urlSafe then "-_" else "+/")[v - 62]
  {
  }

  /** The tables are those of the standard, and so is the padding character. */
  lemma StandardAlphabets(urlSafe: bool, v: nat)
    requires v < 64
    ensures |Alphabet(urlSafe)| == 64 && TableFor(urlSafe)[v] == Alphabet(urlSafe)[v] as int && PADDING == '=' as int
  {
    LetterAt(0);
    SmallLetterAt(0);
    AlphabetAt(urlSafe, v);
    if v < 26 {
      LetterAt(v);
    } else if v < 52 {
      SmallLetterAt(v - 26);
    } else if v < 62 {
      FigureAt(v - 52);
    }
  }

  lemma SymbolValue(v: int, urlSafe: bool)
    requires 0 <= v < 64
    ensures BasisFor(urlSafe)[TableFor(urlSafe)[v]] == v && TableFor(urlSafe)[v] < 128 && TableFor(urlSafe)[v] != PADDING
  {
  }

  /** The basis knows the symbols of the alphabet and no others. */
  lemma BasisKnows(c: Byte, urlSafe: bool)
    ensures BasisFor(urlSafe)[c] < 64 || BasisFor(urlSafe)[c] == INVALID
    ensures BasisFor(urlSafe)[c] != INVALID <==> IsSymbol(c, urlSafe)
  {
    var v := BasisFor(urlSafe)[c];
    if v != INVALID {
      assert TableFor(urlSafe)[v] == c;
    }
    if w :| 0 <= w < 64 && TableFor(urlSafe)[w] == c {
      SymbolValue(w, urlSafe);
    }
  }

  // Groups of three bytes and four six-bit values

  /** A six-bit value. */
  type Sextet = x: int | 0 <= x < 64

  function First(a: Byte): Sextet {
    a / 4
  }

  function Second(a: Byte, b: Byte): Sextet {
    a % 4 * 16 + b / 16
  }

  function Third(b: Byte, c: Byte): Sextet {
    b % 16 * 4 + c / 64
  }

  function Fourth(c: Byte): Sextet {
    c % 64
  }

  function Upper(v: Sextet, w: Sextet): Byte {
    v * 4 + w / 16
  }

  function Middle(w: Sextet, x: Sextet): Byte {
    w % 16 * 16 + x / 4
  }

  function Lower(x: Sextet, y: Sextet): Byte {
    x % 4 * 64 + y
  }

  lemma GroupRoundTrip(a: Byte, b: Byte, c: Byte)
    ensures Upper(First(a), Second(a, b)) == a
    ensures Middle(Second(a, b), Third(b, c)) == b
    ensures Lower(Third(b, c), Fourth(c)) == c
  {
  }

  /** The six-bit values of some bytes: four for three, and three or two for the last two or one. */
  function Sextets(d: seq<Byte>): seq<Sextet> {
    if |d| == 0 then []
    else if |d| == 1 then [First(d[0]), Second(d[0], 0)]
    else if |d| == 2 then [First(d[0]), Second(d[0], d[1]), Third(d[1], 0)]
    else [First(d[0]), Second(d[0], d[1]), Third(d[1], d[2]), Fourth(d[2])] + Sextets(d[3..])
  }

  /** The bytes in some six-bit values. */
  function Octets(s: seq<Sextet>): seq<Byte> {
    if |s| < 2 then []
    else if |s| == 2 then [Upper(s[0], s[1])]
    else if |s| == 3 then [Upper(s[0], s[1]), Middle(s[1], s[2])]
    else [Upper(s[0], s[1]), Middle(s[1], s[2]), Lower(s[2], s[3])] + Octets(s[4..])
  }

  lemma OneByte(a: Byte)
    ensures Octets([First(a), Second(a, 0)]) == [a]
  {
    var w, x := First(a), Second(a, 0);
    assert Upper(w, x) == a by {
      GroupRoundTrip(a, 0, 0);
    }
    assert Octets([w, x]) == [Upper(w, x)];
  }

  lemma TwoBytes(a: Byte, b: Byte)
    ensures Octets([First(a), Second(a, b), Third(b, 0)]) == [a, b]
  {
    var w, x, y := First(a), Second(a, b), Third(b, 0);
    assert Upper(w, x) == a && Middle(x, y) == b by {
      GroupRoundTrip(a, b, 0);
    }
    assert Octets([w, x, y]) == [Upper(w, x), Middle(x, y)];
  }

  lemma {:induction false} SextetsRoundTrip(d: seq<Byte>)
    ensures Octets(Sextets(d)) == d
  {
    if |d| == 1 {
      OneByte(d[0]);
    } else if |d| == 2 {
      TwoBytes(d[0], d[1]);
    } else if |d| >= 3 {
      GroupRoundTrip(d[0], d[1], d[2]);
      SextetsRoundTrip(d[3..]);
      OctetsPrepend(First(d[0]), Second(d[0], d[1]), Third(d[1], d[2]), Fourth(d[2]), Sextets(d[3..]));
      assert d == [d[0], d[1], d[2]] + d[3..];
    }
  }

  lemma OctetsPrepend(w: Sextet, x: Sextet, y: Sextet, z: Sextet, rest: seq<Sextet>)
    ensures Octets([w, x, y, z] + rest) == [Upper(w, x), Middle(x, y), Lower(y, z)] + Octets(rest)
  {
    assert ([w, x, y, z] + rest)[4..] == rest;
  }

  lemma {:induction false} SextetsLength(d: seq<Byte>)
    ensures |Sextets(d)| == |d| / 3 * 4 + if |d| % 3 == 0 then 0 else |d| % 3 + 1
  {
    if |d| >= 3 {
      SextetsLength(d[3..]);
      assert |d| / 3 == |d[3..]| / 3 + 1 && |d| % 3 == |d[3..]| % 3;
    }
  }

  // Encoding

  function Symbols(s: seq<Sextet>, t: seq<Byte>): (r: seq<Byte>)
    requires |t| == 64
    ensures |r| == |s| && forall i :: 0 <= i < |r| ==> r[i] == t[s[i]]
  {
    seq(|s|, i requires 0 <= i < |s| => t[s[i]])
  }

  function Pad(n: nat, urlSafe: bool): seq<Byte> {
    if urlSafe || n % 3 == 0 then [] else if n % 3 == 1 then [PADDING, PADDING] else [PADDING]
  }

  function Encoded(d: seq<Byte>, urlSafe: bool): seq<Byte> {
    Symbols(Sextets(d), TableFor(urlSafe)) + Pad(|d|, urlSafe)
  }

  /** `encode_base64_size`. */
  function EncodeBase64Size(n: nat, urlSafe: bool): nat {
    if urlSafe then (n * 4 + 2) / 3 else (n + 2) / 3 * 4
  }

  lemma EncodedSize(d: seq<Byte>, urlSafe: bool)
    ensures |Encoded(d, urlSafe)| == EncodeBase64Size(|d|, urlSafe)
  {
    SextetsLength(d);
    var q, r := |d| / 3, |d| % 3;
    assert (|d| * 4 + 2) / 3 == q * 4 + (r * 4 + 2) / 3;
    assert (|d| + 2) / 3 == q + (r + 2) / 3;
    assert r == 0 || r == 1 || r == 2;
  }

  /** With padding, full groups of four; without, no padding at all. */
  lemma PaddedToFour(d: seq<Byte>)
    ensures |Encoded(d, false)| % 4 == 0 && |Encoded(d, false)| - |Sextets(d)| < 3
    ensures PADDING !in Encoded(d, true)
    ensures forall i :: |Sextets(d)| <= i < |Encoded(d, false)| ==> Encoded(d, false)[i] == '=' as int
  {
    SextetsLength(d);
    var q, r := |d| / 3, |d| % 3;
    assert r == 0 || r == 1 || r == 2;
    forall i | 0 <= i < |Sextets(d)| ensures TableFor(true)[Sextets(d)[i]] != PADDING {
      SymbolValue(Sextets(d)[i], true);
    }
  }

  method EncodeToBase64(data: seq<Byte>, urlSafe: bool) returns (out: seq<Byte>)
    ensures out == Encoded(data, urlSafe) && |out| == EncodeBase64Size(|data|, urlSafe)
  {
    out := EncodeSymbols(data, TableFor(urlSafe), urlSafe);
    EncodedSize(data, urlSafe);
  }

  method EncodeSymbols(data: seq<Byte>, t: seq<Byte>, urlSafe: bool) returns (out: seq<Byte>)
    requires |t| == 64
    ensures out == Symbols(Sextets(data), t) + Pad(|data|, urlSafe)
  {
    var pos: nat := 0;
    out := [];
    while pos + 2 < |data|
      invariant pos <= |data| && pos % 3 == 0
      invariant Symbols(Sextets(data), t) == out + Symbols(Sextets(data[pos..]), t)
    {
      GroupEncoded(data, pos, t);
      var group := [t[First(data[pos])], t[Second(data[pos], data[pos + 1])],
                    t[Third(data[pos + 1], data[pos + 2])], t[Fourth(data[pos + 2])]];
      ghost var rest := Symbols(Sextets(data[pos + 3..]), t);
      assert out + (group + rest) == (out + group) + rest;
      out := out + group;
      pos := pos + 3;
    }
    SameRemainder(|data|, pos);
    var tail := EncodeTail(data[pos..], t, urlSafe);
    out := out + tail;
  }

  /** The last one or two bytes, and the padding. */
  method EncodeTail(d: seq<Byte>, t: seq<Byte>, urlSafe: bool) returns (out: seq<Byte>)
    requires |t| == 64 && |d| < 3
    ensures out == Symbols(Sextets(d), t) + Pad(|d|, urlSafe)
  {
    out := [];
    if d != [] {
      out := [t[First(d[0])]];
      if |d| == 1 {
        out := out + [t[Second(d[0], 0)]];
        if !urlSafe {
          out := out + [PADDING];
        }
      } else {
        out := out + [t[Second(d[0], d[1])]] + [t[Third(d[1], 0)]];
      }
      if !urlSafe {
        out := out + [PADDING];
      }
    }
  }

  lemma SameRemainder(n: nat, pos: nat)
    requires pos <= n && pos % 3 == 0
    ensures n % 3 == (n - pos) % 3
  {
    assert n == 3 * (pos / 3) + (n - pos);
  }

  lemma GroupEncoded(d: seq<Byte>, p: nat, t: seq<Byte>)
    requires |t| == 64 && p + 2 < |d|
    ensures Symbols(Sextets(d[p..]), t) ==
              [t[First(d[p])], t[Second(d[p], d[p + 1])], t[Third(d[p + 1], d[p + 2])], t[Fourth(d[p + 2])]]
              + Symbols(Sextets(d[p + 3..]), t)
  {
    assert d[p..][3..] == d[p + 3..];
    SymbolsPrepend(First(d[p]), Second(d[p], d[p + 1]), Third(d[p + 1], d[p + 2]), Fourth(d[p + 2]), Sextets(d[p + 3..]), t);
  }

  lemma SymbolsPrepend(w: Sextet, x: Sextet, y: Sextet, z: Sextet, rest: seq<Sextet>, t: seq<Byte>)
    requires |t| == 64
    ensures Symbols([w, x, y, z] + rest, t) == [t[w], t[x], t[y], t[z]] + Symbols(rest, t)
  {
  }

  // Decoding

  /** The part in front of the first padding character. */
  function Body(s: seq<Byte>): (b: seq<Byte>)
    ensures |b| <= |s| && b == s[..|b|] && PADDING !in b && (|b| < |s| ==> s[|b|] == PADDING)
  {
    if s == [] || s[0] == PADDING then [] else [s[0]] + Body(s[1..])
  }

  ghost predicate Acceptable(s: seq<Byte>, urlSafe: bool) {
    (forall i :: 0 <= i < |Body(s)| ==> IsSymbol(Body(s)[i], urlSafe)) && |Body(s)| % 4 != 1
  }

  /** The values of symbols. */
  ghost function Values(s: seq<Byte>, urlSafe: bool): (v: seq<Sextet>)
    requires forall i :: 0 <= i < |s| ==> IsSymbol(s[i], urlSafe)
    ensures |v| == |s| && forall i :: 0 <= i < |v| ==> v[i] == BasisFor(urlSafe)[s[i]]
  {
    if s == [] then []
    else
      BasisKnows(s[|s| - 1], urlSafe);
      Values(s[..|s| - 1], urlSafe) + [BasisFor(urlSafe)[s[|s| - 1]]]
  }

  /** What an acceptable string decodes to. */
  ghost function Decoded(s: seq<Byte>, urlSafe: bool): Option<seq<Byte>> {
    if Acceptable(s, urlSafe) then Some(Octets(Values(Body(s), urlSafe))) else None
  }

  method DecodeBase64(data: seq<Byte>, urlSafe: bool) returns (r: Option<seq<Byte>>)
    ensures r == Decoded(data, urlSafe)
  {
    var len := ValidLength(data, urlSafe);
    if len.None? || len.value % 4 == 1 {
      return None;
    }
    var bytes := DecodeSymbols(Body(data), BasisFor(urlSafe), Values(Body(data), urlSafe));
    r := Some(bytes);
  }

  /** The number of symbols up to the padding, if all of them are known. */
  method ValidLength(data: seq<Byte>, urlSafe: bool) returns (len: Option<nat>)
    ensures len.Some? ==> len.value == |Body(data)|
    ensures len.Some? <==> forall i :: 0 <= i < |Body(data)| ==> IsSymbol(Body(data)[i], urlSafe)
  {
    var basis := BasisFor(urlSafe);
    var n: nat := 0;
    while n < |data| && data[n] != PADDING
      invariant n <= |Body(data)| && forall i :: 0 <= i < n ==> IsSymbol(data[i], urlSafe)
    {
      BasisKnows(data[n], urlSafe);
      if basis[data[n]] == INVALID {
        assert Body(data)[n] == data[n];
        return None;
      }
      n := n + 1;
    }
    len := Some(n);
  }

  /** The loop over the symbols; `v` are their values. */
  method DecodeSymbols(s: seq<Byte>, basis: seq<Byte>, ghost v: seq<Sextet>) returns (out: seq<Byte>)
    requires |basis| == 256 && |v| == |s| && forall i :: 0 <= i < |s| ==> basis[s[i]] == v[i]
    ensures out == Octets(v)
  {
    out := [];
    var pos: nat, len: nat := 0, |s|;
    while len > 3
      invariant pos + len == |s| && Octets(v) == out + Octets(v[pos..])
    {
      var group := Shifted(basis[s[pos]], basis[s[pos + 1]], basis[s[pos + 2]], basis[s[pos + 3]]);
      assert v[pos..][4..] == v[pos + 4..];
      out := out + group;
      pos, len := pos + 4, len - 4;
    }
    if len > 1 {
      out := out + [Upper(basis[s[pos]], basis[s[pos + 1]])];
    }
    if len > 2 {
      out := out + [Middle(basis[s[pos + 1]], basis[s[pos + 2]])];
    }
  }

  /** Three bytes of four values: shifted left, cut off at eight bits, and filled from the right. */
  method Shifted(w: Sextet, x: Sextet, y: Sextet, z: Sextet) returns (out: seq<Byte>)
    ensures out == [Upper(w, x), Middle(x, y), Lower(y, z)]
  {
    CutOff(w, x, y);
    out := [w * 4 % 256 + x / 16, x * 16 % 256 + y / 4, y * 64 % 256 + z];
  }

  lemma CutOff(w: Sextet, x: Sextet, y: Sextet)
    ensures w * 4 % 256 == w * 4 && x * 16 % 256 == x % 16 * 16 && y * 64 % 256 == y % 4 * 64
  {
    assert x * 16 == x / 16 * 256 + x % 16 * 16;
    assert y * 64 == y / 4 * 256 + y % 4 * 64;
  }

  lemma {:induction false} BodyOf(s: seq<Byte>, t: seq<Byte>)
    requires PADDING !in s && (t == [] || t[0] == PADDING)
    ensures Body(s + t) == s
  {
    if s == [] {
      assert s + t == t;
    } else {
      assert (s + t)[1..] == s[1..] + t;
      BodyOf(s[1..], t);
    }
  }

  lemma SymbolsRead(v: seq<Sextet>, urlSafe: bool)
    ensures var s := Symbols(v, TableFor(urlSafe));
            && PADDING !in s && (forall i :: 0 <= i < |s| ==> s[i] < 128 && IsSymbol(s[i], urlSafe))
            && Values(s, urlSafe) == v
  {
    var s := Symbols(v, TableFor(urlSafe));
    forall i | 0 <= i < |s| ensures BasisFor(urlSafe)[s[i]] == v[i] && s[i] < 128 && s[i] != PADDING && IsSymbol(s[i], urlSafe) {
      SymbolValue(v[i], urlSafe);
    }
  }

  /** Decoding undoes encoding, in either alphabet. */
  lemma RoundTrip(d: seq<Byte>, urlSafe: bool)
    ensures Decoded(Encoded(d, urlSafe), urlSafe) == Some(d)
    ensures forall i :: 0 <= i < |Encoded(d, urlSafe)| ==> Encoded(d, urlSafe)[i] < 128
  {
    var v := Sextets(d);
    SextetsLength(d);
    Padded(v, |d|, urlSafe);
    SextetsRoundTrip(d);
  }

  lemma Padded(v: seq<Sextet>, n: nat, urlSafe: bool)
    requires |v| % 4 != 1
    ensures var e := Symbols(v, TableFor(urlSafe)) + Pad(n, urlSafe);
            Decoded(e, urlSafe) == Some(Octets(v)) && forall i :: 0 <= i < |e| ==> e[i] < 128
  {
    var s := Symbols(v, TableFor(urlSafe));
    SymbolsRead(v, urlSafe);
    BodyOf(s, Pad(n, urlSafe));
  }
}
