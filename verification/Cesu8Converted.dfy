/** What cesu8.cpp makes of any bytes, well formed or not, read from their front. */
module Cesu8Converted {
  import opened Common
  import opened Cesu8

  /** How many of the first `n` bits of a byte are set before one that is not. */
  ghost function LeadingOnes(c: Byte, n: nat): nat {
    if n == 0 || c < 0x80 then 0 else 1 + LeadingOnes(c * 2 % 0x100, n - 1)
  }

  /** The kinds of bytes, as section 3 of RFC 3629 writes them: none for a character, one for a continuation,
      and as many as the sequence has bytes for one of two, three or four. The other bits are the number's. */
  lemma BytesByBits(c: Byte)
    ensures var ones := LeadingOnes(c, 8);
            && (c < 0x80 <==> ones == 0) && (IsContinuation(c) <==> ones == 1)
            && Announced(c) == (if 2 <= ones <= 4 then ones - 1 else 0)
            && (ones == 2 ==> c == 0xC0 + LeadBits(c)) && (ones == 3 ==> c == 0xE0 + LeadBits(c))
            && (ones == 4 ==> c == 0xF0 + LeadBits(c))
  {
    if c >= 0x80 {
      var d := c - 0x80;
      assert c * 2 % 0x100 == 2 * d;
      if d >= 0x40 {
        var e := d - 0x40;
        assert 2 * d * 2 % 0x100 == 4 * e;
        if e >= 0x20 {
          var f := e - 0x20;
          assert 4 * e * 2 % 0x100 == 8 * f;
          if f >= 0x10 {
            var g := f - 0x10;
            assert 8 * f * 2 % 0x100 == 16 * g;
            LeadingAt(16 * g, 4);
          } else {
            assert LeadingOnes(8 * f, 5) == 0;
          }
          assert LeadingOnes(4 * e, 6) == 1 + LeadingOnes(8 * f, 5);
        } else {
          assert LeadingOnes(4 * e, 6) == 0;
        }
        assert LeadingOnes(2 * d, 7) == 1 + LeadingOnes(4 * e, 6);
      } else {
        assert LeadingOnes(2 * d, 7) == 0;
      }
    }
  }

  lemma LeadingAt(c: Byte, n: nat)
    requires n > 0
    ensures LeadingOnes(c, n) == 0 <==> c < 0x80
  {
  }

  /** How many of the first `n` bytes, from the start on, are continuation bytes. */
  ghost function Following(s: seq<Byte>, n: nat): (m: nat)
    ensures m <= n && m <= |s| && (forall k :: 0 <= k < m ==> IsContinuation(s[k]))
    ensures m < n && m < |s| ==> !IsContinuation(s[m])
  {
    if n == 0 || s == [] || !IsContinuation(s[0]) then 0 else 1 + Following(s[1..], n - 1)
  }

  /** The bytes for a number: those of its code unit, of its two surrogates, or two for one that fits one byte. */
  ghost function Spelled(u: nat): seq<Byte> {
    if u < 0x80 then [0xC0 + u / 64, 0x80 + u % 64]
    else if u < 0x10000 then UnitBytes(u)
    else UnitsText(Utf16(0x10000 + (u - 0x10000) % 0x100000))
  }

  /** A leading byte with the continuation bytes that belong to it, or any other byte alone. */
  ghost function PieceLength(s: seq<Byte>): (n: nat)
    requires s != []
    ensures 0 < n <= |s|
  {
    1 + Following(s[1..], Announced(s[0]))
  }

  /** A character as it is; a sequence by its number; U+FFFD in UTF-8 for a byte that starts nothing and for
      a sequence that another byte interrupts; nothing for a sequence cut short by the end. */
  ghost function PieceOutput(s: seq<Byte>): seq<Byte>
    requires s != []
  {
    var n := PieceLength(s);
    if s[0] < 0x80 then [s[0]]
    else if Announced(s[0]) == 0 then Utf8(0xFFFD)
    else if n == Announced(s[0]) + 1 then Spelled(Bits(s[..n]))
    else if n == |s| then []
    else Utf8(0xFFFD)
  }

  /** What the pieces of an input become, one after the other. */
  ghost function Converted(s: seq<Byte>): seq<Byte>
    decreases |s|
  {
    if s == [] then [] else PieceOutput(s) + Converted(s[PieceLength(s)..])
  }

  lemma EmitSpells(u: nat)
    requires u < 0x200000
    ensures Emit(u) == Spelled(u)
  {
    if 0x10000 <= u < 0x110000 {
      assert 0x10000 + (u - 0x10000) % 0x100000 == u;
      PairOfSurrogates(u);
      UnitsOfPair(Utf16(u));
    } else if u >= 0x110000 {
      assert 0x10000 + (u - 0x10000) % 0x100000 == u - 0x100000;
      EmitBeyond(u);
    }
  }

  lemma {:induction false} FeedFront(st: State, c: Byte, rest: seq<Byte>)
    ensures Feed(st, [c] + rest) == Feed(Step(st, c), rest)
  {
    FeedFirst(st, c);
    FeedAppend(st, [c], rest);
  }

  /** A sequence that is not complete yet puts out nothing. */
  lemma {:induction false} FeedPartial(st: State, p: seq<Byte>)
    requires st.remaining == 0 && 0 < |p| <= Announced(p[0]) && Continuations(p, 1, |p|)
    ensures var t := Feed(st, p);
            t.remaining == Announced(p[0]) + 1 - |p| && t.uchar == Bits(p) && t.out == st.out
    decreases |p|
  {
    if |p| == 1 {
      assert p == [p[0]];
      FeedFirst(st, p[0]);
    } else {
      FeedPartial(st, p[..|p| - 1]);
    }
  }

  lemma FeedComplete(st: State, p: seq<Byte>)
    requires st.remaining == 0 && |p| > 1 && |p| == Announced(p[0]) + 1 && Continuations(p, 1, |p|)
    ensures Bits(p) < 0x200000 && Feed(st, p).remaining == 0 && Feed(st, p).out == st.out + Spelled(Bits(p))
  {
    var q := p[..|p| - 1];
    FeedPartial(st, q);
    BitsBound(p);
    LastByteEmits(Feed(st, q), p[|p| - 1], Bits(p));
    EmitSpells(Bits(p));
  }

  lemma ReplacementIsFFFD()
    ensures REPLACEMENT == Utf8(0xFFFD)
  {
  }

  /** An interrupted sequence leaves U+FFFD, and the byte that interrupts it counts as if nothing had begun. */
  lemma FeedInterrupted(st: State, p: seq<Byte>, c: Byte) returns (t: State)
    requires st.remaining == 0 && 0 < |p| <= Announced(p[0]) && Continuations(p, 1, |p|) && !IsContinuation(c)
    ensures t.remaining == 0 && t.out == st.out + Utf8(0xFFFD) && Step(Feed(st, p), c) == Step(t, c)
  {
    FeedPartial(st, p);
    ReplacementIsFFFD();
    var u := Feed(st, p);
    t := u.(remaining := 0, out := u.out + REPLACEMENT, count := u.count + 3);
  }

  lemma FeedPastInterruption(st: State, p: seq<Byte>, c: Byte, rest: seq<Byte>) returns (t: State)
    requires st.remaining == 0 && 0 < |p| <= Announced(p[0]) && Continuations(p, 1, |p|) && !IsContinuation(c)
    ensures t.remaining == 0 && t.out == st.out + Utf8(0xFFFD) && Feed(st, p + ([c] + rest)) == Feed(t, [c] + rest)
  {
    t := FeedInterrupted(st, p, c);
    FeedAppend(st, p, [c] + rest);
    FeedFront(Feed(st, p), c, rest);
    FeedFront(t, c, rest);
  }

  /** The first piece puts out what it should, and what follows is read as if nothing had come before. */
  lemma FeedPiece(st: State, s: seq<Byte>) returns (t: State)
    requires st.remaining == 0 && s != []
    ensures t.remaining == 0 && t.out == st.out + PieceOutput(s) && Feed(st, s).out == Feed(t, s[PieceLength(s)..]).out
  {
    var n := PieceLength(s);
    var p, rest := s[..n], s[n..];
    assert s == p + rest;
    if Announced(s[0]) == 0 {
      t := Step(st, s[0]);
      assert p == [s[0]];
      FeedFront(st, s[0], rest);
      ReplacementIsFFFD();
    } else {
      LeadAndFollowing(s, n - 1);
      if n == Announced(s[0]) + 1 {
        FeedComplete(st, p);
        FeedAppend(st, p, rest);
        t := Feed(st, p);
      } else if n == |s| {
        assert p == s;
        FeedPartial(st, s);
        t := st;
        assert st.out + [] == st.out;
      } else {
        assert rest[0] == s[1..][n - 1] && rest == [rest[0]] + rest[1..];
        t := FeedPastInterruption(st, p, rest[0], rest[1..]);
      }
    }
  }

  lemma {:induction false} FeedConverts(st: State, s: seq<Byte>)
    requires st.remaining == 0
    ensures Feed(st, s).out == st.out + Converted(s)
    decreases |s|
  {
    if s != [] {
      var t := FeedPiece(st, s);
      var rest := s[PieceLength(s)..];
      FeedConverts(t, rest);
      Associative(st.out, PieceOutput(s), Converted(rest));
    } else {
      assert st.out + [] == st.out;
    }
  }

  /** A leading byte and the continuation bytes behind it. */
  lemma LeadAndFollowing(s: seq<Byte>, m: nat)
    requires s != [] && m < |s| && forall k :: 0 <= k < m ==> IsContinuation(s[1..][k])
    ensures Continuations(s[..m + 1], 1, m + 1)
  {
    var p, rest := s[..m + 1], s[1..];
    forall k | 1 <= k < |p| ensures IsContinuation(p[k]) {
      assert p[k] == rest[k - 1];
    }
  }

  /** The output for any bytes, well formed or not. */
  lemma OutputIs(s: seq<Byte>)
    ensures After(s).out == Converted(s)
  {
    FeedFromStart(s);
    FeedConverts(State(0, 0, [], 0, 0), s);
    assert [] + Converted(s) == Converted(s);
  }
}
