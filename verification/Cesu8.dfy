/** cesu8.cpp: UTF-8 (section 3 of RFC 3629) to CESU-8 (Unicode Technical Report #26), and the length
    of the result. */
module Cesu8 {
  import opened Common

  // The code, byte by byte

  predicate IsContinuation(c: Byte) {
    0x80 <= c < 0xC0
  }

  /** How many continuation bytes a leading byte announces. */
  function Announced(c: Byte): (n: nat)
    ensures n <= 3
  {
    if 0xC0 <= c < 0xE0 then 1 else if 0xE0 <= c < 0xF0 then 2 else if 0xF0 <= c < 0xF8 then 3 else 0
  }

  /** The bits of the character in its leading byte. */
  function LeadBits(c: Byte): nat {
    match Announced(c)
    case 1 => c % 0x20
    case 2 => c % 0x10
    case 3 => c % 8
    case _ => 0
  }

  const REPLACEMENT: seq<Byte> := [0xEF, 0xBF, 0xBD]

  /** What a completed sequence puts out. */
  function Emit(u: nat): seq<Byte> {
    if u <= 0x7FF then [0xC0 + u / 64, 0x80 + u % 64]
    else if u <= 0xFFFF then [0xE0 + u / 4096, 0x80 + u / 64 % 64, 0x80 + u % 64]
    else
      [0xED, 0xA0 + (u / 65536 - 1) % 16, 0x80 + u / 1024 % 64,
       0xED, 0xB0 + u / 64 % 16, 0x80 + u % 64]
  }

  /** `utf_chars_remaining`, `current_uchar` and the output of `utf8_to_cesu8`; `current_char_len` and the
      count of `cesu8_len`. The two loops take the same branches. */
  datatype State = State(remaining: nat, uchar: nat, out: seq<Byte>, charLen: nat, count: nat)

  /** A byte that starts a character. */
  function Lead(st: State, c: Byte): State {
    if c < 0x80 then st.(out := st.out + [c], count := st.count + 1)
    else if Announced(c) > 0 then st.(remaining := Announced(c), uchar := LeadBits(c), charLen := 1)
    else st.(remaining := 0, out := st.out + REPLACEMENT, count := st.count + 3)
  }

  function Continue(st: State, c: Byte): State
    requires st.remaining > 0
  {
    var u, len := st.uchar * 64 + c % 64, st.charLen + 1;
    if st.remaining > 1 then st.(remaining := st.remaining - 1, uchar := u, charLen := len)
    else
      var len' := if len == 4 then 6 else len;
      State(0, u, st.out + Emit(u), len', st.count + len')
  }

  function Step(st: State, c: Byte): State {
    if st.remaining > 0 && IsContinuation(c) then Continue(st, c)
    else if st.remaining > 0 then Lead(st.(remaining := 0, out := st.out + REPLACEMENT, count := st.count + 3), c)
    else Lead(st, c)
  }

  function After(s: seq<Byte>): State {
    if s == [] then State(0, 0, [], 0, 0) else Step(After(s[..|s| - 1]), s[|s| - 1])
  }

  method Cesu8Len(utf8: seq<Byte>) returns (n: nat)
    ensures n == After(utf8).count
  {
    n := 0;
    var charLen: nat, remaining: nat := 0, 0;
    for k := 0 to |utf8|
      invariant (remaining, charLen, n) == (After(utf8[..k]).remaining, After(utf8[..k]).charLen, After(utf8[..k]).count)
    {
      var c := utf8[k];
      assert utf8[..k + 1][..k] == utf8[..k];
      if remaining > 0 {
        if IsContinuation(c) {
          charLen := charLen + 1;
          remaining := remaining - 1;
          if remaining == 0 {
            if charLen == 4 {
              charLen := 6;
            }
            n := n + charLen;
          }
          continue;
        }
        n := n + 3;
        remaining := 0;
      }
      if c < 0x80 {
        n := n + 1;
      } else if 0xC0 <= c < 0xE0 {
        charLen, remaining := 1, 1;
      } else if 0xE0 <= c < 0xF0 {
        charLen, remaining := 1, 2;
      } else if 0xF0 <= c < 0xF8 {
        charLen, remaining := 1, 3;
      } else {
        n := n + 3;
        remaining := 0;
      }
    }
    assert utf8[..|utf8|] == utf8;
  }

  method Utf8ToCesu8(utf8: seq<Byte>) returns (out: seq<Byte>)
    ensures out == After(utf8).out
  {
    out := [];
    var remaining: nat, u: nat := 0, 0;
    for k := 0 to |utf8|
      invariant (remaining, u, out) == (After(utf8[..k]).remaining, After(utf8[..k]).uchar, After(utf8[..k]).out)
    {
      var c := utf8[k];
      assert utf8[..k + 1][..k] == utf8[..k];
      if remaining > 0 {
        if IsContinuation(c) {
          u := u * 64 + c % 64;
          remaining := remaining - 1;
          if remaining == 0 {
            out := Append(out, u);
          }
          continue;
        }
        out := out + REPLACEMENT;
        remaining := 0;
      }
      if c < 0x80 {
        out := out + [c];
      } else if 0xC0 <= c < 0xE0 {
        u, remaining := c % 0x20, 1;
      } else if 0xE0 <= c < 0xF0 {
        u, remaining := c % 0x10, 2;
      } else if 0xF0 <= c < 0xF8 {
        u, remaining := c % 8, 3;
      } else {
        out := out + REPLACEMENT;
        remaining := 0;
      }
    }
    assert utf8[..|utf8|] == utf8;
  }

  method Append(out: seq<Byte>, u: nat) returns (all: seq<Byte>)
    ensures all == out + Emit(u)
  {
    if u <= 0x7FF {
      all := out + [0xC0 + u / 64, 0x80 + u % 64];
    } else if u <= 0xFFFF {
      all := out + [0xE0 + u / 4096, 0x80 + u / 64 % 64, 0x80 + u % 64];
    } else {
      all := out + [0xED, 0xA0 + (u / 65536 - 1) % 16, 0x80 + u / 1024 % 64];
      all := all + [0xED, 0xB0 + u / 64 % 16, 0x80 + u % 64];
    }
  }

  // Lengths

  /** The character that a leading byte and continuation bytes spell. */
  function Bits(s: seq<Byte>): nat
    requires s != []
  {
    if |s| == 1 then LeadBits(s[0]) else Bits(s[..|s| - 1]) * 64 + s[|s| - 1] % 64
  }

  ghost predicate Continuations(s: seq<Byte>, i: nat, j: nat)
    requires i <= j <= |s|
  {
    forall k :: i <= k < j ==> IsContinuation(s[k])
  }

  /** A sequence that starts at `i` and is still incomplete at the end of `s`. */
  ghost predicate Partial(s: seq<Byte>, i: nat) {
    i < |s| && Continuations(s, i + 1, |s|) && |s| - i <= Announced(s[i])
  }

  /** A complete sequence of three or four bytes at `i`, for a character that needs fewer. */
  ghost predicate Overlong(s: seq<Byte>, i: nat) {
    i < |s| &&
    (var n := Announced(s[i]) + 1;
     n >= 3 && i + n <= |s| && Continuations(s, i + 1, i + n) && Bits(s[i..i + n]) <= if n == 3 then 0x7FF else 0xFFFF)
  }

  /** The state inside a sequence. */
  ghost predicate Inside(s: seq<Byte>, i: nat) {
    var st := After(s);
    i < |s| && st.charLen == |s| - i && st.remaining + st.charLen == Announced(s[i]) + 1 && st.uchar == Bits(s[i..])
  }

  lemma {:induction false} PartialIsInside(s: seq<Byte>, i: nat)
    requires Partial(s, i)
    ensures Inside(s, i)
  {
    var p, c := s[..|s| - 1], s[|s| - 1];
    if i == |s| - 1 {
      assert s[i..] == [c];
    } else {
      assert Partial(p, i);
      PartialIsInside(p, i);
      assert s[i..][..|s[i..]| - 1] == p[i..];
    }
  }

  lemma {:induction false} InsideIsPartial(s: seq<Byte>)
    requires After(s).remaining > 0
    ensures After(s).charLen <= |s| && Partial(s, |s| - After(s).charLen)
  {
    var p, c := s[..|s| - 1], s[|s| - 1];
    if After(p).remaining > 0 && IsContinuation(c) {
      InsideIsPartial(p);
      PartialIsInside(p, |p| - After(p).charLen);
    }
  }

  /** The numbers that bits can spell. */
  lemma BitsBound(s: seq<Byte>)
    requires 0 < |s| <= 4 && |s| == Announced(s[0]) + 1
    ensures |s| == 2 ==> Bits(s) <= 0x7FF
    ensures |s| == 3 ==> Bits(s) <= 0xFFFF
    ensures |s| == 4 ==> Bits(s) <= 0x1FFFFF
  {
    assert |s| >= 2 ==> s[..|s| - 1][0] == s[0];
    assert |s| >= 3 ==> s[..|s| - 1][..|s| - 2] == s[..|s| - 2];
    assert |s| >= 4 ==> s[..|s| - 2][..|s| - 3] == s[..|s| - 3];
    assert |s| == 4 ==> Bits(s[..2]) == Bits(s[..1]) * 64 + s[1] % 64;
  }

  ghost predicate NoOverlong(s: seq<Byte>) {
    forall i :: !Overlong(s, i)
  }

  lemma OverlongBefore(s: seq<Byte>, i: nat)
    requires s != []
    ensures var p := s[..|s| - 1];
            Overlong(p, i) <==> Overlong(s, i) && i + Announced(s[i]) + 1 < |s|
  {
    var p := s[..|s| - 1];
    if i < |p| && i + Announced(s[i]) + 1 <= |p| {
      var n := Announced(s[i]) + 1;
      assert p[i..i + n] == s[i..i + n];
    }
  }

  /** The announced length is never below the length of the output, and above it iff the input holds
      an overlong form of three or four bytes. */
  lemma {:induction false} LengthBound(s: seq<Byte>)
    ensures After(s).count >= |After(s).out|
    ensures After(s).count == |After(s).out| <==> NoOverlong(s)
  {
    if s != [] {
      var p, c := s[..|s| - 1], s[|s| - 1];
      LengthBound(p);
      forall i: nat ensures Overlong(p, i) <==> Overlong(s, i) && i + Announced(s[i]) + 1 < |s| {
        OverlongBefore(s, i);
      }
      if After(p).remaining == 1 && IsContinuation(c) {
        Completed(s);
      } else {
        NotCompleted(s);
      }
    }
  }

  /** The sequence that the last byte completes. */
  lemma CompletedBits(s: seq<Byte>) returns (i: nat)
    requires s != [] && After(s[..|s| - 1]).remaining == 1 && IsContinuation(s[|s| - 1])
    ensures i + 2 <= |s| && i + After(s[..|s| - 1]).charLen + 1 == |s| && i + Announced(s[i]) + 1 == |s|
    ensures Continuations(s, i + 1, |s|) && After(s).uchar == Bits(s[i..])
  {
    var p := s[..|s| - 1];
    InsideIsPartial(p);
    i := |p| - After(p).charLen;
    PartialIsInside(p, i);
    assert s[i..][..|s[i..]| - 1] == p[i..];
  }

  lemma OnlyOneEnds(s: seq<Byte>, i: nat, j: nat)
    requires i < |s| && Announced(s[i]) > 0 && i + Announced(s[i]) + 1 == |s| && Continuations(s, i + 1, |s|)
    requires Overlong(s, j) && j + Announced(s[j]) + 1 >= |s|
    ensures j == i
  {
    assert !IsContinuation(s[i]) && !IsContinuation(s[j]);
  }

  /** A byte that completes a sequence counts for more than it puts out iff the sequence is overlong. */
  lemma Completed(s: seq<Byte>)
    requires s != [] && After(s[..|s| - 1]).remaining == 1 && IsContinuation(s[|s| - 1])
    ensures var p, i := s[..|s| - 1], |s| - 1 - After(s[..|s| - 1]).charLen;
            var more := (After(s).count - After(p).count) - (|After(s).out| - |After(p).out|);
            && i >= 0 && i + Announced(s[i]) + 1 == |s| && more >= 0 && (more == 0 <==> !Overlong(s, i))
            && forall j: nat :: Overlong(s, j) && j + Announced(s[j]) + 1 >= |s| ==> j == i
  {
    var i := CompletedBits(s);
    BitsBound(s[i..]);
    assert s[i..|s|] == s[i..];
    forall j: nat | Overlong(s, j) && j + Announced(s[j]) + 1 >= |s| ensures j == i {
      OnlyOneEnds(s, i, j);
    }
  }

  lemma NotCompleted(s: seq<Byte>)
    requires s != [] && !(After(s[..|s| - 1]).remaining == 1 && IsContinuation(s[|s| - 1]))
    ensures var p := s[..|s| - 1];
            && After(s).count - After(p).count == |After(s).out| - |After(p).out|
            && forall j: nat :: Overlong(s, j) ==> j + Announced(s[j]) + 1 < |s|
  {
    var p := s[..|s| - 1];
    forall j: nat | Overlong(s, j) ensures j + Announced(s[j]) + 1 < |s| {
      if j + Announced(s[j]) + 1 == |s| {
        assert Partial(p, j);
        PartialIsInside(p, j);
      }
    }
  }

  // Meaning: Unicode scalar values

  predicate IsScalar(c: int) {
    0 <= c < 0xD800 || 0xE000 <= c < 0x110000
  }

  type Scalar = c: int | 0 <= c < 0xD800 || 0xE000 <= c < 0x110000

  /** Section 3 of RFC 3629. */
  function Utf8(c: Scalar): seq<Byte> {
    if c < 0x80 then [c]
    else if c < 0x800 then [0xC0 + c / 64, 0x80 + c % 64]
    else if c < 0x10000 then [0xE0 + c / 4096, 0x80 + c / 64 % 64, 0x80 + c % 64]
    else FourBytes(c)
  }

  /** Four bytes hold numbers beyond Unicode as well. */
  function FourBytes(c: int): seq<Byte>
    requires 0x10000 <= c < 0x200000
  {
    [0xF0 + c / 262144, 0x80 + c / 4096 % 64, 0x80 + c / 64 % 64, 0x80 + c % 64]
  }

  function Utf8Text(cs: seq<Scalar>): seq<Byte> {
    if cs == [] then [] else Utf8(cs[0]) + Utf8Text(cs[1..])
  }

  type Unit = u: int | 0 <= u < 0x10000

  /** The UTF-16 code units of a character. */
  function Utf16(c: Scalar): seq<Unit> {
    if c < 0x10000 then [c] else [0xD800 + (c - 0x10000) / 0x400, 0xDC00 + (c - 0x10000) % 0x400]
  }

  function Utf16Text(cs: seq<Scalar>): seq<Unit> {
    if cs == [] then [] else Utf16(cs[0]) + Utf16Text(cs[1..])
  }

  /** One code unit in CESU-8. */
  function UnitBytes(u: Unit): seq<Byte> {
    if u < 0x80 then [u]
    else if u < 0x800 then [0xC0 + u / 64, 0x80 + u % 64]
    else [0xE0 + u / 4096, 0x80 + u / 64 % 64, 0x80 + u % 64]
  }

  function UnitsText(us: seq<Unit>): seq<Byte> {
    if us == [] then [] else UnitBytes(us[0]) + UnitsText(us[1..])
  }

  lemma HighSurrogate(c: int)
    requires 0x10000 <= c < 0x110000
    ensures var h := 0xD800 + (c - 0x10000) / 0x400;
            0xD800 <= h < 0xDC00 && h / 4096 == 13 && h / 64 % 64 == 0x20 + (c / 65536 - 1) % 16 && h % 64 == c / 1024 % 64
  {
    var q := c / 1024;
    var h := 0xD800 + (c - 0x10000) / 0x400;
    assert h == 64 * 863 + q;
    assert h / 64 == 863 + q / 64;
    assert q / 64 == c / 65536;
  }

  lemma LowSurrogate(c: int)
    requires 0x10000 <= c < 0x110000
    ensures var l := 0xDC00 + (c - 0x10000) % 0x400;
            0xDC00 <= l < 0xE000 && l / 4096 == 13 && l / 64 % 64 == 0x30 + c / 64 % 16 && l % 64 == c % 64
  {
    var r := c % 0x400;
    var l := 0xDC00 + (c - 0x10000) % 0x400;
    assert l == 64 * 880 + r;
    assert l / 64 == 880 + r / 64;
    assert c == c / 0x400 * 0x400 + r;
    assert c / 64 == c / 0x400 * 16 + r / 64;
  }

  /** A character that needs four bytes in UTF-8 leaves as a pair of surrogates. */
  lemma PairOfSurrogates(c: Scalar)
    requires c >= 0x10000
    ensures Emit(c) == UnitBytes(Utf16(c)[0]) + UnitBytes(Utf16(c)[1])
  {
    HighSurrogate(c);
    LowSurrogate(c);
  }

  /** The loop, from some state on. */
  function Feed(st: State, s: seq<Byte>): State {
    if s == [] then st else Step(Feed(st, s[..|s| - 1]), s[|s| - 1])
  }

  lemma {:induction false} FeedAppend(st: State, a: seq<Byte>, b: seq<Byte>)
    ensures Feed(st, a + b) == Feed(Feed(st, a), b)
  {
    if b == [] {
      assert a + b == a;
    } else {
      FeedAppend(st, a, b[..|b| - 1]);
      assert (a + b)[..|a + b| - 1] == a + b[..|b| - 1];
    }
  }

  lemma {:induction false} FeedFromStart(s: seq<Byte>)
    ensures After(s) == Feed(State(0, 0, [], 0, 0), s)
  {
    if s != [] {
      FeedFromStart(s[..|s| - 1]);
    }
  }

  /** A leading byte of `n + 1` and its `n` continuation bytes, one by one. */
  lemma FeedFirst(st: State, c: Byte)
    ensures Feed(st, [c]) == Step(st, c)
  {
    assert [c][..0] == [];
  }

  lemma FeedTwo(st: State, b: seq<Byte>)
    requires |b| == 2
    ensures Feed(st, b) == Step(Step(st, b[0]), b[1])
  {
    assert b[..1] == [b[0]];
    FeedFirst(st, b[0]);
  }

  lemma FeedThree(st: State, b: seq<Byte>)
    requires |b| == 3
    ensures Feed(st, b) == Step(Step(Step(st, b[0]), b[1]), b[2])
  {
    FeedTwo(st, b[..2]);
  }

  lemma FeedFour(st: State, b: seq<Byte>)
    requires |b| == 4
    ensures Feed(st, b) == Step(Step(Step(Step(st, b[0]), b[1]), b[2]), b[3])
  {
    FeedThree(st, b[..3]);
  }

  /** The byte that carries the last six bits of `v`, in the middle of a sequence and at its end. */
  lemma MoreBits(st: State, v: nat)
    requires st.remaining > 1 && st.uchar == v / 64
    ensures Step(st, 0x80 + v % 64) == st.(remaining := st.remaining - 1, uchar := v, charLen := st.charLen + 1)
  {
  }

  lemma LastBits(st: State, v: nat)
    requires st.remaining == 1 && st.uchar == v / 64
    ensures var after := Step(st, 0x80 + v % 64);
            after.remaining == 0 && after.uchar == v && after.out == st.out + Emit(v)
  {
    var c := 0x80 + v % 64;
    assert c % 64 == v % 64;
    assert st.uchar * 64 + c % 64 == v;
  }

  lemma FirstBits(st: State, c: Byte)
    requires st.remaining == 0 && Announced(c) > 0
    ensures Step(st, c) == st.(remaining := Announced(c), uchar := LeadBits(c), charLen := 1)
  {
  }

  /** A complete sequence puts out its character. */
  lemma TwoConverted(st: State, c: Scalar)
    requires st.remaining == 0 && 0x80 <= c < 0x800
    ensures Feed(st, Utf8(c)).remaining == 0 && Feed(st, Utf8(c)).out == st.out + Emit(c)
  {
    FeedTwo(st, Utf8(c));
    FirstBits(st, 0xC0 + c / 64);
    LastBits(Step(st, 0xC0 + c / 64), c);
  }

  lemma ThreeConverted(st: State, c: Scalar)
    requires st.remaining == 0 && 0x800 <= c < 0x10000
    ensures Feed(st, Utf8(c)).remaining == 0 && Feed(st, Utf8(c)).out == st.out + Emit(c)
  {
    FeedThree(st, Utf8(c));
    FirstTwo(st, c);
    LastBits(Step(Step(st, 0xE0 + c / 4096), 0x80 + c / 64 % 64), c);
  }

  lemma FirstTwo(st: State, c: int)
    requires st.remaining == 0 && 0x800 <= c < 0x10000
    ensures var st2 := Step(Step(st, 0xE0 + c / 4096), 0x80 + c / 64 % 64);
            st2.remaining == 1 && st2.uchar == c / 64 && st2.out == st.out
  {
    FirstBits(st, 0xE0 + c / 4096);
    assert c / 4096 == c / 64 / 64;
    MoreBits(Step(st, 0xE0 + c / 4096), c / 64);
  }

  lemma FourConverted(st: State, c: int)
    requires st.remaining == 0 && 0x10000 <= c < 0x200000
    ensures var after := Feed(st, FourBytes(c));
            after.remaining == 0 && after.uchar == c && after.out == st.out + Emit(c)
  {
    FeedFour(st, FourBytes(c));
    FirstThree(st, c);
    LastBits(Step(Step(Step(st, 0xF0 + c / 262144), 0x80 + c / 4096 % 64), 0x80 + c / 64 % 64), c);
  }

  lemma FirstThree(st: State, c: int)
    requires st.remaining == 0 && 0x10000 <= c < 0x200000
    ensures var st3 := Step(Step(Step(st, 0xF0 + c / 262144), 0x80 + c / 4096 % 64), 0x80 + c / 64 % 64);
            st3.remaining == 1 && st3.uchar == c / 64 && st3.out == st.out
  {
    var st1 := Step(st, 0xF0 + c / 262144);
    FirstBits(st, 0xF0 + c / 262144);
    assert c / 262144 == c / 4096 / 64 && c / 4096 == c / 64 / 64;
    MoreBits(st1, c / 4096);
    MoreBits(Step(st1, 0x80 + c / 4096 % 64), c / 64);
  }

  lemma OneUnit(u: Unit)
    ensures UnitsText([u]) == UnitBytes(u)
  {
    assert [u][1..] == [];
    assert UnitBytes(u) + [] == UnitBytes(u);
  }

  /** One character of the input becomes its code units in the output. */
  lemma CharacterConverted(st: State, c: Scalar)
    requires st.remaining == 0
    ensures Feed(st, Utf8(c)).remaining == 0 && Feed(st, Utf8(c)).out == st.out + UnitsText(Utf16(c))
  {
    if c < 0x10000 {
      OneUnit(c);
    }
    if c < 0x80 {
      FeedFirst(st, c);
    } else if c < 0x800 {
      TwoConverted(st, c);
    } else if c < 0x10000 {
      ThreeConverted(st, c);
    } else {
      FourConverted(st, c);
      PairOfSurrogates(c);
      UnitsOfPair(Utf16(c));
    }
  }

  lemma {:induction false} UnitsAppend(a: seq<Unit>, b: seq<Unit>)
    ensures UnitsText(a + b) == UnitsText(a) + UnitsText(b)
  {
    if a == [] {
      assert a + b == b;
    } else {
      assert (a + b)[1..] == a[1..] + b;
      UnitsAppend(a[1..], b);
    }
  }

  lemma {:induction false} TextConverted(st: State, cs: seq<Scalar>)
    requires st.remaining == 0
    ensures Feed(st, Utf8Text(cs)).remaining == 0
    ensures Feed(st, Utf8Text(cs)).out == st.out + UnitsText(Utf16Text(cs))
    decreases |cs|
  {
    if cs != [] {
      var b, rest := Utf8(cs[0]), cs[1..];
      CharacterConverted(st, cs[0]);
      FeedAppend(st, b, Utf8Text(rest));
      TextConverted(Feed(st, b), rest);
      UnitsAppend(Utf16(cs[0]), Utf16Text(rest));
    }
  }

  // A reader of CESU-8

  /** The code units that bytes spell, overlong forms included; nothing for a sequence that is cut short
      or a byte that starts none. */
  function ReadUnits(s: seq<Byte>): Option<seq<Unit>> {
    if s == [] then Some([])
    else
      var n := if s[0] < 0x80 then 1 else Announced(s[0]) + 1;
      if n > 3 || (n == 1 && s[0] >= 0x80) || |s| < n then None
      else if !(forall k :: 1 <= k < n ==> IsContinuation(s[k])) then None
      else
        match ReadUnits(s[n..])
        case None => None
        case Some(us) => Some([ReadUnit(s[..n])] + us)
  }

  function ReadUnit(s: seq<Byte>): Unit
    requires 1 <= |s| <= 3
  {
    if |s| == 1 then s[0]
    else if |s| == 2 then Six(s[0] % 32, s[1])
    else Six(Six(s[0] % 16, s[1]), s[2])
  }

  /** Six more bits. */
  function Six(high: int, c: Byte): int {
    high * 64 + c % 64
  }

  function Joined(high: int, low: int): int {
    0x10000 + (high - 0xD800) * 0x400 + (low - 0xDC00)
  }

  /** The characters that code units spell; nothing for a surrogate without its partner. */
  function ReadUtf16(us: seq<Unit>): Option<seq<Scalar>> {
    if us == [] then Some([])
    else if IsScalar(us[0]) then
      match ReadUtf16(us[1..])
      case None => None
      case Some(cs) => Some([us[0]] + cs)
    else if |us| >= 2 && us[0] < 0xDC00 && 0xDC00 <= us[1] < 0xE000 then
      match ReadUtf16(us[2..])
      case None => None
      case Some(cs) => Some([Joined(us[0], us[1])] + cs)
    else None
  }

  /** The bytes of one code unit, perhaps more than it needs. */
  predicate IsUnit(s: seq<Byte>) {
    && 1 <= |s| <= 3 && |s| == (if s[0] < 0x80 then 1 else Announced(s[0]) + 1) && (|s| == 1 ==> s[0] < 0x80)
    && forall k :: 1 <= k < |s| ==> IsContinuation(s[k])
  }

  lemma UnitRoundTrip(u: Unit)
    ensures var b := UnitBytes(u);
            IsUnit(b) && ReadUnit(b) == u
  {
    if 0x80 <= u < 0x800 {
      TwoByteUnit(u);
    } else if u >= 0x800 {
      ThreeByteUnit(u);
    }
  }

  lemma TwoByteUnit(u: Unit)
    requires 0x80 <= u < 0x800
    ensures Six((0xC0 + u / 64) % 32, 0x80 + u % 64) == u
  {
    SixMore(u);
    assert (0xC0 + u / 64) % 32 == u / 64;
  }

  lemma ThreeByteUnit(u: Unit)
    requires 0x800 <= u
    ensures Six(Six((0xE0 + u / 4096) % 16, 0x80 + u / 64 % 64), 0x80 + u % 64) == u
  {
    SixMore(u);
    SixMore(u / 64);
    assert u / 64 / 64 == u / 4096;
    assert (0xE0 + u / 4096) % 16 == u / 4096;
  }

  lemma SixMore(u: nat)
    ensures Six(u / 64, 0x80 + u % 64) == u
  {
  }

  lemma UnitRead(u: Unit, rest: seq<Byte>)
    requires ReadUnits(rest).Some?
    ensures ReadUnits(UnitBytes(u) + rest) == Some([u] + ReadUnits(rest).value)
  {
    UnitRoundTrip(u);
    var b := UnitBytes(u);
    assert (b + rest)[..|b|] == b && (b + rest)[|b|..] == rest;
    forall k | 1 <= k < |b| ensures IsContinuation((b + rest)[k]) {
      assert (b + rest)[k] == b[k];
    }
  }

  lemma {:induction false} UnitsRead(us: seq<Unit>)
    ensures ReadUnits(UnitsText(us)) == Some(us)
  {
    if us != [] {
      var rest := UnitsText(us[1..]);
      UnitsRead(us[1..]);
      UnitRead(us[0], rest);
      assert [us[0]] + us[1..] == us;
    }
  }

  lemma {:induction false} Utf16Read(cs: seq<Scalar>)
    ensures ReadUtf16(Utf16Text(cs)) == Some(cs)
  {
    if cs != [] {
      Utf16Read(cs[1..]);
      CharacterRead(cs[0], Utf16Text(cs[1..]));
      assert [cs[0]] + cs[1..] == cs;
    }
  }

  lemma CharacterRead(c: Scalar, rest: seq<Unit>)
    requires ReadUtf16(rest).Some?
    ensures ReadUtf16(Utf16(c) + rest) == Some([c] + ReadUtf16(rest).value)
  {
    var us := Utf16(c);
    assert (us + rest)[|us|..] == rest;
    if c >= 0x10000 {
      assert Joined(us[0], us[1]) == c;
    }
  }

  /** The characters read from the output are those of the input. */
  lemma RoundTrip(cs: seq<Scalar>)
    ensures After(Utf8Text(cs)).out == UnitsText(Utf16Text(cs))
    ensures ReadUnits(After(Utf8Text(cs)).out) == Some(Utf16Text(cs)) && ReadUtf16(Utf16Text(cs)) == Some(cs)
  {
    FeedFromStart(Utf8Text(cs));
    TextConverted(State(0, 0, [], 0, 0), cs);
    UnitsRead(Utf16Text(cs));
    Utf16Read(cs);
  }

  // Any input, well formed or not

  function Flat(units: seq<seq<Byte>>): seq<Byte> {
    if units == [] then [] else units[0] + Flat(units[1..])
  }

  ghost predicate Spells(units: seq<seq<Byte>>, s: seq<Byte>) {
    Flat(units) == s && forall i :: 0 <= i < |units| ==> IsUnit(units[i])
  }

  /** A sequence of code units. */
  ghost predicate IsText(s: seq<Byte>) {
    exists units :: Spells(units, s)
  }

  lemma {:induction false} FlatAppend(a: seq<seq<Byte>>, b: seq<seq<Byte>>)
    ensures Flat(a + b) == Flat(a) + Flat(b)
  {
    if a == [] {
      assert a + b == b;
    } else {
      FlatAppend(a[1..], b);
      assert (a + b)[1..] == a[1..] + b;
      Associative(a[0], Flat(a[1..]), Flat(b));
    }
  }

  lemma Associative(a: seq<Byte>, b: seq<Byte>, c: seq<Byte>)
    ensures a + (b + c) == (a + b) + c
  {
  }

  lemma TextAppend(s: seq<Byte>, t: seq<Byte>)
    requires IsText(s) && IsText(t)
    ensures IsText(s + t)
  {
    var a :| Spells(a, s);
    var b :| Spells(b, t);
    FlatAppend(a, b);
    assert Spells(a + b, s + t);
  }

  lemma UnitIsText(b: seq<Byte>)
    requires IsUnit(b)
    ensures IsText(b)
  {
    assert [b][1..] == [];
    assert b + [] == b;
    assert Spells([b], b);
  }

  lemma EmitIsText(u: nat)
    ensures IsText(Emit(u))
  {
    var e := Emit(u);
    if u <= 0xFFFF {
      UnitIsText(e);
    } else {
      UnitIsText(e[..3]);
      UnitIsText(e[3..]);
      TextAppend(e[..3], e[3..]);
      assert e == e[..3] + e[3..];
    }
  }

  lemma LeadKeepsText(st: State, c: Byte)
    requires IsText(st.out)
    ensures IsText(Lead(st, c).out)
  {
    if c < 0x80 {
      UnitIsText([c]);
      TextAppend(st.out, [c]);
    } else {
      UnitIsText(REPLACEMENT);
      TextAppend(st.out, REPLACEMENT);
    }
  }

  lemma StepKeepsText(st: State, c: Byte)
    requires IsText(st.out)
    ensures IsText(Step(st, c).out)
  {
    if st.remaining > 0 && IsContinuation(c) {
      var u := st.uchar * 64 + c % 64;
      EmitIsText(u);
      TextAppend(st.out, Emit(u));
    } else if st.remaining > 0 {
      UnitIsText(REPLACEMENT);
      TextAppend(st.out, REPLACEMENT);
      LeadKeepsText(st.(remaining := 0, out := st.out + REPLACEMENT, count := st.count + 3), c);
    } else {
      LeadKeepsText(st, c);
    }
  }

  lemma {:induction false} OutputIsText(s: seq<Byte>)
    ensures IsText(After(s).out)
  {
    if s == [] {
      assert Spells([], []);
    } else {
      OutputIsText(s[..|s| - 1]);
      StepKeepsText(After(s[..|s| - 1]), s[|s| - 1]);
    }
  }

  lemma UnitThenRest(b: seq<Byte>, rest: seq<Byte>)
    requires IsUnit(b) && ReadUnits(rest).Some?
    ensures ReadUnits(b + rest).Some?
  {
    var s := b + rest;
    assert s[0] == b[0] && s[|b|..] == rest;
    forall k | 1 <= k < |b| ensures IsContinuation(s[k]) {
      assert s[k] == b[k];
    }
  }

  lemma {:induction false} FlatReads(units: seq<seq<Byte>>)
    requires forall i :: 0 <= i < |units| ==> IsUnit(units[i])
    ensures ReadUnits(Flat(units)).Some?
  {
    if units != [] {
      FlatReads(units[1..]);
      UnitThenRest(units[0], Flat(units[1..]));
    }
  }

  /** A reader that takes overlong forms reads the output for any bytes at all. */
  lemma AlwaysReads(s: seq<Byte>)
    ensures ReadUnits(After(s).out).Some?
  {
    OutputIsText(s);
    var units :| Spells(units, After(s).out);
    FlatReads(units);
  }

  // When the output is CESU-8

  /** Exactly the bytes that some code units have in CESU-8. */
  ghost predicate IsCesu8(out: seq<Byte>) {
    exists us :: out == UnitsText(us)
  }

  /** A complete sequence at `i` spells a number that fits one byte. */
  ghost predicate SpellsAscii(s: seq<Byte>, i: nat) {
    i < |s| && Announced(s[i]) > 0 &&
    (var n := Announced(s[i]) + 1;
     i + n <= |s| && Continuations(s, i + 1, i + n) && Bits(s[i..i + n]) < 0x80)
  }

  /** A byte that only overlong forms have. */
  ghost predicate HasStray(s: seq<Byte>) {
    exists k :: 0 <= k < |s| && (s[k] == 0xC0 || s[k] == 0xC1)
  }

  lemma {:induction false} Cesu8HasNoStray(us: seq<Unit>)
    ensures !HasStray(UnitsText(us))
  {
    if us != [] {
      Cesu8HasNoStray(us[1..]);
    }
  }

  lemma OutputGrows(s: seq<Byte>)
    requires s != []
    ensures After(s[..|s| - 1]).out <= After(s).out
  {
  }

  lemma LastByteEmits(st: State, c: Byte, u: nat)
    requires st.remaining == 1 && IsContinuation(c) && u == st.uchar * 64 + c % 64
    ensures Step(st, c).out == st.out + Emit(u)
  {
  }

  lemma BitsOfLonger(s: seq<Byte>, i: nat)
    requires i + 2 <= |s|
    ensures Bits(s[i..]) == Bits(s[..|s| - 1][i..]) * 64 + s[|s| - 1] % 64
  {
    assert s[i..][..|s[i..]| - 1] == s[..|s| - 1][i..];
  }

  /** The sequence that ends with `s` is put out. */
  lemma CompletedAt(s: seq<Byte>, i: nat)
    requires i < |s| && Announced(s[i]) > 0 && i + Announced(s[i]) + 1 == |s| && Continuations(s, i + 1, |s|)
    ensures After(s).out == After(s[..|s| - 1]).out + Emit(Bits(s[i..]))
  {
    var p := s[..|s| - 1];
    assert Partial(p, i);
    PartialIsInside(p, i);
    BitsOfLonger(s, i);
    LastByteEmits(After(p), s[|s| - 1], Bits(s[i..]));
  }

  lemma {:induction false} AsciiLeavesStray(s: seq<Byte>, i: nat)
    requires SpellsAscii(s, i)
    ensures HasStray(After(s).out)
  {
    var p, n := s[..|s| - 1], Announced(s[i]) + 1;
    if i + n == |s| {
      assert s[i..i + n] == s[i..];
      CompletedAt(s, i);
      assert After(s).out[|After(p).out|] == Emit(Bits(s[i..]))[0];
    } else {
      assert p[i..i + n] == s[i..i + n];
      AsciiLeavesStray(p, i);
      OutputGrows(s);
      var k :| 0 <= k < |After(p).out| && (After(p).out[k] == 0xC0 || After(p).out[k] == 0xC1);
      assert After(s).out[k] == After(p).out[k];
    }
  }

  lemma Cesu8Append(a: seq<Byte>, us: seq<Unit>)
    requires IsCesu8(a)
    ensures IsCesu8(a + UnitsText(us))
  {
    var vs :| a == UnitsText(vs);
    UnitsAppend(vs, us);
  }

  lemma UnitAppended(a: seq<Byte>, u: Unit)
    requires IsCesu8(a)
    ensures IsCesu8(a + UnitBytes(u))
  {
    OneUnit(u);
    Cesu8Append(a, [u]);
  }

  lemma EmittedAppended(a: seq<Byte>, u: nat)
    requires IsCesu8(a) && 0x80 <= u < 0x200000
    ensures IsCesu8(a + Emit(u))
  {
    if u < 0x10000 {
      UnitAppended(a, u);
    } else if u < 0x110000 {
      PairOfSurrogates(u);
      UnitsOfPair(Utf16(u));
      Cesu8Append(a, Utf16(u));
    } else {
      EmitBeyond(u);
      Cesu8Append(a, Utf16(u - 0x100000));
    }
  }

  lemma LeadKeepsCesu8(st: State, c: Byte)
    requires IsCesu8(st.out)
    ensures IsCesu8(Lead(st, c).out)
  {
    if c < 0x80 {
      UnitAppended(st.out, c);
    } else {
      UnitAppended(st.out, 0xFFFD);
      assert UnitBytes(0xFFFD) == REPLACEMENT;
    }
  }

  lemma StepKeepsCesu8(st: State, c: Byte)
    requires IsCesu8(st.out) && !(st.remaining == 1 && IsContinuation(c))
    ensures IsCesu8(Step(st, c).out)
  {
    if st.remaining > 0 && !IsContinuation(c) {
      UnitAppended(st.out, 0xFFFD);
      assert UnitBytes(0xFFFD) == REPLACEMENT;
      LeadKeepsCesu8(st.(remaining := 0, out := st.out + REPLACEMENT, count := st.count + 3), c);
    } else if st.remaining == 0 {
      LeadKeepsCesu8(st, c);
    }
  }

  lemma AsciiBefore(s: seq<Byte>, i: nat)
    requires s != [] && SpellsAscii(s[..|s| - 1], i)
    ensures SpellsAscii(s, i)
  {
    var p, n := s[..|s| - 1], Announced(s[i]) + 1;
    assert p[i..i + n] == s[i..i + n];
  }

  lemma LargerThanAscii(s: seq<Byte>, i: nat)
    requires i + 2 <= |s| && i + Announced(s[i]) + 1 == |s| && Continuations(s, i + 1, |s|) && !SpellsAscii(s, i)
    ensures 0x80 <= Bits(s[i..]) < 0x200000
  {
    assert s[i..|s|] == s[i..];
    BitsBound(s[i..]);
  }

  lemma CompletionKeepsCesu8(s: seq<Byte>, i: nat)
    requires i + 2 <= |s| && i + Announced(s[i]) + 1 == |s| && Continuations(s, i + 1, |s|) && !SpellsAscii(s, i)
    requires IsCesu8(After(s[..|s| - 1]).out)
    ensures IsCesu8(After(s).out)
  {
    LargerThanAscii(s, i);
    CompletedAt(s, i);
    EmittedAppended(After(s[..|s| - 1]).out, Bits(s[i..]));
  }

  lemma {:induction false} NoAsciiNoStray(s: seq<Byte>)
    requires forall i :: !SpellsAscii(s, i)
    ensures IsCesu8(After(s).out)
  {
    if s == [] {
      assert UnitsText([]) == [];
    } else {
      var p, c := s[..|s| - 1], s[|s| - 1];
      forall i: nat ensures !SpellsAscii(p, i) {
        if SpellsAscii(p, i) {
          AsciiBefore(s, i);
        }
      }
      NoAsciiNoStray(p);
      if After(p).remaining == 1 && IsContinuation(c) {
        var i := CompletedBits(s);
        CompletionKeepsCesu8(s, i);
      } else {
        StepKeepsCesu8(After(p), c);
      }
    }
  }

  /** The output is CESU-8 iff no complete sequence of the input spells a number below 0x80: such a number
      leaves in two bytes, which CESU-8 does not allow. */
  lemma Cesu8Iff(s: seq<Byte>)
    ensures IsCesu8(After(s).out) <==> forall i :: !SpellsAscii(s, i)
  {
    if i: nat :| SpellsAscii(s, i) {
      AsciiLeavesStray(s, i);
      if us :| After(s).out == UnitsText(us) {
        Cesu8HasNoStray(us);
      }
    } else {
      NoAsciiNoStray(s);
    }
  }

  /** The two bytes `C0 80` leave as they are. */
  lemma OverlongStays()
    ensures After([0xC0, 0x80]).out == [0xC0, 0x80] && !IsCesu8([0xC0, 0x80])
  {
    var s: seq<Byte> := [0xC0, 0x80];
    assert s[0..] == s && s[..1] == [0xC0];
    assert Bits([0xC0]) == 0 && Bits(s) == 0;
    CompletedAt(s, 0);
    assert After(s[..1][..0]).out == [];
    assert After([0xC0]).out == [];
    assert s[0..2] == s;
    assert SpellsAscii(s, 0);
    Cesu8Iff(s);
  }

  /** Four bytes that spell a number beyond Unicode, up to that of `F7 BF BF BF`, are converted like the
      others, and only the last twenty bits of the number count. */
  lemma BeyondUnicode(c: int)
    requires 0x110000 <= c < 0x200000
    ensures After(FourBytes(c)).uchar == c
    ensures After(FourBytes(c)).out == UnitsText(Utf16(c - 0x100000))
  {
    FeedFromStart(FourBytes(c));
    FourConverted(State(0, 0, [], 0, 0), c);
    assert [] + Emit(c) == Emit(c);
    EmitBeyond(c);
  }

  lemma EmitBeyond(c: int)
    requires 0x110000 <= c < 0x200000
    ensures Emit(c) == UnitsText(Utf16(c - 0x100000))
  {
    EmitWraps(c, c - 0x100000);
    PairOfSurrogates(c - 0x100000);
    UnitsOfPair(Utf16(c - 0x100000));
  }

  /** A pair of surrogates holds twenty bits. */
  lemma EmitWraps(c: int, d: int)
    requires 0x110000 <= c < 0x200000 && d == c - 0x100000
    ensures Emit(c) == Emit(d)
  {
    FourBits(c, d);
    SixBits(c, d);
    LowBits(c, d);
  }

  lemma FourBits(c: int, d: int)
    requires c == d + 0x100000
    ensures (c / 65536 - 1) % 16 == (d / 65536 - 1) % 16
  {
  }

  lemma SixBits(c: int, d: int)
    requires c == d + 0x100000
    ensures c / 1024 % 64 == d / 1024 % 64
  {
  }

  lemma LowBits(c: int, d: int)
    requires c == d + 0x100000
    ensures c / 64 % 16 == d / 64 % 16 && c % 64 == d % 64
  {
  }

  lemma LargestSpelled()
    ensures After([0xF7, 0xBF, 0xBF, 0xBF]).uchar == 0x1FFFFF
  {
    assert FourBytes(0x1FFFFF) == [0xF7, 0xBF, 0xBF, 0xBF];
    BeyondUnicode(0x1FFFFF);
  }

  lemma UnitsOfPair(us: seq<Unit>)
    requires |us| == 2
    ensures UnitsText(us) == UnitBytes(us[0]) + UnitBytes(us[1])
  {
    assert us == [us[0]] + [us[1]];
    UnitsAppend([us[0]], [us[1]]);
    OneUnit(us[0]);
    OneUnit(us[1]);
  }
}
