/** The body sender of http1.cpp and the chunked transfer coding it speaks (section 7.1 of RFC 9112). */
module Http1Chunked {
  import opened Common

  const CRLF: seq<Byte> := [13, 10]

  // Hexadecimal numbers

  /** An upper-case digit. */
  function Digit(d: nat): Byte
    requires d < 16
  {
    if d < 10 then 48 + d else 55 + d
  }

  /** The digits and the line end as they are written. */
  lemma WrittenAs(d: nat)
    requires d < 16
    ensures Digit(d) == "0123456789ABCDEF"[d] as int && CRLF == ['\r' as int, '\n' as int]
  {
  }

  /** `{:X}`: no leading zeros. */
  function Hex(n: nat): (h: seq<Byte>)
    ensures h != []
  {
    if n < 16 then [Digit(n)] else Hex(n / 16) + [Digit(n % 16)]
  }

  predicate IsHexDigit(b: Byte) {
    48 <= b <= 57 || 65 <= b <= 70 || 97 <= b <= 102
  }

  function DigitValue(b: Byte): nat
    requires IsHexDigit(b)
  {
    if b <= 57 then b - 48 else if b <= 70 then b - 55 else b - 87
  }

  function HexValue(h: seq<Byte>): nat
    requires forall i :: 0 <= i < |h| ==> IsHexDigit(h[i])
  {
    if h == [] then 0 else 16 * HexValue(h[..|h| - 1]) + DigitValue(h[|h| - 1])
  }

  lemma {:induction false} HexRoundTrip(n: nat)
    ensures forall i :: 0 <= i < |Hex(n)| ==> IsHexDigit(Hex(n)[i])
    ensures HexValue(Hex(n)) == n && (Hex(n)[0] == '0' as int ==> n == 0)
  {
    if n < 16 {
      assert Hex(n)[..0] == [];
    } else {
      HexRoundTrip(n / 16);
      assert Hex(n)[..|Hex(n)| - 1] == Hex(n / 16);
    }
  }

  function Power16(k: nat): nat {
    if k == 0 then 1 else 16 * Power16(k - 1)
  }

  lemma {:induction false} HexLength(n: nat, k: nat)
    requires n < Power16(k) && k > 0
    ensures |Hex(n)| <= k
  {
    if n >= 16 {
      assert k > 1 by {
        assert Power16(1) == 16 * Power16(0);
      }
      HexLength(n / 16, k - 1);
    }
  }

  /** A chunk header never outgrows the 64 bytes kept for it. */
  lemma HeaderFits(length: nat)
    requires length < 0x1_0000_0000_0000_0000
    ensures |Hex(length) + CRLF| <= 18
  {
    assert Power16(16) == 0x1_0000_0000_0000_0000 by {
      assert Power16(4) == 0x1_0000;
      assert Power16(8) == 0x1_0000_0000;
      assert Power16(12) == 0x1_0000_0000_0000;
    }
    HexLength(length, 16);
  }

  // What the sender puts out

  function Header(chunk: seq<Byte>): seq<Byte> {
    Hex(|chunk|) + CRLF
  }

  /** The output of one call. */
  function Output(chunk: seq<Byte>, eof: bool): seq<Byte> {
    if chunk == [] then Header([]) + (if eof then CRLF else [])
    else Header(chunk) + chunk + CRLF + if eof then Header([]) + CRLF else []
  }

  /** The output of a body: some chunks, and a last call that ends it. */
  function Wire(chunks: seq<seq<Byte>>, last: seq<Byte>): seq<Byte> {
    if chunks == [] then Output(last, true) else Output(chunks[0], false) + Wire(chunks[1..], last)
  }

  // The reader: chunks with their sizes, a chunk of size zero, an empty trailer section

  /** How many hexadecimal digits come first. */
  function DigitRun(s: seq<Byte>): (n: nat)
    ensures n <= |s| && (forall i :: 0 <= i < n ==> IsHexDigit(s[i])) && (n < |s| ==> !IsHexDigit(s[n]))
  {
    if s == [] || !IsHexDigit(s[0]) then 0 else 1 + DigitRun(s[1..])
  }

  predicate StartsWith(s: seq<Byte>, t: seq<Byte>) {
    |t| <= |s| && s[..|t|] == t
  }

  /** A chunk size and its line end, and what follows. */
  function ReadSize(s: seq<Byte>): (r: Option<(nat, seq<Byte>)>)
    ensures r.Some? ==> |r.value.1| < |s|
  {
    var d := DigitRun(s);
    if d == 0 || !StartsWith(s[d..], CRLF) then None else Some((HexValue(s[..d]), s[d + 2..]))
  }

  /** The chunks read, and what follows the body. */
  type Reading = Option<(seq<seq<Byte>>, seq<Byte>)>

  function Prepend(chunk: seq<Byte>, r: Reading): Reading {
    if r.None? then None else Some(([chunk] + r.value.0, r.value.1))
  }

  function Decode(s: seq<Byte>): Reading
    decreases |s|
  {
    var header := ReadSize(s);
    if header.None? then None
    else
      var (size, rest) := header.value;
      if size == 0 then (if StartsWith(rest, CRLF) then Some(([], rest[2..])) else None)
      else if |rest| < size + 2 || !StartsWith(rest[size..], CRLF) then None
      else Prepend(rest[..size], Decode(rest[size + 2..]))
  }

  lemma {:induction false} DigitRunOf(h: seq<Byte>, s: seq<Byte>)
    requires (forall i :: 0 <= i < |h| ==> IsHexDigit(h[i])) && s != [] && !IsHexDigit(s[0])
    ensures DigitRun(h + s) == |h|
  {
    if h == [] {
      assert h + s == s;
    } else {
      assert (h + s)[1..] == h[1..] + s;
      DigitRunOf(h[1..], s);
    }
  }

  /** A header is read back as the size it was written for. */
  lemma HeaderReads(chunk: seq<Byte>, s: seq<Byte>)
    ensures ReadSize(Header(chunk) + s) == Some((|chunk|, s))
  {
    var h, t := Hex(|chunk|), Header(chunk) + s;
    HexRoundTrip(|chunk|);
    assert t == h + (CRLF + s);
    DigitRunOf(h, CRLF + s);
    assert t[..|h|] == h && t[|h|..] == CRLF + s;
  }

  lemma ChunkReads(t: seq<Byte>, chunk: seq<Byte>, s: seq<Byte>)
    requires chunk != [] && t == Output(chunk, false) + s
    ensures Decode(t) == Prepend(chunk, Decode(s))
  {
    var body := chunk + CRLF + s;
    var size: nat := |chunk|;
    assert ReadSize(t) == Some((size, body)) by {
      assert t == Header(chunk) + body;
      HeaderReads(chunk, body);
    }
    BodyReads(chunk, s);
    Decodes(t, |chunk|, body);
  }

  /** One step of the reader. */
  lemma Decodes(t: seq<Byte>, size: nat, rest: seq<Byte>)
    requires ReadSize(t) == Some((size, rest)) && 0 < size && size + 2 <= |rest| && StartsWith(rest[size..], CRLF)
    ensures Decode(t) == Prepend(rest[..size], Decode(rest[size + 2..]))
  {
  }

  lemma BodyReads(chunk: seq<Byte>, s: seq<Byte>)
    ensures var body := chunk + CRLF + s;
            && |body| >= |chunk| + 2 && StartsWith(body[|chunk|..], CRLF)
            && body[..|chunk|] == chunk && body[|chunk| + 2..] == s
  {
    var body := chunk + CRLF + s;
    assert body[|chunk|..] == CRLF + s;
  }

  /** A zero chunk ends the body if a blank line follows, and is an error otherwise. */
  lemma ZeroReads(s: seq<Byte>)
    ensures Decode(Header([]) + s) == if StartsWith(s, CRLF) then Some(([], s[2..])) else None
  {
    HeaderReads([], s);
  }

  lemma LastReads(last: seq<Byte>)
    ensures Decode(Output(last, true)) == Some((if last == [] then [] else [last], []))
  {
    ZeroReads(CRLF);
    if last != [] {
      assert Output(last, true) == Output(last, false) + (Header([]) + CRLF);
      ChunkReads(Output(last, true), last, Header([]) + CRLF);
      assert [last] + [] == [last];
    }
  }

  lemma WireStartsWithDigit(chunks: seq<seq<Byte>>, last: seq<Byte>)
    ensures Wire(chunks, last) != [] && IsHexDigit(Wire(chunks, last)[0])
  {
    HexRoundTrip(|if chunks == [] then last else chunks[0]|);
  }

  /** A zero chunk with more chunks behind it is an error. */
  lemma EarlyZero(rest: seq<Byte>)
    requires rest != [] && IsHexDigit(rest[0])
    ensures Decode(Output([], false) + rest) == None
  {
    assert Output([], false) == Header([]);
    ZeroReads(rest);
    assert |rest| >= 2 ==> rest[0] == rest[..2][0];
  }

  /** The chunks that a body was sent in. */
  function Pieces(chunks: seq<seq<Byte>>, last: seq<Byte>): seq<seq<Byte>> {
    if last == [] then chunks else chunks + [last]
  }

  /** The body is read back, chunk by chunk and to its very end, iff no call before the last one was
      empty: an empty call puts out the zero chunk early, and then nothing is read back at all. */
  lemma {:induction false} WireReads(chunks: seq<seq<Byte>>, last: seq<Byte>)
    ensures Decode(Wire(chunks, last)) == if [] in chunks then None else Some((Pieces(chunks, last), []))
  {
    if chunks == [] {
      LastReads(last);
      assert chunks + [last] == [last];
    } else {
      var c, rest := chunks[0], chunks[1..];
      WireReads(rest, last);
      FirstPiece(chunks, last);
      if c == [] {
        WireStartsWithDigit(rest, last);
        EarlyZero(Wire(rest, last));
      } else {
        ChunkReads(Wire(chunks, last), c, Wire(rest, last));
      }
    }
  }

  lemma FirstPiece(chunks: seq<seq<Byte>>, last: seq<Byte>)
    requires chunks != []
    ensures Pieces(chunks, last) == [chunks[0]] + Pieces(chunks[1..], last)
    ensures [] in chunks <==> chunks[0] == [] || [] in chunks[1..]
  {
    assert chunks == [chunks[0]] + chunks[1..];
  }

  // The session

  datatype ContentLength = Unset | Chunked | Known(left: nat)

  datatype Stream = Stream(id: nat, contentLength: ContentLength, zeroChunkSent: bool, reqSent: bool)

  /** `listening`: there is an output handler. `output` is everything it was given, `finished` the
      streams that were completed. */
  datatype Session = Session(server: bool, listening: bool, streams: seq<Stream>, output: seq<Byte>, finished: seq<nat>)

  /** The last stream of a server, the first of a client. */
  function ActiveIndex(s: Session): nat
    requires s.streams != []
  {
    if s.server then |s.streams| - 1 else 0
  }

  predicate Accepts(s: Session, id: nat) {
    s.streams != [] && s.streams[ActiveIndex(s)].id == id
  }

  function Completed(s: Session, id: nat): Session
    requires Accepts(s, id)
  {
    if s.server then s.(streams := s.streams[1..], finished := s.finished + [id])
    else s.(streams := s.streams[0 := s.streams[0].(reqSent := true)])
  }

  /** What a call puts out, and whether it ends the body: with a known length, that alone decides. */
  function Emitted(s: Session, id: nat, chunk: seq<Byte>, eof: bool): (Session, bool)
    requires Accepts(s, id)
  {
    var a := ActiveIndex(s);
    var stream := s.streams[a];
    match stream.contentLength
    case Chunked =>
      (s.(streams := s.streams[a := stream.(zeroChunkSent := chunk == [] || (eof && s.listening))],
          output := s.output + if s.listening then Output(chunk, eof) else []), eof)
    case Known(left) =>
      var left' := if left >= |chunk| then left - |chunk| else 0;
      (s.(streams := s.streams[a := stream.(contentLength := Known(left'))],
          output := s.output + if s.listening then chunk else []), left' == 0)
    case Unset =>
      (s.(output := s.output + if s.listening then chunk else []), eof)
  }

  /** What one accepted call of `send_body_impl` does. */
  function Sent(s: Session, id: nat, chunk: seq<Byte>, eof: bool): Session
    requires Accepts(s, id)
  {
    var (u, last) := Emitted(s, id, chunk, eof);
    if last then Completed(u, id) else u
  }

  ghost function Ids(streams: seq<Stream>): (ids: seq<nat>)
    ensures |ids| == |streams| && forall i :: 0 <= i < |ids| ==> ids[i] == streams[i].id
  {
    seq(|streams|, i requires 0 <= i < |streams| => streams[i].id)
  }

  /** A server answers on its last stream and lets go of its first: what is reported as finished is gone iff
      there was no other stream, and in any other case another one is lost. */
  lemma FinishedIsGoneIff(s: Session, id: nat, chunk: seq<Byte>, eof: bool)
    requires s.server && Accepts(s, id) && Emitted(s, id, chunk, eof).1
    ensures var u := Sent(s, id, chunk, eof);
            && u.finished == s.finished + [id]
            && Ids(u.streams) == Ids(s.streams)[1..]
            && (id !in Ids(u.streams) <==> |s.streams| == 1)
  {
    var u := Sent(s, id, chunk, eof);
    if |s.streams| > 1 {
      assert Ids(u.streams)[|s.streams| - 2] == id;
    }
  }

  class Http1Session {
    const server: bool
    const listening: bool
    var streams: seq<Stream>
    var output: seq<Byte>
    var finished: seq<nat>

    ghost function State(): Session
      reads this
    {
      Session(server, listening, streams, output, finished)
    }

    /** Sends a piece of a body; fails, and does nothing, for a stream that is not the active one. */
    method SendBody(id: nat, chunk: seq<Byte>, eof: bool) returns (ok: bool)
      modifies this
      ensures ok <==> Accepts(old(State()), id)
      ensures ok <==> old(streams) != [] && id == if server then old(streams)[|old(streams)| - 1].id else old(streams)[0].id
      ensures State() == if ok then Sent(old(State()), id, chunk, eof) else old(State())
      decreases |chunk|, 2
    {
      if streams == [] {
        return false;
      }
      var a := if server then |streams| - 1 else 0;
      if streams[a].id != id {
        return false;
      }
      var last := Emit(id, chunk, eof, a);
      if last {
        if server {
          streams := streams[1..];
          finished := finished + [id];
        } else {
          streams := streams[a := streams[a].(reqSent := true)];
        }
      }
      ok := true;
    }

    method Emit(id: nat, chunk: seq<Byte>, eof: bool, a: nat) returns (last: bool)
      requires Accepts(State(), id) && a == ActiveIndex(State())
      modifies this
      ensures (State(), last) == Emitted(old(State()), id, chunk, eof)
      decreases |chunk|, 1
    {
      ghost var s := State();
      last := eof;
      match streams[a].contentLength {
      case Chunked =>
        streams := streams[a := streams[a].(zeroChunkSent := chunk == [])];
        if listening {
          SendChunk(id, chunk, eof, a);
        }
      case Known(left) =>
        output := output + if listening then chunk else [];
        var left' := if left >= |chunk| then left - |chunk| else 0;
        streams := streams[a := streams[a].(contentLength := Known(left'))];
        last := left' == 0;
      case Unset =>
        output := output + if listening then chunk else [];
      }
      assert State() == Emitted(s, id, chunk, eof).0;
    }

    /** The output of a chunked body; the zero chunk at its end is a call of its own. */
    method SendChunk(id: nat, chunk: seq<Byte>, eof: bool, a: nat)
      requires listening && streams != [] && a == (if server then |streams| - 1 else 0)
      requires streams[a].id == id && streams[a].contentLength == Chunked && streams[a].zeroChunkSent == (chunk == [])
      modifies this
      ensures output == old(output) + Output(chunk, eof) && finished == old(finished)
      ensures streams == old(streams)[a := old(streams)[a].(zeroChunkSent := chunk == [] || eof)]
      decreases |chunk|, 0
    {
      ghost var was := output;
      output := output + (Hex(|chunk|) + CRLF);
      if chunk != [] {
        output := output + chunk + CRLF;
        assert output == was + (Header(chunk) + chunk + CRLF);
        if eof {
          var ok := SendBody(id, [], false);
          assert output == was + (Header(chunk) + chunk + CRLF + Header([]));
        }
      }
      if eof {
        output := output + CRLF;
      }
      assert output == was + Output(chunk, eof);
    }
  }

  // A whole body

  ghost function AllSent(s: Session, id: nat, chunks: seq<seq<Byte>>, last: seq<Byte>): Session
    decreases |chunks|
  {
    if !Accepts(s, id) then s
    else if chunks == [] then Sent(s, id, last, true)
    else AllSent(Sent(s, id, chunks[0], false), id, chunks[1..], last)
  }

  ghost predicate OneChunkedStream(s: Session, id: nat) {
    s.listening && |s.streams| == 1 && s.streams[0].id == id && s.streams[0].contentLength == Chunked
  }

  /** The calls put out the wire form of the body and complete the stream once, at the end. */
  lemma {:induction false} BodyOutput(s: Session, id: nat, chunks: seq<seq<Byte>>, last: seq<Byte>)
    requires OneChunkedStream(s, id)
    ensures var u := AllSent(s, id, chunks, last);
            && u.output == s.output + Wire(chunks, last)
            && (if s.server then u.streams == [] && u.finished == s.finished + [id]
                else u.streams == [Stream(id, Chunked, true, true)] && u.finished == s.finished)
    decreases |chunks|
  {
    if chunks != [] {
      var t := Sent(s, id, chunks[0], false);
      BodyOutput(t, id, chunks[1..], last);
      assert t.output + Wire(chunks[1..], last) == s.output + (Output(chunks[0], false) + Wire(chunks[1..], last));
    }
  }

  /** Whatever non-empty pieces a body is sent in, the receiver gets those pieces back, reaches the end
      of the body exactly at the end of the output, and the stream is completed once. */
  lemma BodyRoundTrip(s: Session, id: nat, chunks: seq<seq<Byte>>, last: seq<Byte>)
    requires OneChunkedStream(s, id) && [] !in chunks
    ensures var u := AllSent(s, id, chunks, last);
            && s.output <= u.output
            && Decode(u.output[|s.output|..]) == Some((Pieces(chunks, last), []))
            && (s.server ==> u.finished == s.finished + [id])
  {
    BodyOutput(s, id, chunks, last);
    WireReads(chunks, last);
    assert AllSent(s, id, chunks, last).output[|s.output|..] == Wire(chunks, last);
  }

  // Bodies without chunks

  ghost function Joined(chunks: seq<seq<Byte>>): seq<Byte> {
    if chunks == [] then [] else chunks[0] + Joined(chunks[1..])
  }

  /** A piece of a body, and whether the caller calls it the last. */
  datatype Call = Call(chunk: seq<Byte>, eof: bool)

  ghost function AllCalled(s: Session, id: nat, calls: seq<Call>): Session
    decreases |calls|
  {
    if calls == [] || !Accepts(s, id) then s else AllCalled(Sent(s, id, calls[0].chunk, calls[0].eof), id, calls[1..])
  }

  ghost function Called(calls: seq<Call>): seq<Byte> {
    if calls == [] then [] else calls[0].chunk + Called(calls[1..])
  }

  ghost predicate OneStream(s: Session, id: nat, length: ContentLength) {
    s.listening && |s.streams| == 1 && s.streams[0].id == id && s.streams[0].contentLength == length && !s.streams[0].reqSent
  }

  /** A body whose end nobody announced: the bytes as they are, and the end where the last call says so. */
  lemma {:induction false} PlainBody(s: Session, id: nat, chunks: seq<seq<Byte>>, last: seq<Byte>)
    requires OneStream(s, id, Unset)
    ensures var u := AllSent(s, id, chunks, last);
            && u.output == s.output + Joined(chunks + [last])
            && (if s.server then u.streams == [] && u.finished == s.finished + [id]
                else u.streams == [s.streams[0].(reqSent := true)] && u.finished == s.finished)
    decreases |chunks|
  {
    if chunks == [] {
      JoinedOne(last);
      assert chunks + [last] == [last];
    } else {
      var t := Sent(s, id, chunks[0], false);
      PlainBody(t, id, chunks[1..], last);
      assert (chunks + [last])[1..] == chunks[1..] + [last];
      Associative(s.output, chunks[0], Joined(chunks[1..] + [last]));
    }
  }

  lemma JoinedOne(last: seq<Byte>)
    ensures Joined([last]) == last
  {
    assert [last][1..] == [];
    assert last + [] == last;
  }

  lemma Associative(a: seq<Byte>, b: seq<Byte>, c: seq<Byte>)
    ensures (a + b) + c == a + (b + c)
  {
  }

  /** How many calls it takes until `left` bytes have been sent; all, if they are not enough. */
  ghost function Needed(calls: seq<Call>, left: nat): (n: nat)
    ensures n <= |calls|
  {
    if calls == [] then 0
    else if |calls[0].chunk| >= left then 1
    else 1 + Needed(calls[1..], left - |calls[0].chunk|)
  }

  /** Those calls are enough, if all are, and no fewer are. */
  lemma {:induction false} NeededIsLeast(calls: seq<Call>, left: nat)
    ensures var n := Needed(calls, left);
            && (|Called(calls[..n])| >= left || n == |calls|)
            && forall m :: 0 < m < n ==> |Called(calls[..m])| < left
  {
    if calls != [] && |calls[0].chunk| < left {
      var n, rest := Needed(calls, left), calls[1..];
      NeededIsLeast(rest, left - |calls[0].chunk|);
      FirstCalled(calls, n);
      forall m | 0 < m < n ensures |Called(calls[..m])| < left {
        FirstCalled(calls, m);
        if m == 1 {
          assert calls[1..][..0] == [];
        }
      }
    } else if calls != [] {
      FirstCalled(calls, 1);
    }
  }

  lemma FirstCalled(calls: seq<Call>, n: nat)
    requires 0 < n <= |calls|
    ensures Called(calls[..n]) == calls[0].chunk + Called(calls[1..][..n - 1])
  {
    assert calls[..n][1..] == calls[1..][..n - 1];
  }

  /** A server with a body of announced length puts out the bytes of the calls up to the one that reaches
      that length, and that one, whatever it is called, completes the stream. */
  lemma {:induction false} CountedBodyOfServer(s: Session, id: nat, left: nat, calls: seq<Call>)
    requires OneStream(s, id, Known(left)) && s.server && calls != []
    ensures var u, sent := AllCalled(s, id, calls), Called(calls[..Needed(calls, left)]);
            && u.output == s.output + sent
            && (if |sent| >= left then u.streams == [] && u.finished == s.finished + [id]
                else u.streams == [s.streams[0].(contentLength := Known(left - |sent|))] && u.finished == s.finished)
    decreases |calls|
  {
    var c := calls[0].chunk;
    var t := Sent(s, id, c, calls[0].eof);
    FirstCalled(calls, Needed(calls, left));
    if |c| >= left {
      assert calls[1..][..0] == [];
      assert c + [] == c;
    } else if |calls| > 1 {
      CountedBodyOfServer(t, id, left - |c|, calls[1..]);
      Associative(s.output, c, Called(calls[1..][..Needed(calls, left) - 1]));
    } else {
      assert calls[1..] == [] && calls[1..][..0] == [];
      assert c + [] == c;
    }
  }

  /** A client puts out all bytes, and its request counts as sent iff the announced length is reached. */
  lemma {:induction false} CountedBodyOfClient(s: Session, id: nat, left: nat, calls: seq<Call>)
    requires s.listening && !s.server && |s.streams| == 1 && s.streams[0].id == id && s.streams[0].contentLength == Known(left)
    requires calls != []
    ensures var u, sent := AllCalled(s, id, calls), Called(calls);
            && u.output == s.output + sent && u.finished == s.finished
            && u.streams == [s.streams[0].(contentLength := Known(if |sent| >= left then 0 else left - |sent|),
                                           reqSent := s.streams[0].reqSent || |sent| >= left)]
    decreases |calls|
  {
    var c := calls[0].chunk;
    var t := Sent(s, id, c, calls[0].eof);
    if |calls| > 1 {
      CountedBodyOfClient(t, id, if left >= |c| then left - |c| else 0, calls[1..]);
      Associative(s.output, c, Called(calls[1..]));
    } else {
      assert calls[1..] == [];
      assert c + [] == c;
    }
  }
}
