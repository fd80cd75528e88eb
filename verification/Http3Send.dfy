/** The send buffer of an HTTP/3 stream (http3.cpp): bytes are pushed, read by the transport without
    being copied, and drained once acknowledged. */
module Http3Send {
  import opened Common

  /** A stream's `data_source` and flags. Before `readOffset` the buffer holds what the transport has
      read and not yet acknowledged, behind it what is unsent. */
  datatype Stream = Stream(buffer: Option<seq<Byte>>, readOffset: nat, hasEof: bool, trailers: bool)

  function Bytes(s: Stream): seq<Byte> {
    if s.buffer.None? then [] else s.buffer.value
  }

  /** The read offset stays inside the buffer. */
  ghost predicate Sound(s: Stream) {
    s.readOffset <= |Bytes(s)|
  }

  ghost function InFlight(s: Stream): seq<Byte>
    requires Sound(s)
  {
    Bytes(s)[..s.readOffset]
  }

  ghost function Unsent(s: Stream): seq<Byte>
    requires Sound(s)
  {
    Bytes(s)[s.readOffset..]
  }

  /** What `on_read_data` tells the transport. */
  datatype Answer =
    | Data(bytes: seq<Byte>, eof: bool, noEndStream: bool)
    | WouldBlock
    | Failure

  // The steps on one stream

  function Pushed(s: Stream, chunk: seq<Byte>, eof: bool): Stream {
    s.(buffer := Some(Bytes(s) + chunk), hasEof := eof)
  }

  function TrailersSubmitted(s: Stream): Stream {
    s.(trailers := true)
  }

  function Read(s: Stream, n: nat): Stream {
    s.(readOffset := s.readOffset + n)
  }

  function ReadAnswer(s: Stream, n: nat): Answer
    requires s.readOffset + n <= |Bytes(s)|
  {
    var unsent := |Bytes(s)| - (s.readOffset + n);
    if n == 0 && unsent == 0 && s.trailers then Data([], true, true)
    else
      var eof := unsent == 0 && s.hasEof;
      if n == 0 && !eof then WouldBlock
      else Data(Bytes(s)[s.readOffset..s.readOffset + n], eof, false)
  }

  function Acked(s: Stream, len: nat): Stream
    requires s.buffer.Some?
  {
    var drained := Min(len, |Bytes(s)|);
    s.(buffer := Some(Bytes(s)[drained..]), readOffset := s.readOffset - Min(drained, s.readOffset))
  }

  // Runs of one stream, with what went in and what came out

  datatype Event =
    | Push(chunk: seq<Byte>, eof: bool)
    | Trailers
    | Take(n: nat)
    | Ack(len: nat)

  /** `handed` is everything the transport has read, `drained` how many bytes acknowledgements removed
      from the buffer. */
  datatype Run = Run(stream: Stream, submitted: seq<Byte>, handed: seq<Byte>, drained: nat)

  /** A stream starts with an empty buffer, or with none if its message had no body. */
  ghost predicate IsFresh(s: Stream) {
    Bytes(s) == [] && s.readOffset == 0
  }

  /** The transport takes some of the unsent bytes, none only if there are none, and reads and
      acknowledges only once there is a buffer. */
  ghost predicate Enabled(r: Run, e: Event) {
    match e
    case Push(_, _) => true
    case Trailers => true
    case Take(n) => r.stream.buffer.Some? && r.stream.readOffset + n <= |Bytes(r.stream)|
                    && (n == 0 ==> r.stream.readOffset == |Bytes(r.stream)|)
    case Ack(_) => r.stream.buffer.Some?
  }

  ghost function Next(r: Run, e: Event): Run {
    if !Enabled(r, e) then r else
    match e
    case Push(chunk, eof) => r.(stream := Pushed(r.stream, chunk, eof), submitted := r.submitted + chunk)
    case Trailers => r.(stream := TrailersSubmitted(r.stream))
    case Take(n) =>
      var answer := ReadAnswer(r.stream, n);
      r.(stream := Read(r.stream, n), handed := r.handed + if answer.Data? then answer.bytes else [])
    case Ack(len) => r.(stream := Acked(r.stream, len), drained := r.drained + Min(len, |Bytes(r.stream)|))
  }

  ghost function After(first: Stream, events: seq<Event>): Run {
    if events == [] then Run(first, [], [], 0)
    else Next(After(first, events[..|events| - 1]), events[|events| - 1])
  }

  ghost predicate Possible(first: Stream, events: seq<Event>) {
    events == [] ||
    (Possible(first, events[..|events| - 1]) && Enabled(After(first, events[..|events| - 1]), events[|events| - 1]))
  }

  /** No acknowledgement drains bytes that were never handed out. */
  ghost predicate AcksInFlightOnly(first: Stream, events: seq<Event>) {
    events == [] ||
    (var before, e := events[..|events| - 1], events[|events| - 1];
     var s := After(first, before).stream;
     AcksInFlightOnly(first, before) && (e.Ack? ==> Min(e.len, |Bytes(s)|) <= s.readOffset))
  }

  /** Acknowledged, in flight and unsent bytes are what was submitted, in order. */
  ghost predicate Conserved(r: Run) {
    && Sound(r.stream)
    && r.handed + Unsent(r.stream) == r.submitted
    && r.drained <= |r.handed| && r.handed[r.drained..] == InFlight(r.stream)
  }

  /** Bytes neither handed out nor waiting. */
  ghost function Lost(r: Run): int
    requires Sound(r.stream)
  {
    |r.submitted| - |r.handed| - |Unsent(r.stream)|
  }

  lemma NextLoses(r: Run, e: Event)
    requires Sound(r.stream) && Enabled(r, e)
    ensures Sound(Next(r, e).stream)
    ensures var more := Lost(Next(r, e)) - Lost(r);
            if e.Ack? && Min(e.len, |Bytes(r.stream)|) > r.stream.readOffset
            then more == Min(e.len, |Bytes(r.stream)|) - r.stream.readOffset
            else more == 0
  {
  }

  lemma NextConserves(r: Run, e: Event)
    requires Conserved(r) && Enabled(r, e)
    requires e.Ack? ==> Min(e.len, |Bytes(r.stream)|) <= r.stream.readOffset
    ensures Conserved(Next(r, e))
  {
    var s, u := r.stream, Next(r, e);
    match e
    case Push(chunk, _) =>
      assert r.handed + (Unsent(s) + chunk) == (r.handed + Unsent(s)) + chunk;
      assert Unsent(u.stream) == Unsent(s) + chunk;
    case Trailers =>
    case Take(n) =>
      assert Unsent(s) == Bytes(s)[s.readOffset..s.readOffset + n] + Unsent(u.stream);
      assert InFlight(u.stream) == InFlight(s) + Bytes(s)[s.readOffset..s.readOffset + n];
      assert n == 0 ==> Bytes(s)[s.readOffset..s.readOffset + n] == [];
      assert u.handed == r.handed + Bytes(s)[s.readOffset..s.readOffset + n];
    case Ack(len) =>
      var d := Min(len, |Bytes(s)|);
      assert Unsent(u.stream) == Unsent(s);
      assert InFlight(u.stream) == InFlight(s)[d..];
  }

  lemma {:induction false} RunsAreSound(first: Stream, events: seq<Event>)
    requires IsFresh(first) && Possible(first, events)
    ensures Sound(After(first, events).stream) && Lost(After(first, events)) >= 0
  {
    if events != [] {
      RunsAreSound(first, events[..|events| - 1]);
      NextLoses(After(first, events[..|events| - 1]), events[|events| - 1]);
    }
  }

  /** In any run whatever, the bytes are conserved iff no acknowledgement reaches past what was handed
      out: the code drains such bytes all the same. */
  lemma {:induction false} ConservedIff(first: Stream, events: seq<Event>)
    requires IsFresh(first) && Possible(first, events)
    ensures var r := After(first, events);
            && (Conserved(r) <==> AcksInFlightOnly(first, events))
            && Sound(r.stream) && (Lost(r) == 0 <==> AcksInFlightOnly(first, events))
  {
    var r := After(first, events);
    RunsAreSound(first, events);
    if events != [] {
      var before, e := events[..|events| - 1], events[|events| - 1];
      ConservedIff(first, before);
      RunsAreSound(first, before);
      NextLoses(After(first, before), e);
      if AcksInFlightOnly(first, events) {
        NextConserves(After(first, before), e);
      }
    }
    if Conserved(r) {
      assert |r.submitted| == |r.handed| + |Unsent(r.stream)|;
    }
  }

  // What the events of a run say, whatever the stream keeps of it

  /** The last push ended the body; without one, the message itself may have. */
  ghost predicate BodyEnded(first: Stream, events: seq<Event>) {
    if events == [] then first.hasEof
    else if events[|events| - 1].Push? then events[|events| - 1].eof
    else BodyEnded(first, events[..|events| - 1])
  }

  ghost predicate TrailersFollow(first: Stream, events: seq<Event>) {
    first.trailers || Trailers in events
  }

  /** All bytes that were pushed, in order. */
  ghost function AllPushed(events: seq<Event>): seq<Byte> {
    if events == [] then []
    else AllPushed(events[..|events| - 1]) + if events[|events| - 1].Push? then events[|events| - 1].chunk else []
  }

  /** The flags of the stream and the bytes submitted are those of the events. */
  lemma {:induction false} FlagsFollowEvents(first: Stream, events: seq<Event>)
    requires Possible(first, events)
    ensures var r := After(first, events);
            && (r.stream.hasEof <==> BodyEnded(first, events))
            && (r.stream.trailers <==> TrailersFollow(first, events))
            && r.submitted == AllPushed(events)
  {
    if events != [] {
      var before, e := events[..|events| - 1], events[|events| - 1];
      FlagsFollowEvents(first, before);
      assert events == before + [e];
      assert AllPushed(before) + [] == AllPushed(before);
    }
  }

  /** The end of the stream is announced iff a read leaves nothing unsent and the last push ended the body,
      or there was nothing to read and trailers follow; all that was pushed has been handed out then. Waiting
      is asked for iff nothing is unsent, the body goes on and no trailers follow. */
  lemma EofMeansAllHanded(first: Stream, events: seq<Event>, n: nat)
    requires IsFresh(first) && Possible(first, events) && Enabled(After(first, events), Take(n))
    ensures Sound(After(first, events).stream)
    ensures var r := After(first, events);
            var answer, u := ReadAnswer(r.stream, n), Next(r, Take(n));
            var ended, trailers := BodyEnded(first, events), TrailersFollow(first, events);
            && Sound(u.stream)
            && (answer.Data? && answer.eof <==> Unsent(u.stream) == [] && (ended || (trailers && n == 0)))
            && (answer.Data? && answer.eof && AcksInFlightOnly(first, events) ==> u.handed == AllPushed(events))
            && (answer.WouldBlock? <==> Unsent(r.stream) == [] && !ended && !trailers)
            && (answer.Data? && answer.noEndStream <==> Unsent(r.stream) == [] && trailers)
            && (answer.Data? ==> answer.bytes == Unsent(r.stream)[..n])
            && !answer.Failure?
  {
    var r := After(first, events);
    FlagsFollowEvents(first, events);
    ConservedIff(first, events);
    if AcksInFlightOnly(first, events) {
      NextConserves(r, Take(n));
      var u := Next(r, Take(n));
      assert u.handed + Unsent(u.stream) == u.submitted;
      if Unsent(u.stream) == [] {
        assert u.handed == u.submitted;
      }
    }
  }

  /** An acknowledgement of bytes that were never read loses them. */
  lemma EarlyAckLoses(first: Stream, b: Byte)
    requires IsFresh(first)
    ensures var events := [Push([b], true), Ack(1)];
            var r := After(first, events);
            Possible(first, events) && r.submitted == [b] && r.handed == [] && Bytes(r.stream) == []
  {
    var p, a := Push([b], true), Ack(1);
    var events := [p, a];
    assert events[..1] == [p] && [p][..0] == [];
    assert Possible(first, []) && After(first, []) == Run(first, [], [], 0);
    assert Possible(first, [p]) && After(first, [p]) == Next(After(first, []), p);
    assert Bytes(After(first, [p]).stream) == [b];
  }

  // The session

  /** How many bytes the transport has not read; a read offset behind the buffer counts as its end. */
  ghost function Waiting(s: Stream): (n: nat)
    ensures Sound(s) ==> n == |Unsent(s)|
  {
    if s.readOffset <= |Bytes(s)| then |Bytes(s)[s.readOffset..]| else 0
  }

  /** The largest push that leaves no more than a window of bytes waiting. */
  ghost function Room(s: Stream, window: nat): (c: nat)
    ensures Waiting(s) <= window ==> Waiting(s) + c == window
    ensures Waiting(s) > window ==> c == 0
  {
    if Waiting(s) <= window then window - Waiting(s) else 0
  }

  method FindRoom(s: Stream, window: nat) returns (c: nat)
    ensures c == Room(s, window)
  {
    c := window;
    if s.buffer.Some? {
      var buffered := |s.buffer.value|;
      var unsent := if buffered > s.readOffset then buffered - s.readOffset else 0;
      c := if unsent >= c then 0 else c - unsent;
    }
  }

  /** A push keeps the bytes waiting inside a window iff there is room for it, and uses that room up. */
  lemma PushWithinCapacity(s: Stream, window: nat, chunk: seq<Byte>, eof: bool)
    requires Sound(s) && |Unsent(s)| <= window
    ensures Sound(Pushed(s, chunk, eof))
    ensures |chunk| <= Room(s, window) <==> |Unsent(Pushed(s, chunk, eof))| <= window
    ensures |chunk| <= Room(s, window) ==> Room(Pushed(s, chunk, eof), window) == Room(s, window) - |chunk|
  {
    assert Unsent(Pushed(s, chunk, eof)) == Unsent(s) + chunk;
  }

  class Http3Session {
    var streams: map<nat, Stream>

    ghost predicate Valid()
      reads this
    {
      forall id :: id in streams ==> Sound(streams[id])
    }

    method PushData(id: nat, chunk: seq<Byte>, eof: bool) returns (found: bool)
      requires Valid()
      modifies this
      ensures Valid() && (found <==> id in old(streams))
      ensures streams == if found then old(streams)[id := Pushed(old(streams)[id], chunk, eof)] else old(streams)
      ensures found ==> streams[id].hasEof == eof && Bytes(streams[id]) == Bytes(old(streams)[id]) + chunk
    {
      found := id in streams;
      if found {
        var s := streams[id];
        if s.buffer.None? {
          s := s.(buffer := Some([]));
        }
        s := s.(hasEof := eof);
        if chunk != [] {
          s := s.(buffer := Some(s.buffer.value + chunk));
        }
        assert chunk == [] ==> Bytes(streams[id]) + chunk == Bytes(streams[id]);
        assert [] + chunk == chunk;
        streams := streams[id := s];
      }
    }

    /** `n` is what the peek into the buffer yields. */
    method OnReadData(id: nat, n: nat) returns (answer: Answer)
      requires Valid()
      requires id in streams ==> streams[id].buffer.Some? && streams[id].readOffset + n <= |Bytes(streams[id])|
      modifies this
      ensures Valid()
      ensures id !in old(streams) ==> answer == Failure && streams == old(streams)
      ensures id in old(streams) ==> answer == ReadAnswer(old(streams)[id], n) && streams == old(streams)[id := Read(old(streams)[id], n)]
    {
      if id !in streams {
        return Failure;
      }
      var s := streams[id];
      if s.readOffset > |Bytes(s)| {
        return Failure;
      }
      var bytes := Bytes(s)[s.readOffset..s.readOffset + n];
      s := s.(readOffset := s.readOffset + n);
      streams := streams[id := s];
      var unsent := |Bytes(s)| - s.readOffset;
      if n == 0 && unsent == 0 && s.trailers {
        return Data([], true, true);
      }
      var eof := unsent == 0 && s.hasEof;
      if n == 0 && !eof {
        return WouldBlock;
      }
      answer := Data(bytes, eof, false);
    }

    method OnAckedStreamData(id: nat, origLen: nat) returns (found: bool)
      requires Valid() && (id in streams ==> streams[id].buffer.Some?)
      modifies this
      ensures Valid() && (found <==> id in old(streams))
      ensures streams == if found then old(streams)[id := Acked(old(streams)[id], origLen)] else old(streams)
    {
      found := id in streams;
      if found {
        var s := streams[id];
        var len := origLen;
        if |s.buffer.value| < len {
          len := |s.buffer.value|;
        }
        s := s.(buffer := Some(s.buffer.value[len..]));
        if s.readOffset < len {
          len := s.readOffset;
        }
        s := s.(readOffset := s.readOffset - len);
        streams := streams[id := s];
      }
    }

    /** What can still be pushed so that the bytes waiting fill the smaller of the two windows and no more:
        nothing once they already overflow it, the whole window for an unknown stream. The windows left
        come from the transport, which reports none for a stream that it does not know. */
    method GetStreamSendCapacity(id: nat, streamLeft: nat, connectionLeft: nat) returns (c: nat)
      ensures id !in streams ==> c == Min(streamLeft, connectionLeft)
      ensures id in streams ==>
                var window, waiting := Min(streamLeft, connectionLeft), Waiting(streams[id]);
                c == Room(streams[id], window) && (if waiting <= window then waiting + c == window else c == 0)
    {
      c := if streamLeft < connectionLeft then streamLeft else connectionLeft;
      if id in streams {
        c := FindRoom(streams[id], c);
      }
    }
  }
}
