/** Responses: what send_response puts on the wire, and that a peer connection receives exactly the response. */
module H2Response {
  import opened Bytes
  import opened HpackInt
  import opened HpackTable
  import opened Hpack
  import opened H2Frame
  import opened H2Writer
  import opened H2Machine
  import opened H2Fragmentation
  import opened H2Safety

  /**
   A refused response leaves the output alone. An accepted one is written completely, and a decoder with any table reads its
   headers and remembers what the encoder remembered.
   */
  lemma ResponseOnTheWire(c: Conn, t: Table, id: nat, headers: seq<Header>, body: bytes, end: bool)
    ensures var s := SendResponse(c, id, headers, body, end);
            if s.ok then
              exists frames: seq<Frame> ::
                && Carries(frames, id, Encode(c.encoder, headers).data, body, end)
                && s.conn.core == c.core.(send := c.core.send + Serialize(frames))
                && s.conn.encoder == RememberAll(c.encoder, headers)
                && (AllReadable(headers) ==>
                      Decode(t, frames[0].payload, []) == Decoded(RememberAll(t, headers), SentAll(headers), None))
            else s.conn.core == c.core
  {
    var s := SendResponse(c, id, headers, body, end);
    if s.ok {
      var block := Encode(c.encoder, headers).data;
      var frames := ResponseFrames(id, block, body, end);
      ResponseFramesCarry(id, block, body, end);
      EncodeRemembers(c.encoder, headers);
      BlockRoundTrip(c.encoder, t, headers, []);
      assert [] + SentAll(headers) == SentAll(headers);
      assert Carries(frames, id, block, body, end);
    }
  }

  /** The receiving side of one frame at the front of the input. */
  lemma FirstFrame(k: Core, f: Frame, rest: bytes)
    requires Sendable(f) && |f.payload| <= MAX_FRAME_SIZE && Handle(k, f).error.None?
    ensures var h := Handle(k, f);
            Frames(k, FrameBytes(f) + rest) == Then(Looped(h.core, rest, h.ready, None), Frames(h.core, rest))
  {
    FrameRoundTrip(f, rest, MAX_FRAME_SIZE);
  }

  /** Stream id has received the body up to here and ended if it was told to. */
  function Received(k: Core, id: nat, data: bytes, end: bool): Core
    requires id in k.streams
  {
    var s := k.streams[id];
    SetStream(k, id, s.(body := s.body + data, state := if end && data != [] then HalfClosedRemote else s.state))
  }

  lemma {:induction false} DataDelivered(k: Core, id: nat, data: bytes, end: bool)
    requires 0 < id <= k.lastPeer && id in k.streams && k.streams[id].state == Open && id <= MAX_STREAM
    ensures Frames(k, Serialize(DataFrames(id, data, end, MAX_FRAME_SIZE))) ==
            Looped(Received(k, id, data, end), [], if end && data != [] then [id] else [], None)
    decreases |data|
  {
    if data == [] {
      assert k.streams[id].body + [] == k.streams[id].body;
      assert k.streams[id := k.streams[id]] == k.streams;
    } else {
      var frames := DataFrames(id, data, end, MAX_FRAME_SIZE);
      var f := frames[0];
      var n := |f.payload|;
      assert frames[1..] == DataFrames(id, data[n..], end, MAX_FRAME_SIZE);
      DataHandled(k, f);
      FirstFrame(k, f, Serialize(frames[1..]));
      if n < |data| {
        DataDelivered(Handle(k, f).core, id, data[n..], end);
        InTwoParts(k, id, data, n, end);
        assert [] + (if end && data[n..] != [] then [id] else []) == if end && data != [] then [id] else [];
      } else {
        assert data[..n] == data;
        assert f.flags == if end then END_STREAM else 0;
        assert [id] + [] == [id];
      }
    }
  }

  lemma DataHandled(k: Core, f: Frame)
    requires f.kind == DATA && 0 < f.streamId <= k.lastPeer && f.streamId in k.streams
    requires k.streams[f.streamId].state == Open && f.flags <= 1 && f.payload != []
    ensures Handle(k, f) == Handled(Received(k, f.streamId, f.payload, f.flags == 1), if f.flags == 1 then [f.streamId] else [], None)
  {
  }

  lemma InTwoParts(k: Core, id: nat, data: bytes, n: nat, end: bool)
    requires id in k.streams && n < |data|
    ensures Received(Received(k, id, data[..n], false), id, data[n..], end) == Received(k, id, data, end)
  {
    assert data == data[..n] + data[n..];
    assert k.streams[id].body + data[..n] + data[n..] == k.streams[id].body + (data[..n] + data[n..]);
    var s := Received(k, id, data, end).streams[id];
    assert Received(Received(k, id, data[..n], false), id, data[n..], end).streams == k.streams[id := s];
  }

  /** A stream as the peer holds it, or a new one. */
  function StreamAt(k: Core, id: nat): Stream {
    if id in k.streams then k.streams[id] else NEW_STREAM
  }

  /** A stream after a response: headers and body are added to what it holds. */
  function StreamAfter(s: Stream, r: Response): Stream {
    Stream(if r.end then HalfClosedRemote else Open, s.sendWindow, s.body + r.body, s.headers + SentAll(r.headers))
  }

  lemma TouchedAt(k: Core, id: nat, s: Stream)
    requires Sound(k) && id > 0
    ensures Touch(k, id).streams[id] == StreamAt(k, id) && Touch(k, id).streams[id := s] == k.streams[id := s]
    ensures LiveState(StreamAt(k, id).state)
  {
  }

  lemma HeadersDispatched(k: Core, id: nat, block: bytes, end: bool)
    requires id > 0
    ensures var f := HeadersFrame(id, block, end);
            Handle(k, f) == HandleHeaders(Touch(k, id), f) && f.flags / 4 % 2 == 1 && (EndStream(f) <==> end)
  {
  }

  lemma HeadersHandled(k: Core, id: nat, block: bytes, headers: seq<Header>, end: bool, table: Table)
    requires Sound(k) && id > 0 && !Finished(k, id)
    requires Decode(k.decoder, block, StreamAt(k, id).headers) == Decoded(table, headers, None)
    ensures var s := StreamAt(k, id).(state := if end then HalfClosedRemote else Open, headers := headers);
            Handle(k, HeadersFrame(id, block, end)) ==
            Handled(Core(k.done, k.streams[id := s], Max(k.lastPeer, id), table, k.send), if end then [id] else [], None)
  {
    HeadersDispatched(k, id, block, end);
    TouchedAt(k, id, StreamAt(k, id).(state := if end then HalfClosedRemote else Open, headers := headers));
  }

  lemma HeadersRefused(k: Core, id: nat, block: bytes, end: bool)
    requires Sound(k) && id > 0 && !Finished(k, id) && Decode(k.decoder, block, StreamAt(k, id).headers).error.Some?
    ensures var h := Handle(k, HeadersFrame(id, block, end));
            h.error.Some? && h.core.decoder == Decode(k.decoder, block, StreamAt(k, id).headers).table
  {
    HeadersDispatched(k, id, block, end);
    TouchedAt(k, id, NEW_STREAM);
  }

  lemma FramesDelivered(k: Core, id: nat, block: bytes, headers: seq<Header>, body: bytes, end: bool, table: Table)
    requires Sound(k) && id > 0 && !Finished(k, id) && HeadersAccepted(id, block, MAX_FRAME_SIZE)
    requires Decode(k.decoder, block, StreamAt(k, id).headers) == Decoded(table, headers, None)
    ensures var s := StreamAt(k, id);
            var s' := Stream(if end then HalfClosedRemote else Open, s.sendWindow, s.body + body, headers);
            Frames(k, Serialize(ResponseFrames(id, block, body, end))) ==
            Looped(Core(k.done, k.streams[id := s'], Max(k.lastPeer, id), table, k.send), [], if end then [id] else [], None)
  {
    var end0 := body == [] && end;
    var first := HeadersFrame(id, block, end0);
    HeadersHandled(k, id, block, headers, end0, table);
    ResponseBytes(id, block, body, end);
    FirstFrame(k, first, Serialize(DataFrames(id, body, end, MAX_FRAME_SIZE)));
    var h := Handle(k, first);
    if body == [] {
      assert Frames(h.core, []) == Looped(h.core, [], [], None);
      assert h.ready + [] == h.ready && StreamAt(k, id).body + [] == StreamAt(k, id).body;
    } else {
      DataDelivered(h.core, id, body, end);
      BodyArrived(k, id, headers, body, end, h.core.streams);
    }
  }

  lemma BodyArrived(k: Core, id: nat, headers: seq<Header>, body: bytes, end: bool, streams: map<nat, Stream>)
    requires streams == k.streams[id := StreamAt(k, id).(state := Open, headers := headers)]
    ensures var s := Stream(if end then HalfClosedRemote else Open, StreamAt(k, id).sendWindow, StreamAt(k, id).body + body, headers);
            streams[id := s] == k.streams[id := s]
  {
  }

  /** A header block that cannot be decoded stops the peer at its frame. */
  lemma FramesRefused(k: Core, id: nat, block: bytes, body: bytes, end: bool)
    requires Sound(k) && id > 0 && !Finished(k, id) && HeadersAccepted(id, block, MAX_FRAME_SIZE)
    requires Decode(k.decoder, block, StreamAt(k, id).headers).error.Some?
    ensures var l := Frames(k, Serialize(ResponseFrames(id, block, body, end)));
            l.error.Some? && l.core.decoder == Decode(k.decoder, block, StreamAt(k, id).headers).table
  {
    var end0 := body == [] && end;
    var first := HeadersFrame(id, block, end0);
    ResponseBytes(id, block, body, end);
    HeadersRefused(k, id, block, end0);
    FrameRoundTrip(first, Serialize(DataFrames(id, body, end, MAX_FRAME_SIZE)), MAX_FRAME_SIZE);
  }

  function Resets(id: nat, n: nat): seq<Frame> {
    if n == 0 then [] else [ResetFrame(id, STREAM_CLOSED)] + Resets(id, n - 1)
  }

  lemma ResetHandled(k: Core, f: Frame)
    requires Sound(k) && Finished(k, f.streamId) && (f.kind == HEADERS || f.kind == DATA)
    ensures Handle(k, f) == Handled(Reply(k, ResetFrame(f.streamId, STREAM_CLOSED)), [], None)
  {
    assert Touch(k, f.streamId) == k;
  }

  /** Frames for a stream that is finished are answered with a reset each and change nothing else, the header table included. */
  lemma {:induction false} FramesReset(k: Core, id: nat, frames: seq<Frame>)
    requires Sound(k) && Finished(k, id) && AllFit(frames, MAX_FRAME_SIZE)
    requires forall i | 0 <= i < |frames| :: frames[i].streamId == id && (frames[i].kind == HEADERS || frames[i].kind == DATA)
    ensures Frames(k, Serialize(frames)) == Looped(k.(send := k.send + Serialize(Resets(id, |frames|))), [], [], None)
    decreases |frames|
  {
    if frames == [] {
      assert k.send + [] == k.send;
    } else {
      var f, rest := frames[0], frames[1..];
      ResetHandled(k, f);
      FirstFrame(k, f, Serialize(rest));
      var k' := Reply(k, ResetFrame(id, STREAM_CLOSED));
      FramesReset(k', id, rest);
      FirstReset(k.send, id, |frames|, |rest|);
    }
  }

  lemma FirstReset(send: bytes, id: nat, n: nat, m: nat)
    requires n == m + 1
    ensures send + Serialize(Resets(id, n)) == send + FrameBytes(ResetFrame(id, STREAM_CLOSED)) + Serialize(Resets(id, m))
  {
    assert Resets(id, n)[1..] == Resets(id, m);
    Assoc(send, FrameBytes(ResetFrame(id, STREAM_CLOSED)), Serialize(Resets(id, m)));
  }

  /** A call of send_response, accepted or not. */
  datatype Response = Response(id: nat, headers: seq<Header>, body: bytes, end: bool)

  ghost function Respond1(c: Conn, r: Response): Sending {
    SendResponse(c, r.id, r.headers, r.body, r.end)
  }

  ghost function AfterAll(c: Conn, rs: seq<Response>): Conn
    decreases |rs|
  {
    if rs == [] then c else AfterAll(Respond1(c, rs[0]).conn, rs[1..])
  }

  /** The calls that succeed, and the bytes they add to the output. */
  ghost function AcceptedOf(c: Conn, rs: seq<Response>): seq<Response>
    decreases |rs|
  {
    if rs == [] then []
    else (if Respond1(c, rs[0]).ok then [rs[0]] else []) + AcceptedOf(Respond1(c, rs[0]).conn, rs[1..])
  }

  ghost function BytesOf(c: Conn, r: Response): bytes {
    if Respond1(c, r).ok then Serialize(ResponseFrames(r.id, Encode(c.encoder, r.headers).data, r.body, r.end)) else []
  }

  ghost function BytesOfAll(c: Conn, rs: seq<Response>): bytes
    decreases |rs|
  {
    if rs == [] then [] else BytesOf(c, rs[0]) + BytesOfAll(Respond1(c, rs[0]).conn, rs[1..])
  }

  lemma {:induction false} OutputOfAll(c: Conn, rs: seq<Response>)
    ensures AfterAll(c, rs).core == c.core.(send := c.core.send + BytesOfAll(c, rs))
    decreases |rs|
  {
    if rs == [] {
      assert c.core.send + [] == c.core.send;
    } else {
      var c' := Respond1(c, rs[0]).conn;
      OutputOfAll(c', rs[1..]);
      Assoc(c.core.send, BytesOf(c, rs[0]), BytesOfAll(c', rs[1..]));
      assert c.core.send + [] == c.core.send;
    }
  }

  /** How many frames a response takes. */
  function FrameCount(r: Response): nat {
    1 + |DataFrames(r.id, r.body, r.end, MAX_FRAME_SIZE)|
  }

  /** Whether the peer gets through a response: it can read the headers, or it does not look at them any more. */
  ghost predicate Legible(k: Core, r: Response) {
    Finished(k, r.id) || AllReadable(r.headers)
  }

  /** The peer after a response. */
  ghost function TakeIn(k: Core, r: Response): Core {
    if Finished(k, r.id) then k.(send := k.send + Serialize(Resets(r.id, FrameCount(r))))
    else
      Core(k.done, k.streams[r.id := StreamAfter(StreamAt(k, r.id), r)], Max(k.lastPeer, r.id), RememberAll(k.decoder, r.headers),
           k.send)
  }

  ghost function ReadyOf(k: Core, r: Response): seq<nat> {
    if r.end && !Finished(k, r.id) then [r.id] else []
  }

  lemma TakenWhenFinished(c: Conn, k: Core, r: Response)
    requires Sound(k) && Respond1(c, r).ok && Finished(k, r.id)
    ensures Frames(k, BytesOf(c, r)) == Looped(TakeIn(k, r), [], [], None)
  {
    var block := Encode(c.encoder, r.headers).data;
    ResponseFramesCarry(r.id, block, r.body, r.end);
    FramesReset(k, r.id, ResponseFrames(r.id, block, r.body, r.end));
  }

  lemma TakenWhenReadable(c: Conn, k: Core, r: Response)
    requires Sound(k) && Respond1(c, r).ok && !Finished(k, r.id) && AllReadable(r.headers)
    ensures Frames(k, BytesOf(c, r)) == Looped(TakeIn(k, r), [], ReadyOf(k, r), None)
  {
    var block, s := Encode(c.encoder, r.headers).data, StreamAt(k, r.id);
    BlockRoundTrip(c.encoder, k.decoder, r.headers, s.headers);
    FramesDelivered(k, r.id, block, s.headers + SentAll(r.headers), r.body, r.end, RememberAll(k.decoder, r.headers));
  }

  lemma RefusedWhenUnreadable(c: Conn, k: Core, r: Response)
    requires Sound(k) && Respond1(c, r).ok && !Finished(k, r.id) && !AllReadable(r.headers)
    ensures var l := Frames(k, BytesOf(c, r));
            l.error.Some? && l.core.decoder == RememberAll(k.decoder, ReadableFront(r.headers))
  {
    var block, s := Encode(c.encoder, r.headers).data, StreamAt(k, r.id);
    BlockRoundTrip(c.encoder, k.decoder, r.headers, s.headers);
    FramesRefused(k, r.id, block, r.body, r.end);
  }

  /**
   A peer connection that reads the output of send_response, whatever its header table and whatever it knows of the stream: on a
   stream it has finished it answers resets and changes nothing else; else it adds headers and body to the stream, and fails
   exactly if it cannot read the headers.
   */
  lemma ResponseDelivered(c: Conn, k: Core, r: Response)
    requires Sound(k) && Respond1(c, r).ok
    ensures Respond1(c, r).conn == c.(core := c.core.(send := c.core.send + BytesOf(c, r)), encoder := RememberAll(c.encoder, r.headers))
    ensures var l := Frames(k, BytesOf(c, r));
            if Legible(k, r) then l == Looped(TakeIn(k, r), [], ReadyOf(k, r), None) else l.error.Some?
  {
    EncodeRemembers(c.encoder, r.headers);
    if Finished(k, r.id) {
      TakenWhenFinished(c, k, r);
    } else if AllReadable(r.headers) {
      TakenWhenReadable(c, k, r);
    } else {
      RefusedWhenUnreadable(c, k, r);
    }
  }

  /** The peer after a list of responses, the streams it reports, and whether it gets through. */
  ghost function TakeInAll(k: Core, rs: seq<Response>): Core
    decreases |rs|
  {
    if rs == [] then k else TakeInAll(TakeIn(k, rs[0]), rs[1..])
  }

  ghost function ReadyOfAll(k: Core, rs: seq<Response>): seq<nat>
    decreases |rs|
  {
    if rs == [] then [] else ReadyOf(k, rs[0]) + ReadyOfAll(TakeIn(k, rs[0]), rs[1..])
  }

  ghost predicate AllLegible(k: Core, rs: seq<Response>)
    decreases |rs|
  {
    rs == [] || (Legible(k, rs[0]) && AllLegible(TakeIn(k, rs[0]), rs[1..]))
  }

  /**
   End to end, over any list of calls of send_response, refused ones included, on any streams and for a peer in any sound state
   with any header table: the peer takes in exactly the accepted responses, one after the other, and reports the streams that end;
   it fails exactly if it comes to headers no decoder can read.
   */
  lemma {:induction false} ResponsesDelivered(c: Conn, k: Core, rs: seq<Response>)
    requires Sound(k)
    ensures var l, accepted := Frames(k, BytesOfAll(c, rs)), AcceptedOf(c, rs);
            if AllLegible(k, accepted) then l == Looped(TakeInAll(k, accepted), [], ReadyOfAll(k, accepted), None)
            else l.error.Some?
    decreases |rs|
  {
    if rs != [] {
      var r, c', rest := rs[0], Respond1(c, rs[0]).conn, BytesOfAll(Respond1(c, rs[0]).conn, rs[1..]);
      if Respond1(c, r).ok {
        AcceptedFirst(c, rs);
        ResponseDelivered(c, k, r);
        if Legible(k, r) {
          var l := Frames(k, BytesOf(c, r));
          FramesSafe(k, BytesOf(c, r));
          ThenMore(k, BytesOf(c, r), rest, l);
          ResponsesDelivered(c', l.core, rs[1..]);
        } else {
          FramesExtended(k, BytesOf(c, r), rest);
        }
      } else {
        NoneSent(c, rs);
        ResponsesDelivered(c', k, rs[1..]);
      }
    }
  }

  lemma ThenMore(k: Core, first: bytes, rest: bytes, l: Looped)
    requires l == Frames(k, first) && l.error.None? && l.recv == []
    ensures Frames(k, first + rest) == Then(l, Frames(l.core, rest))
  {
    FramesExtended(k, first, rest);
    assert l.recv + rest == rest;
  }

  lemma NoneSent(c: Conn, rs: seq<Response>)
    requires rs != [] && !Respond1(c, rs[0]).ok
    ensures AcceptedOf(c, rs) == AcceptedOf(Respond1(c, rs[0]).conn, rs[1..])
    ensures BytesOfAll(c, rs) == BytesOfAll(Respond1(c, rs[0]).conn, rs[1..])
  {
  }

  lemma AcceptedFirst(c: Conn, rs: seq<Response>)
    requires rs != [] && Respond1(c, rs[0]).ok
    ensures var later := AcceptedOf(Respond1(c, rs[0]).conn, rs[1..]);
            AcceptedOf(c, rs) == [rs[0]] + later && AcceptedOf(c, rs) != [] && AcceptedOf(c, rs)[0] == rs[0] && AcceptedOf(c, rs)[1..] == later
  {
  }

  /** Responses for distinct streams the peer has not seen. */
  ghost predicate Awaited(k: Core, rs: seq<Response>) {
    && (forall i | 0 <= i < |rs| :: rs[i].id !in k.streams)
    && (forall i, j | 0 <= i < j < |rs| :: rs[i].id != rs[j].id)
  }

  predicate Understood(rs: seq<Response>) {
    forall i | 0 <= i < |rs| :: AllReadable(rs[i].headers)
  }

  ghost predicate Holds(k: Core, r: Response) {
    r.id in k.streams && k.streams[r.id] == StreamAfter(NEW_STREAM, r)
  }

  function EndedIds(rs: seq<Response>): seq<nat> {
    if rs == [] then [] else (if rs[0].end then [rs[0].id] else []) + EndedIds(rs[1..])
  }

  lemma FirstAwaited(k: Core, rs: seq<Response>)
    requires rs != [] && Awaited(k, rs)
    ensures !Finished(k, rs[0].id) && StreamAt(k, rs[0].id) == NEW_STREAM && Awaited(TakeIn(k, rs[0]), rs[1..])
    ensures Understood(rs) <==> AllReadable(rs[0].headers) && Understood(rs[1..])
  {
    assert forall i | 0 <= i < |rs[1..]| :: rs[1..][i] == rs[i + 1];
    assert forall i | 0 < i < |rs| :: rs[i] == rs[1..][i - 1];
  }

  /** Streams a list of responses does not name stay as they are. */
  lemma {:induction false} OthersStay(k: Core, rs: seq<Response>, id: nat)
    requires id in k.streams && forall i | 0 <= i < |rs| :: rs[i].id != id
    ensures id in TakeInAll(k, rs).streams && TakeInAll(k, rs).streams[id] == k.streams[id]
    decreases |rs|
  {
    if rs != [] {
      OthersStay(TakeIn(k, rs[0]), rs[1..], id);
    }
  }

  /**
   In particular, on distinct streams the peer has not seen: it gets through exactly if every response is readable, then holds exactly
   the headers and bodies sent, reports the streams in order, sends nothing and changes no other stream.
   */
  lemma {:induction false} NewStreamsDelivered(k: Core, rs: seq<Response>)
    requires Awaited(k, rs)
    ensures AllLegible(k, rs) <==> Understood(rs)
    ensures var k' := TakeInAll(k, rs);
            && ReadyOfAll(k, rs) == EndedIds(rs) && k'.send == k.send
            && (forall i | 0 <= i < |rs| :: Holds(k', rs[i]))
            && (forall id | id in k.streams :: id in k'.streams && k'.streams[id] == k.streams[id])
    decreases |rs|
  {
    if rs != [] {
      var k1 := TakeIn(k, rs[0]);
      FirstAwaited(k, rs);
      NewStreamsDelivered(k1, rs[1..]);
      FirstHeld(k, rs);
    }
  }

  lemma FirstHeld(k: Core, rs: seq<Response>)
    requires rs != [] && Awaited(k, rs)
    requires var k' := TakeInAll(TakeIn(k, rs[0]), rs[1..]);
             && (forall i | 0 <= i < |rs[1..]| :: Holds(k', rs[1..][i]))
             && (forall id | id in TakeIn(k, rs[0]).streams :: id in k'.streams && k'.streams[id] == TakeIn(k, rs[0]).streams[id])
    ensures var k' := TakeInAll(k, rs);
            && (forall i | 0 <= i < |rs| :: Holds(k', rs[i]))
            && (forall id | id in k.streams :: id in k'.streams && k'.streams[id] == k.streams[id])
  {
    FirstAwaited(k, rs);
    var k' := TakeInAll(k, rs);
    assert Holds(TakeIn(k, rs[0]), rs[0]);
    forall i | 0 <= i < |rs|
      ensures Holds(k', rs[i])
    {
      if i > 0 {
        assert rs[i] == rs[1..][i - 1];
      }
    }
  }

  /** All headers the calls made the encoder remember or pass over, in order. */
  function Offered(rs: seq<Response>): seq<Header> {
    if rs == [] then [] else Lowercase(rs[0].headers) + Offered(rs[1..])
  }

  /** The headers the peer's decoder reads. */
  ghost function Heard(k: Core, rs: seq<Response>): seq<Header>
    decreases |rs|
  {
    if rs == [] then []
    else (if Finished(k, rs[0].id) then [] else rs[0].headers) + Heard(TakeIn(k, rs[0]), rs[1..])
  }

  /** The encoder after a list of calls has also taken in what the refused ones offered. */
  lemma {:induction false} EncoderAfter(c: Conn, rs: seq<Response>)
    ensures AfterAll(c, rs).encoder == RememberAll(c.encoder, Offered(rs))
    decreases |rs|
  {
    if rs != [] {
      EncodeRemembers(c.encoder, rs[0].headers);
      EncoderAfter(Respond1(c, rs[0]).conn, rs[1..]);
      RememberAllConcat(c.encoder, Lowercase(rs[0].headers), Offered(rs[1..]));
    }
  }

  lemma {:induction false} DecoderAfter(k: Core, rs: seq<Response>)
    ensures TakeInAll(k, rs).decoder == RememberAll(k.decoder, Heard(k, rs))
    decreases |rs|
  {
    if rs != [] {
      var k1 := TakeIn(k, rs[0]);
      DecoderAfter(k1, rs[1..]);
      if Finished(k, rs[0].id) {
        assert [] + Heard(k1, rs[1..]) == Heard(k1, rs[1..]);
      } else {
        RememberAllConcat(k.decoder, rs[0].headers, Heard(k1, rs[1..]));
      }
    }
  }

  /**
   When the peer has read everything and its table equals the encoder's, in terms of the calls alone: it can read every accepted
   response, and what all calls stored and what it heard leave the same newest entries within the limit.
   */
  lemma AgreeIff(c: Conn, k: Core, rs: seq<Response>)
    requires Sound(k) && k.decoder == c.encoder && Consistent(c.encoder)
    ensures var l, t, accepted := Frames(k, BytesOfAll(c, rs)), c.encoder, AcceptedOf(c, rs);
            l.error.None? && l.core.decoder == AfterAll(c, rs).encoder <==>
            && AllLegible(k, accepted)
            && Fit(Stored(Offered(rs)) + t.entries, t.limit) == Fit(Stored(Heard(k, accepted)) + t.entries, t.limit)
  {
    var t := c.encoder;
    ResponsesDelivered(c, k, rs);
    EncoderAfter(c, rs);
    DecoderAfter(k, AcceptedOf(c, rs));
    FitAll(t.entries, t.limit);
    RememberAllFits(t, t.entries, Offered(rs));
    RememberAllFits(t, t.entries, Heard(k, AcceptedOf(c, rs)));
  }

  /** The peer reads the output after every call, and each time succeeds and then has the encoder's table. */
  ghost predicate AgreeThroughout(c: Conn, k: Core, rs: seq<Response>)
    decreases |rs|
  {
    c.encoder == k.decoder &&
    (rs == [] ||
     var l := Frames(k, BytesOf(c, rs[0]));
     l.error.None? && AgreeThroughout(Respond1(c, rs[0]).conn, l.core, rs[1..]))
  }

  /**
   What it takes, call by call: headers the peer is to read are readable, and headers only the encoder sees, of a refused call or on
   a stream the peer has finished, go unnoticed by its table.
   */
  ghost predicate Unspoilt(c: Conn, k: Core, rs: seq<Response>)
    decreases |rs|
  {
    rs == [] ||
    var ok := Respond1(c, rs[0]).ok;
    && (if ok && !Finished(k, rs[0].id) then AllReadable(rs[0].headers) else Unnoticed(c.encoder, Lowercase(rs[0].headers)))
    && Unspoilt(Respond1(c, rs[0]).conn, if ok then TakeIn(k, rs[0]) else k, rs[1..])
  }

  lemma {:induction false} AgreeThroughoutIff(c: Conn, k: Core, rs: seq<Response>)
    requires Sound(k) && k.decoder == c.encoder && Consistent(c.encoder)
    ensures AgreeThroughout(c, k, rs) <==> Unspoilt(c, k, rs)
    decreases |rs|
  {
    if rs != [] {
      var r, c', l := rs[0], Respond1(c, rs[0]).conn, Frames(k, BytesOf(c, rs[0]));
      AfterOneCall(c, k, r);
      FramesSafe(k, BytesOf(c, r));
      if l.error.None? && c'.encoder == l.core.decoder {
        AgreeThroughoutIff(c', l.core, rs[1..]);
      }
    }
  }

  lemma AfterOneCall(c: Conn, k: Core, r: Response)
    requires Sound(k) && k.decoder == c.encoder && Consistent(c.encoder)
    ensures var c', l, ok := Respond1(c, r).conn, Frames(k, BytesOf(c, r)), Respond1(c, r).ok;
            && Consistent(c'.encoder)
            && (l.error.None? && c'.encoder == l.core.decoder <==>
                if ok && !Finished(k, r.id) then AllReadable(r.headers) else Unnoticed(c.encoder, Lowercase(r.headers)))
            && (l.error.None? ==> l.core == if ok then TakeIn(k, r) else k)
  {
    var t := c.encoder;
    EncodeRemembers(t, r.headers);
    UnnoticedIff(t, Lowercase(r.headers));
    FitAll(t.entries, t.limit);
    RememberAllFits(t, t.entries, Lowercase(r.headers));
    if Respond1(c, r).ok {
      ResponseDelivered(c, k, r);
    }
  }

  /** Every refused call goes unnoticed by the table it meets. */
  ghost predicate RefusalsUnnoticed(c: Conn, rs: seq<Response>)
    decreases |rs|
  {
    rs == [] ||
    (&& (!Respond1(c, rs[0]).ok ==> Unnoticed(c.encoder, Lowercase(rs[0].headers)))
     && RefusalsUnnoticed(Respond1(c, rs[0]).conn, rs[1..]))
  }

  /** On distinct streams the peer has not seen: the refused calls go unnoticed and the accepted responses are readable. */
  lemma {:induction false} UnspoiltOnNewStreams(c: Conn, k: Core, rs: seq<Response>)
    requires Awaited(k, AcceptedOf(c, rs))
    ensures Unspoilt(c, k, rs) <==> RefusalsUnnoticed(c, rs) && Understood(AcceptedOf(c, rs))
    decreases |rs|
  {
    if rs != [] {
      if Respond1(c, rs[0]).ok {
        AcceptedFirst(c, rs);
        FirstAwaited(k, AcceptedOf(c, rs));
        UnspoiltOnNewStreams(Respond1(c, rs[0]).conn, TakeIn(k, rs[0]), rs[1..]);
      } else {
        NoneSent(c, rs);
        UnspoiltOnNewStreams(Respond1(c, rs[0]).conn, k, rs[1..]);
      }
    }
  }

  /** On distinct streams the peer has not seen, in terms of the calls alone. */
  lemma AgreeOnNewStreamsIff(c: Conn, k: Core, rs: seq<Response>)
    requires Sound(k) && k.decoder == c.encoder && Consistent(c.encoder) && Awaited(k, AcceptedOf(c, rs))
    ensures AgreeThroughout(c, k, rs) <==> RefusalsUnnoticed(c, rs) && Understood(AcceptedOf(c, rs))
  {
    AgreeThroughoutIff(c, k, rs);
    UnspoiltOnNewStreams(c, k, rs);
  }

  /** A response whose second header has a capital letter: nothing is sent, and the encoder no longer agrees with its peer. */
  lemma RefusalLeavesTrace(c: Conn, id: nat, body: bytes, end: bool)
    requires c.encoder == EMPTY_TABLE
    ensures var headers := [Header(Ascii(":status"), Ascii("200"), false), Header(Ascii("Server"), Ascii("x"), false)];
            var s := SendResponse(c, id, headers, body, end);
            !s.ok && s.conn.core == c.core && s.conn.encoder.entries == [headers[0]] && s.conn.encoder != c.encoder
  {
    var h, bad := Header(Ascii(":status"), Ascii("200"), false), Header(Ascii("Server"), Ascii("x"), false);
    var headers := [h, bad];
    NoCapitals(h.name);
    assert bad.name[0] == 83;
    assert headers[1..] == [bad];
    assert !Sensitive(h);
    assert Add(EMPTY_TABLE, h) == Table([h], 42, 4096) by {
      assert [h] + [] == [h];
    }
    assert Encode(Remember(EMPTY_TABLE, h), [bad]) == Block(Table([h], 42, 4096), [], Some(UppercaseName));
  }

  /** A header that the encoder stores and that is small enough for the sizes not to matter. */
  predicate Plain(h: Header) {
    |h.name| < 127 && |h.value| < 127 && !HasUppercase(h.name) && !Sensitive(h)
  }

  /**
   A response whose second header has an empty value: it is accepted and sent, the peer stops at it, and only the encoder
   remembers it.
   */
  lemma EmptyValueDivides(c: Conn, k: Core, id: nat, h: Header, empty: Header)
    requires c.encoder == EMPTY_TABLE && k.decoder == EMPTY_TABLE && Sound(k) && 0 < id <= MAX_STREAM && id !in k.streams
    requires Plain(h) && h.name != [] && h.value != [] && Plain(empty) && empty.value == []
    ensures var r := Response(id, [h, empty], [], true);
            var s, l := Respond1(c, r), Frames(k, BytesOf(c, r));
            s.ok && l.error.Some? && s.conn.encoder.entries == [empty, h] && l.core.decoder.entries == [h]
  {
    var r := Response(id, [h, empty], [], true);
    BothStored(h, empty);
    OneStored(h);
    TwoShort(h, empty);
    EncodeRemembers(EMPTY_TABLE, r.headers);
    RefusedWhenUnreadable(c, k, r);
  }

  lemma OneStored(h: Header)
    requires Plain(h)
    ensures RememberAll(EMPTY_TABLE, [h]) == Add(EMPTY_TABLE, h) && Add(EMPTY_TABLE, h).entries == [h]
    ensures Add(EMPTY_TABLE, h).size == EntrySize(h) && Add(EMPTY_TABLE, h).limit == 4096
  {
    assert [h] + [] == [h] && [h][1..] == [];
  }

  lemma BothStored(h: Header, empty: Header)
    requires Plain(h) && Plain(empty)
    ensures RememberAll(EMPTY_TABLE, [h, empty]).entries == [empty, h]
  {
    OneStored(h);
    var t := Add(EMPTY_TABLE, h);
    assert [h, empty][1..] == [empty] && [empty][1..] == [];
    assert RememberAll(t, [empty]) == Add(t, empty);
    assert [empty] + [h] == [empty, h];
  }

  lemma OneEncoded(t: Table, h: Header)
    requires !HasUppercase(h.name)
    ensures Encode(t, [h]) == Block(Remember(t, h), Hpack.HeaderBytes(h), None)
  {
    var rest := [h][1..];
    assert rest == [];
    assert Encode(Remember(t, h), rest) == Block(Remember(t, h), [], None);
    assert Hpack.HeaderBytes(h) + [] == Hpack.HeaderBytes(h);
  }

  lemma TwoShort(h: Header, empty: Header)
    requires Plain(h) && h.name != [] && h.value != [] && Plain(empty) && empty.value == []
    ensures var headers := [h, empty];
            && |Encode(EMPTY_TABLE, headers).data| <= 1000 && Encode(EMPTY_TABLE, headers).error == None
            && AllLowercase(headers) && !AllReadable(headers) && ReadableFront(headers) == [h]
  {
    var headers := [h, empty];
    ShortHeader(h);
    ShortHeader(empty);
    assert headers[1] == empty && headers[1..] == [empty] && [empty][1..] == [];
    OneEncoded(Remember(EMPTY_TABLE, h), empty);
    assert !Readable(headers[1]);
  }

  lemma NoCapitals(name: bytes)
    requires name == Ascii(":status")
    ensures !HasUppercase(name)
  {
  }
}
