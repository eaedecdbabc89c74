/** H2FrameWriter and H2FrameReader as they work on ring buffers, each proved against the frames it stands for. */
module H2Writer {
  import opened Bytes
  import opened Buffer
  import opened H2Frame

  /** The DATA frames of a body, at most maxFrameSize bytes each. */
  function DataFrames(streamId: nat, data: bytes, end: bool, maxFrameSize: nat): seq<Frame>
    requires maxFrameSize > 0
  {
    if data == [] then []
    else
      var n := Min(maxFrameSize, |data|);
      [Frame(DATA, if end && n == |data| then END_STREAM else 0, streamId, data[..n])]
      + DataFrames(streamId, data[n..], end, maxFrameSize)
  }

  function Payloads(frames: seq<Frame>): bytes {
    if frames == [] then [] else frames[0].payload + Payloads(frames[1..])
  }

  /** The frames carry the body in order; the last one, and only it, ends the stream when that is asked for. */
  lemma {:induction false} DataFramesCarry(streamId: nat, data: bytes, end: bool, maxFrameSize: nat)
    requires maxFrameSize > 0
    ensures var frames := DataFrames(streamId, data, end, maxFrameSize);
            && Payloads(frames) == data
            && (data != [] ==> frames != [])
            && forall i | 0 <= i < |frames| ::
                 && frames[i].kind == DATA && frames[i].streamId == streamId
                 && 0 < |frames[i].payload| <= maxFrameSize
                 && frames[i].flags == if end && i == |frames| - 1 then END_STREAM else 0
    decreases |data|
  {
    if data != [] {
      var n := Min(maxFrameSize, |data|);
      DataFramesCarry(streamId, data[n..], end, maxFrameSize);
      assert data == data[..n] + data[n..];
    }
  }

  const MAX_FRAME_SIZE := 16384

  /** The frames of a response. */
  function ResponseFrames(id: nat, block: bytes, body: bytes, end: bool): seq<Frame> {
    [HeadersFrame(id, block, body == [] && end)] + DataFrames(id, body, end, MAX_FRAME_SIZE)
  }

  lemma ResponseBytes(id: nat, block: bytes, body: bytes, end: bool)
    ensures var frames := ResponseFrames(id, block, body, end);
            && frames[0] == HeadersFrame(id, block, body == [] && end)
            && frames[1..] == DataFrames(id, body, end, MAX_FRAME_SIZE)
            && Serialize(frames) == FrameBytes(frames[0]) + Serialize(DataFrames(id, body, end, MAX_FRAME_SIZE))
  {
  }

  /**
   One HEADERS frame with the header block, then DATA frames of at most the maximum size whose payloads concatenate to the
   body, END_STREAM on the last frame and no other, exactly if asked for; and all of it can be read back.
   */
  ghost predicate Carries(frames: seq<Frame>, id: nat, block: bytes, body: bytes, end: bool) {
    && frames != [] && frames[0].kind == HEADERS && frames[0].payload == block && Payloads(frames[1..]) == body
    && (forall i | 0 < i < |frames| :: frames[i].kind == DATA)
    && (forall i | 0 <= i < |frames| :: frames[i].streamId == id && |frames[i].payload| <= MAX_FRAME_SIZE)
    && (forall i | 0 <= i < |frames| :: EndStream(frames[i]) <==> end && i == |frames| - 1)
    && ReadAll(Serialize(frames), MAX_FRAME_SIZE) == AllRead(frames, [], false)
  }

  lemma ResponseFramesCarry(id: nat, block: bytes, body: bytes, end: bool)
    requires HeadersAccepted(id, block, MAX_FRAME_SIZE)
    ensures Carries(ResponseFrames(id, block, body, end), id, block, body, end)
  {
    var frames := ResponseFrames(id, block, body, end);
    var data := DataFrames(id, body, end, MAX_FRAME_SIZE);
    DataFramesCarry(id, body, end, MAX_FRAME_SIZE);
    ResponseBytes(id, block, body, end);
    forall i | 0 < i < |frames|
      ensures frames[i] == data[i - 1]
    {
      assert frames[1..][i - 1] == frames[i];
    }
    assert |frames| == 1 + |data| && (data == [] <==> body == []);
    forall i | 0 <= i < |frames|
      ensures EndStream(frames[i]) <==> end && i == |frames| - 1
    {
      if i > 0 {
        assert frames[i].flags == if end && i == |frames| - 1 then END_STREAM else 0;
      }
    }
    ReadSerialized(frames, MAX_FRAME_SIZE);
  }

  /** Fails, writing nothing, when the length or the stream id does not fit its field. */
  method WriteFrameHeader(buf: RingBuffer, length: nat, kind: byte, flags: byte, streamId: nat) returns (ok: bool)
    requires buf.Valid()
    modifies buf, buf.data
    ensures buf.Valid() && (buf.data == old(buf.data) || fresh(buf.data))
    ensures ok == (length <= MAX_LENGTH && streamId <= MAX_STREAM)
    ensures buf.Contents() == old(buf.Contents()) + if ok then HeaderBytes(length, kind, flags, streamId) else []
  {
    ok := length <= MAX_LENGTH && streamId <= MAX_STREAM;
    if ok {
      buf.Append(HeaderBytes(length, kind, flags, streamId));
    }
  }

  /** A frame header and its payload, or nothing. */
  method WriteFrame(buf: RingBuffer, f: Frame) returns (ok: bool)
    requires buf.Valid()
    modifies buf, buf.data
    ensures buf.Valid() && (buf.data == old(buf.data) || fresh(buf.data))
    ensures ok == Sendable(f)
    ensures buf.Contents() == old(buf.Contents()) + if ok then FrameBytes(f) else []
  {
    ghost var start := buf.Contents();
    ok := WriteFrameHeader(buf, |f.payload|, f.kind, f.flags, f.streamId);
    if ok {
      buf.Append(f.payload);
      Assoc(start, HeaderBytes(|f.payload|, f.kind, f.flags, f.streamId), f.payload);
    }
  }

  const SETTINGS_FRAME := Frame(SETTINGS, 0, 0, [])
  const SETTINGS_ACK := Frame(SETTINGS, ACK, 0, [])

  function PingAck(payload: bytes): Frame {
    Frame(PING, ACK, 0, payload)
  }

  function ResetFrame(streamId: nat, code: nat): Frame {
    Frame(RST_STREAM, 0, streamId, BigEndian(code, 4))
  }

  function WindowUpdateFrame(streamId: nat, increment: nat): Frame {
    Frame(WINDOW_UPDATE, 0, streamId, BigEndian(increment, 4))
  }

  function GoawayFrame(lastStreamId: nat, code: nat, debug: bytes): Frame {
    Frame(GOAWAY, 0, 0, BigEndian(lastStreamId % 0x8000_0000, 4) + BigEndian(code, 4) + debug)
  }

  /** Answers a PING with the eight bytes of data, most significant first. */
  method WritePing(buf: RingBuffer, data: nat, ack: bool) returns (ok: bool)
    requires buf.Valid()
    modifies buf, buf.data
    ensures buf.Valid() && (buf.data == old(buf.data) || fresh(buf.data))
    ensures ok && buf.Contents() == old(buf.Contents()) + FrameBytes(Frame(PING, if ack then ACK else 0, 0, BigEndian(data, 8)))
  {
    var payload: bytes := [];
    var rest := data;
    for i := 0 to 8
      invariant |payload| == i
      invariant BigEndian(data, 8) == BigEndian(rest, 8 - i) + payload
    {
      payload := [rest % 256] + payload;
      rest := rest / 256;
    }
    assert BigEndian(data, 8) == payload;
    ok := WriteFrame(buf, Frame(PING, if ack then ACK else 0, 0, payload));
  }

  method WriteRstStream(buf: RingBuffer, streamId: nat, code: nat) returns (ok: bool)
    requires buf.Valid()
    modifies buf, buf.data
    ensures buf.Valid() && (buf.data == old(buf.data) || fresh(buf.data))
    ensures ok == (0 < streamId <= MAX_STREAM)
    ensures buf.Contents() == old(buf.Contents()) + if ok then FrameBytes(ResetFrame(streamId, code)) else []
  {
    if streamId == 0 {
      return false;
    }
    ok := WriteFrame(buf, ResetFrame(streamId, code));
  }

  method WriteWindowUpdate(buf: RingBuffer, streamId: nat, increment: nat) returns (ok: bool)
    requires buf.Valid()
    modifies buf, buf.data
    ensures buf.Valid() && (buf.data == old(buf.data) || fresh(buf.data))
    ensures ok == (0 < increment <= 0x7fff_ffff && streamId <= MAX_STREAM)
    ensures buf.Contents() == old(buf.Contents()) + if ok then FrameBytes(WindowUpdateFrame(streamId, increment)) else []
  {
    if increment == 0 || increment > 0x7fff_ffff {
      return false;
    }
    ok := WriteFrame(buf, WindowUpdateFrame(streamId, increment));
  }

  function HeadersFrame(streamId: nat, block: bytes, end: bool): Frame {
    Frame(HEADERS, if end then END_HEADERS + END_STREAM else END_HEADERS, streamId, block)
  }

  predicate HeadersAccepted(streamId: nat, block: bytes, maxFrameSize: nat) {
    && streamId != 0 && |block| <= maxFrameSize
    && Sendable(HeadersFrame(streamId, block, false))
  }

  method WriteHeaders(buf: RingBuffer, streamId: nat, block: bytes, end: bool, maxFrameSize: nat) returns (ok: bool)
    requires buf.Valid()
    modifies buf, buf.data
    ensures buf.Valid() && (buf.data == old(buf.data) || fresh(buf.data))
    ensures ok == HeadersAccepted(streamId, block, maxFrameSize)
    ensures buf.Contents() == old(buf.Contents()) + if ok then FrameBytes(HeadersFrame(streamId, block, end)) else []
  {
    if streamId == 0 || |block| > maxFrameSize {
      return false;
    }
    ok := WriteFrame(buf, HeadersFrame(streamId, block, end));
  }

  /** Whether a body can be sent: if the first of its frames can, so can the others. */
  predicate DataAccepted(streamId: nat, data: bytes, maxFrameSize: nat) {
    && streamId != 0 && maxFrameSize != 0
    && (data == [] || (streamId <= MAX_STREAM && Min(maxFrameSize, |data|) <= MAX_LENGTH))
  }

  /** Sends the body chunk by chunk, all of it or nothing. */
  method WriteData(buf: RingBuffer, streamId: nat, data: bytes, end: bool, maxFrameSize: nat) returns (ok: bool)
    requires buf.Valid()
    modifies buf, buf.data
    ensures buf.Valid() && (buf.data == old(buf.data) || fresh(buf.data))
    ensures ok == DataAccepted(streamId, data, maxFrameSize)
    ensures buf.Contents() ==
            old(buf.Contents()) + if ok then Serialize(DataFrames(streamId, data, end, maxFrameSize)) else []
  {
    if streamId == 0 || maxFrameSize == 0 {
      return false;
    }
    ghost var start := buf.Contents();
    var offset: nat := 0;
    assert data[0..] == data;
    while offset < |data|
      invariant offset <= |data|
      invariant buf.Valid() && (buf.data == old(buf.data) || fresh(buf.data))
      invariant buf.Contents() + Unsent(streamId, data, end, maxFrameSize, offset) ==
                start + Unsent(streamId, data, end, maxFrameSize, 0)
      invariant if offset == 0 then buf.Contents() == start else DataAccepted(streamId, data, maxFrameSize)
    {
      ok, offset := WriteChunk(buf, streamId, data, end, maxFrameSize, offset);
      if !ok {
        return;
      }
    }
    assert data[|data|..] == [] && buf.Contents() + [] == buf.Contents();
    ok := true;
  }

  ghost function Unsent(streamId: nat, data: bytes, end: bool, maxFrameSize: nat, offset: nat): bytes
    requires maxFrameSize > 0 && offset <= |data|
  {
    Serialize(DataFrames(streamId, data[offset..], end, maxFrameSize))
  }

  /** One turn of the loop. */
  method WriteChunk(buf: RingBuffer, streamId: nat, data: bytes, end: bool, maxFrameSize: nat, offset: nat)
    returns (ok: bool, offset': nat)
    requires buf.Valid() && maxFrameSize > 0 && offset < |data|
    modifies buf, buf.data
    ensures buf.Valid() && (buf.data == old(buf.data) || fresh(buf.data))
    ensures ok == (streamId <= MAX_STREAM && Min(maxFrameSize, |data| - offset) <= MAX_LENGTH)
    ensures !ok ==> buf.Contents() == old(buf.Contents())
    ensures ok ==> offset < offset' <= |data|
    ensures ok ==> buf.Contents() + Unsent(streamId, data, end, maxFrameSize, offset') ==
                   old(buf.Contents()) + Unsent(streamId, data, end, maxFrameSize, offset)
  {
    ghost var start := buf.Contents();
    var chunk := Min(maxFrameSize, |data| - offset);
    var last := end && offset + chunk == |data|;
    var f := Frame(DATA, if last then END_STREAM else 0, streamId, data[offset..offset + chunk]);
    ok := WriteFrame(buf, f);
    offset' := offset + chunk;
    ChunkStep(streamId, data, end, maxFrameSize, offset, chunk, f);
    Assoc(start, FrameBytes(f), Unsent(streamId, data, end, maxFrameSize, offset'));
  }

  lemma ChunkStep(streamId: nat, data: bytes, end: bool, maxFrameSize: nat, offset: nat, chunk: nat, f: Frame)
    requires maxFrameSize > 0 && offset < |data| && chunk == Min(maxFrameSize, |data| - offset)
    requires f == Frame(DATA, if end && offset + chunk == |data| then END_STREAM else 0, streamId, data[offset..offset + chunk])
    ensures Unsent(streamId, data, end, maxFrameSize, offset) ==
            FrameBytes(f) + Unsent(streamId, data, end, maxFrameSize, offset + chunk)
  {
    var left := data[offset..];
    assert left[..chunk] == data[offset..offset + chunk] && left[chunk..] == data[offset + chunk..];
    var frames := DataFrames(streamId, left, end, maxFrameSize);
    assert frames[0] == f && frames[1..] == DataFrames(streamId, left[chunk..], end, maxFrameSize);
  }

  /** Writes the frames of a response, all of them or none. */
  method WriteResponse(buf: RingBuffer, id: nat, block: bytes, body: bytes, end: bool) returns (ok: bool)
    requires buf.Valid()
    modifies buf, buf.data
    ensures buf.Valid() && (buf.data == old(buf.data) || fresh(buf.data))
    ensures ok == HeadersAccepted(id, block, MAX_FRAME_SIZE)
    ensures buf.Contents() == old(buf.Contents()) + if ok then Serialize(ResponseFrames(id, block, body, end)) else []
  {
    ghost var start := buf.Contents();
    ok := WriteHeaders(buf, id, block, body == [] && end, MAX_FRAME_SIZE);
    ResponseBytes(id, block, body, end);
    Assoc(start, FrameBytes(HeadersFrame(id, block, body == [] && end)), Serialize(DataFrames(id, body, end, MAX_FRAME_SIZE)));
    if ok && body != [] {
      ok := WriteData(buf, id, body, end, MAX_FRAME_SIZE);
    } else if ok {
      assert buf.Contents() + [] == buf.Contents();
    }
  }

  /** Takes one frame off the front of the buffer if it is complete. */
  method ReadFrameFrom(buf: RingBuffer, maxFrameSize: nat) returns (frame: Option<Frame>, error: bool)
    requires buf.Valid()
    modifies buf
    ensures buf.Valid() && buf.data == old(buf.data)
    ensures var r := ReadFrame(old(buf.Contents()), maxFrameSize);
            && error == r.Error?
            && frame == (if r.Complete? then Some(r.frame) else None)
            && buf.Contents() == if r.Complete? then r.rest else old(buf.Contents())
  {
    frame, error := None, false;
    if buf.Readable() < 9 {
      return;
    }
    ghost var before := buf.Contents();
    var h := buf.Peek(9);
    var length := FromBigEndian(h[..3]);
    assert h[..3] == before[..3] && h[5..9] == before[5..9];
    if length > maxFrameSize {
      error := true;
      return;
    }
    if buf.Readable() < 9 + length {
      return;
    }
    buf.CommitRead(9);
    var payload := buf.Peek(length);
    buf.CommitRead(length);
    assert payload == before[9..9 + length] && buf.Contents() == before[9 + length..];
    frame := Some(Frame(h[3], h[4], FromBigEndian(h[5..9]) % 0x8000_0000, payload));
  }
}
