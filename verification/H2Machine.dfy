/**
 The HTTP/2 connection of src/http2.cpp as a state machine: handle_frame, process and the calls of the application, on
 values. Buffers are held by their contents.
 */
module H2Machine {
  import opened Bytes
  import opened HpackInt
  import opened HpackTable
  import opened Hpack
  import opened H2Frame
  import opened H2Writer

  const PREFACE := Ascii("PRI * HTTP/2.0\r\n\r\nSM\r\n\r\n")
  const STREAM_CLOSED := 5

  datatype StreamState = Idle | Open | HalfClosedLocal | HalfClosedRemote | Closed

  datatype Stream = Stream(state: StreamState, sendWindow: int, body: bytes, headers: seq<Header>)

  const NEW_STREAM := Stream(Idle, 65535, [], [])

  /** The part of a connection that frames act on. */
  datatype Core = Core(done: bool, streams: map<nat, Stream>, lastPeer: nat, decoder: Table, send: bytes)

  datatype Conn = Conn(server: bool, sawPreface: bool, encoder: Table, recv: bytes, core: Core)

  datatype H2Error =
    | BadPreface
    | BadFrame
    | BadSettings
    | BadPing
    | StreamZero
    | NoContinuation
    | BadHeaderBlock(reason: HpackError)
    | DataOnIdle
    | BadWindowUpdate
    | ZeroWindowUpdate

  /** What a frame did: the new core, the streams that became ready, and the error, if any. */
  datatype Handled = Handled(core: Core, ready: seq<nat>, error: Option<H2Error>)

  /** The same for the loop over frames, with the bytes it left unread, and for a whole call. */
  datatype Looped = Looped(core: Core, recv: bytes, ready: seq<nat>, error: Option<H2Error>)

  datatype Outcome = Outcome(conn: Conn, ready: seq<nat>, error: Option<H2Error>)

  function NewConn(server: bool): Conn {
    Conn(server, false, EMPTY_TABLE, [], Core(false, map[], 0, EMPTY_TABLE, if server then [] else PREFACE))
  }

  function Reply(c: Core, f: Frame): Core {
    c.(send := c.send + FrameBytes(f))
  }

  function Max(a: nat, b: nat): nat {
    if a >= b then a else b
  }

  /** get_or_create_stream, and the highest stream id seen. */
  function Touch(c: Core, id: nat): (c': Core)
    ensures id in c'.streams
  {
    c.(lastPeer := Max(c.lastPeer, id),
       streams := if id in c.streams then c.streams else c.streams[id := NEW_STREAM])
  }

  function SetStream(c: Core, id: nat, s: Stream): (c': Core)
    ensures id in c'.streams
  {
    c.(streams := c.streams[id := s])
  }

  /** The state after a HEADERS or DATA frame with or without END_STREAM. */
  function NextState(s: StreamState, end: bool): StreamState {
    match s
    case Idle => if end then HalfClosedRemote else Open
    case Open => if end then HalfClosedRemote else Open
    case HalfClosedLocal => if end then Closed else HalfClosedLocal
    case HalfClosedRemote => HalfClosedRemote
    case Closed => Closed
  }

  function HandleSettings(c: Core, f: Frame): Handled {
    if f.streamId != 0 || |f.payload| % 6 != 0 then Handled(c, [], Some(BadSettings))
    else Handled(if f.flags % 2 == 0 then Reply(c, SETTINGS_ACK) else c, [], None)
  }

  function HandlePing(c: Core, f: Frame): Handled {
    if f.streamId != 0 || |f.payload| != 8 then Handled(c, [], Some(BadPing))
    else Handled(if f.flags % 2 == 0 then Reply(c, PingAck(f.payload)) else c, [], None)
  }

  ghost function HandleHeaders(c: Core, f: Frame): Handled
    requires f.streamId in c.streams
  {
    var s := c.streams[f.streamId];
    if s.state == HalfClosedRemote || s.state == Closed then
      Handled(Reply(c, ResetFrame(f.streamId, STREAM_CLOSED)), [], None)
    else if f.flags / 4 % 2 == 0 then
      Handled(c, [], Some(NoContinuation))
    else
      var d := Decode(c.decoder, f.payload, s.headers);
      if d.error.Some? then
        Handled(SetStream(c, f.streamId, s.(headers := d.out)).(decoder := d.table), [], Some(BadHeaderBlock(d.error.value)))
      else
        var s' := s.(headers := d.out, state := NextState(s.state, EndStream(f)));
        Handled(SetStream(c, f.streamId, s').(decoder := d.table), if EndStream(f) then [f.streamId] else [], None)
  }

  function HandleData(c: Core, f: Frame): Handled
    requires f.streamId in c.streams
  {
    var s := c.streams[f.streamId];
    if s.state == Idle then
      Handled(c, [], Some(DataOnIdle))
    else if s.state == HalfClosedRemote || s.state == Closed then
      Handled(Reply(c, ResetFrame(f.streamId, STREAM_CLOSED)), [], None)
    else
      var s' := s.(body := s.body + f.payload, state := NextState(s.state, EndStream(f)));
      Handled(SetStream(c, f.streamId, s'), if EndStream(f) then [f.streamId] else [], None)
  }

  function HandleWindowUpdate(c: Core, f: Frame): Handled
    requires f.streamId in c.streams
  {
    if |f.payload| != 4 then Handled(c, [], Some(BadWindowUpdate))
    else
      var increment := FromBigEndian(f.payload) % 0x8000_0000;
      if increment == 0 then Handled(c, [], Some(ZeroWindowUpdate))
      else
        var s := c.streams[f.streamId];
        Handled(SetStream(c, f.streamId, s.(sendWindow := s.sendWindow + increment)), [], None)
  }

  ghost function HandleStream(c: Core, f: Frame): Handled
    requires f.streamId in c.streams
  {
    if f.kind == HEADERS then HandleHeaders(c, f)
    else if f.kind == DATA then HandleData(c, f)
    else if f.kind == WINDOW_UPDATE then HandleWindowUpdate(c, f)
    else Handled(c, [], None)
  }

  ghost function Handle(c: Core, f: Frame): Handled {
    if f.kind == SETTINGS then HandleSettings(c, f)
    else if f.kind == PING then HandlePing(c, f)
    else if f.kind == GOAWAY then Handled(c.(done := true), [], None)
    else if f.streamId == 0 then Handled(c, [], Some(StreamZero))
    else HandleStream(Touch(c, f.streamId), f)
  }

  /** The loop of process: handle frames until one is missing, malformed or refused. */
  ghost function Frames(c: Core, recv: bytes): Looped
    decreases |recv|
  {
    var r := ReadFrame(recv, MAX_FRAME_SIZE);
    if r.Incomplete? then Looped(c, recv, [], None)
    else if r.Error? then Looped(c.(done := true), recv, [], Some(BadFrame))
    else
      var h := Handle(c, r.frame);
      if h.error.Some? then Looped(h.core, r.rest, h.ready, h.error)
      else
        var more := Frames(h.core, r.rest);
        more.(ready := h.ready + more.ready)
  }

  /** process; the ready list is lost when it fails. */
  ghost function Process(c: Conn): Outcome {
    if c.server && !c.sawPreface then
      if |c.recv| < |PREFACE| then Outcome(c, [], None)
      else if c.recv[..|PREFACE|] != PREFACE then Outcome(c.(core := c.core.(done := true)), [], Some(BadPreface))
      else Processed(c.(sawPreface := true), Frames(Reply(c.core, SETTINGS_FRAME), c.recv[|PREFACE|..]))
    else Processed(c, Frames(c.core, c.recv))
  }

  function Processed(c: Conn, l: Looped): Outcome {
    Outcome(c.(core := l.core, recv := l.recv), if l.error.Some? then [] else l.ready, l.error)
  }

  function Feed(c: Conn, data: bytes): Conn {
    c.(recv := c.recv + data)
  }

  /** Feeding chunk by chunk and processing after each, until a call fails. */
  ghost function Run(c: Conn, chunks: seq<bytes>): Outcome
    decreases |chunks|
  {
    if chunks == [] then Outcome(c, [], None)
    else
      var o := Process(Feed(c, chunks[0]));
      if o.error.Some? then o
      else
        var more := Run(o.conn, chunks[1..]);
        if more.error.Some? then more else more.(ready := o.ready + more.ready)
  }

  /** Connection and success of a call that sends. */
  datatype Sending = Sending(conn: Conn, ok: bool)

  function SendFrames(c: Conn, frames: seq<Frame>): Conn {
    c.(core := c.core.(send := c.core.send + Serialize(frames)))
  }

  /** send_response: the encoder's table advances even when the headers are then refused. */
  ghost function SendResponse(c: Conn, id: nat, headers: seq<Header>, body: bytes, end: bool): Sending {
    var b := Encode(c.encoder, headers);
    var c' := c.(encoder := b.table);
    if b.error.Some? || !HeadersAccepted(id, b.data, MAX_FRAME_SIZE) then Sending(c', false)
    else Sending(SendFrames(c', ResponseFrames(id, b.data, body, end)), true)
  }

  function ConsumeBody(c: Conn, id: nat, n: nat): Conn {
    if id !in c.core.streams then c
    else
      var s := c.core.streams[id];
      c.(core := SetStream(c.core, id, s.(body := if n <= |s.body| then s.body[n..] else [])))
  }

  function ConsumeOutput(c: Conn, n: nat): Conn {
    c.(core := c.core.(send := if n <= |c.core.send| then c.core.send[n..] else []))
  }

  function GrantWindow(c: Conn, id: nat, increment: nat): Conn {
    if 0 < increment <= 0x7fff_ffff && id <= MAX_STREAM then SendFrames(c, [WindowUpdateFrame(id, increment)]) else c
  }

  function Goaway(c: Conn, code: nat, debug: bytes): Conn {
    var f := GoawayFrame(c.core.lastPeer, code, debug);
    var c' := c.(core := c.core.(done := true));
    if Sendable(f) then SendFrames(c', [f]) else c'
  }

  /** The calls a connection receives from its owner. */
  datatype Action =
    | Receive(data: bytes)
    | Respond(id: nat, headers: seq<Header>, body: bytes, end: bool)
    | Consume(id: nat, n: nat)
    | Drain(n: nat)
    | Grant(id: nat, increment: nat)
    | Leave(code: nat, debug: bytes)

  ghost function Step(c: Conn, a: Action): Outcome {
    match a
    case Receive(data) => Process(Feed(c, data))
    case Respond(id, headers, body, end) => Outcome(SendResponse(c, id, headers, body, end).conn, [], None)
    case Consume(id, n) => Outcome(ConsumeBody(c, id, n), [], None)
    case Drain(n) => Outcome(ConsumeOutput(c, n), [], None)
    case Grant(id, increment) => Outcome(GrantWindow(c, id, increment), [], None)
    case Leave(code, debug) => Outcome(Goaway(c, code, debug), [], None)
  }

  /** The connection after a run of calls, and every stream id reported ready along the way, in order. */
  ghost function After(c: Conn, actions: seq<Action>): Conn
    decreases |actions|
  {
    if actions == [] then c else After(Step(c, actions[0]).conn, actions[1..])
  }

  ghost function ReadyLog(c: Conn, actions: seq<Action>): seq<nat>
    decreases |actions|
  {
    if actions == [] then []
    else
      var o := Step(c, actions[0]);
      o.ready + ReadyLog(o.conn, actions[1..])
  }
}
