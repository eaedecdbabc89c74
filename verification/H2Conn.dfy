/** The H2Conn object: real ring buffers, encoder and decoder, each method proved to be a step of the state machine. */
module H2Conn {
  import opened Bytes
  import opened Buffer
  import opened HpackTable
  import opened Hpack
  import opened HpackCodec
  import opened H2Frame
  import opened H2Writer
  import opened H2Machine

  class H2Conn {
    const server: bool
    const encoder: HpackEncoder
    const decoder: HpackDecoder
    const recvBuf: RingBuffer
    const sendBuf: RingBuffer
    var streams: map<nat, Stream>
    var lastPeer: nat
    var done: bool
    var sawPreface: bool

    /** Storage may have been replaced, but only by new storage. */
    twostate predicate Renewed()
      reads recvBuf, sendBuf
    {
      && (recvBuf.data == old(recvBuf.data) || fresh(recvBuf.data))
      && (sendBuf.data == old(sendBuf.data) || fresh(sendBuf.data))
    }

    ghost predicate Valid()
      reads this, recvBuf, recvBuf.data, sendBuf, sendBuf.data, decoder, decoder.table, encoder.table
    {
      && recvBuf != sendBuf && recvBuf.data != sendBuf.data && encoder.table != decoder.table
      && recvBuf.Valid() && sendBuf.Valid() && decoder.Valid() && Consistent(encoder.table.State())
    }

    ghost function CoreState(): Core
      reads this, sendBuf, sendBuf.data, decoder.table
      requires sendBuf.Valid()
    {
      Core(done, streams, lastPeer, decoder.table.State(), sendBuf.Contents())
    }

    ghost function State(): Conn
      reads this, recvBuf, recvBuf.data, sendBuf, sendBuf.data, decoder.table, encoder.table
      requires recvBuf.Valid() && sendBuf.Valid()
    {
      Conn(server, sawPreface, encoder.table.State(), recvBuf.Contents(), CoreState())
    }

    constructor (isServer: bool)
      ensures Valid() && State() == NewConn(isServer)
      ensures fresh(recvBuf) && fresh(recvBuf.data) && fresh(sendBuf) && fresh(sendBuf.data)
      ensures fresh(decoder) && fresh(decoder.table) && fresh(encoder.table)
    {
      server := isServer;
      encoder := new HpackEncoder();
      decoder := new HpackDecoder();
      recvBuf := new RingBuffer(65536);
      var output := OutputBuffer(isServer);
      sendBuf := output;
      streams, lastPeer, done, sawPreface := map[], 0, false, false;
    }

    method Feed(data: bytes)
      requires Valid()
      modifies recvBuf, recvBuf.data
      ensures Valid() && Renewed() && State() == H2Machine.Feed(old(State()), data)
    {
      recvBuf.Append(data);
    }

    method HandleSettingsFrame(f: Frame) returns (error: Option<H2Error>)
      requires Valid()
      modifies sendBuf, sendBuf.data
      ensures Valid() && Renewed() && recvBuf.Contents() == old(recvBuf.Contents())
      ensures Handled(CoreState(), [], error) == HandleSettings(old(CoreState()), f)
    {
      if f.streamId != 0 || |f.payload| % 6 != 0 {
        return Some(BadSettings);
      }
      if f.flags % 2 == 0 {
        var ok := WriteFrame(sendBuf, SETTINGS_ACK);
      }
      error := None;
    }

    method HandlePingFrame(f: Frame) returns (error: Option<H2Error>)
      requires Valid()
      modifies sendBuf, sendBuf.data
      ensures Valid() && Renewed() && recvBuf.Contents() == old(recvBuf.Contents())
      ensures Handled(CoreState(), [], error) == HandlePing(old(CoreState()), f)
    {
      if f.streamId != 0 || |f.payload| != 8 {
        return Some(BadPing);
      }
      var data := ReadNumber(f.payload);
      if f.flags % 2 == 0 {
        BigEndianOf(f.payload);
        var ok := WritePing(sendBuf, data, true);
      }
      error := None;
    }

    method Reset(id: nat)
      requires Valid() && 0 < id <= MAX_STREAM
      modifies sendBuf, sendBuf.data
      ensures Valid() && Renewed() && recvBuf.Contents() == old(recvBuf.Contents())
      ensures CoreState() == Reply(old(CoreState()), ResetFrame(id, STREAM_CLOSED))
    {
      var ok := WriteRstStream(sendBuf, id, STREAM_CLOSED);
    }

    method HandleHeadersFrame(f: Frame) returns (ready: seq<nat>, error: Option<H2Error>)
      requires Valid() && 0 < f.streamId <= MAX_STREAM && f.streamId in streams
      modifies this`streams, sendBuf, sendBuf.data, decoder, decoder.table
      ensures Valid() && Renewed() && recvBuf.Contents() == old(recvBuf.Contents())
      ensures encoder.table.State() == old(encoder.table.State())
      ensures Handled(CoreState(), ready, error) == HandleHeaders(old(CoreState()), f)
    {
      var s := streams[f.streamId];
      if s.state != Idle && s.state != Open && s.state != HalfClosedLocal {
        Reset(f.streamId);
        return [], None;
      }
      if f.flags / 4 % 2 == 0 {
        return [], Some(NoContinuation);
      }
      ready, error := AcceptHeaders(f);
    }

    /** The part of HEADERS handling that follows the checks. */
    method AcceptHeaders(f: Frame) returns (ready: seq<nat>, error: Option<H2Error>)
      requires Valid() && f.streamId in streams && f.flags / 4 % 2 != 0
      requires streams[f.streamId].state != HalfClosedRemote && streams[f.streamId].state != Closed
      modifies this`streams, decoder`tree, decoder.table
      ensures Valid() && recvBuf.Contents() == old(recvBuf.Contents())
      ensures encoder.table.State() == old(encoder.table.State())
      ensures Handled(CoreState(), ready, error) == HandleHeaders(old(CoreState()), f)
    {
      var s := streams[f.streamId];
      var out, failed := decoder.Decode(f.payload, s.headers);
      if failed.Some? {
        streams := streams[f.streamId := s.(headers := out)];
        return [], Some(BadHeaderBlock(failed.value));
      }
      var state := NextState(s.state, EndStream(f));
      streams := streams[f.streamId := s.(headers := out, state := state)];
      ready, error := if EndStream(f) then [f.streamId] else [], None;
    }

    method HandleDataFrame(f: Frame) returns (ready: seq<nat>, error: Option<H2Error>)
      requires Valid() && 0 < f.streamId <= MAX_STREAM && f.streamId in streams
      modifies this`streams, sendBuf, sendBuf.data
      ensures Valid() && Renewed() && recvBuf.Contents() == old(recvBuf.Contents())
      ensures Handled(CoreState(), ready, error) == HandleData(old(CoreState()), f)
    {
      var s := streams[f.streamId];
      if s.state == Idle {
        return [], Some(DataOnIdle);
      }
      if s.state == HalfClosedRemote || s.state == Closed {
        Reset(f.streamId);
        return [], None;
      }
      var s' := s.(body := s.body + f.payload);
      ready := [];
      if EndStream(f) {
        s' := s'.(state := if s.state == Open then HalfClosedRemote else Closed);
        ready := [f.streamId];
      }
      streams := streams[f.streamId := s'];
      error := None;
    }

    method HandleStreamFrame(f: Frame) returns (ready: seq<nat>, error: Option<H2Error>)
      requires Valid() && 0 < f.streamId <= MAX_STREAM && f.streamId in streams
      modifies this`streams, sendBuf, sendBuf.data, decoder, decoder.table
      ensures Valid() && Renewed() && recvBuf.Contents() == old(recvBuf.Contents())
      ensures encoder.table.State() == old(encoder.table.State())
      ensures Handled(CoreState(), ready, error) == HandleStream(old(CoreState()), f)
    {
      if f.kind == HEADERS {
        ready, error := HandleHeadersFrame(f);
        return;
      }
      if f.kind == DATA {
        ready, error := HandleDataFrame(f);
        return;
      }
      ready, error := [], None;
      if f.kind == WINDOW_UPDATE {
        error := HandleWindowFrame(f);
      }
    }

    method HandleWindowFrame(f: Frame) returns (error: Option<H2Error>)
      requires Valid() && f.streamId in streams
      modifies this`streams
      ensures Valid()
      ensures Handled(CoreState(), [], error) == HandleWindowUpdate(old(CoreState()), f)
    {
      if |f.payload| != 4 {
        return Some(BadWindowUpdate);
      }
      var increment := FromBigEndian(f.payload) % 0x8000_0000;
      if increment == 0 {
        return Some(ZeroWindowUpdate);
      }
      var s := streams[f.streamId];
      streams := streams[f.streamId := s.(sendWindow := s.sendWindow + increment)];
      error := None;
    }

    /** get_or_create_stream. */
    method TouchStream(id: nat)
      requires Valid()
      modifies this`streams, this`lastPeer
      ensures Valid() && CoreState() == Touch(old(CoreState()), id)
    {
      lastPeer := Max(lastPeer, id);
      if id !in streams {
        streams := streams[id := NEW_STREAM];
      }
    }

    method HandleFrame(f: Frame) returns (ready: seq<nat>, error: Option<H2Error>)
      requires Valid() && f.streamId <= MAX_STREAM
      modifies this`streams, this`lastPeer, this`done, sendBuf, sendBuf.data, decoder, decoder.table
      ensures Valid() && Renewed() && recvBuf.Contents() == old(recvBuf.Contents())
      ensures encoder.table.State() == old(encoder.table.State())
      ensures Handled(CoreState(), ready, error) == Handle(old(CoreState()), f)
    {
      ready := [];
      if f.kind == SETTINGS {
        error := HandleSettingsFrame(f);
      } else if f.kind == PING {
        error := HandlePingFrame(f);
      } else if f.kind == GOAWAY {
        done := true;
        error := None;
      } else if f.streamId == 0 {
        error := Some(StreamZero);
      } else {
        TouchStream(f.streamId);
        ready, error := HandleStreamFrame(f);
      }
    }

    /** One turn of the loop of process; more is false when the loop is over. */
    method NextFrame() returns (ready: seq<nat>, error: Option<H2Error>, more: bool)
      requires Valid()
      modifies this, recvBuf, sendBuf, sendBuf.data, decoder, decoder.table
      ensures Valid() && Renewed() && encoder.table.State() == old(encoder.table.State())
      ensures sawPreface == old(sawPreface)
      ensures var r := ReadFrame(old(recvBuf.Contents()), MAX_FRAME_SIZE);
              if r.Complete? then
                && recvBuf.Contents() == r.rest && more == error.None?
                && Handled(CoreState(), ready, error) == Handle(old(CoreState()), r.frame)
              else
                && !more && ready == [] && recvBuf.Contents() == old(recvBuf.Contents())
                && (r.Incomplete? ==> error == None && CoreState() == old(CoreState()))
                && (r.Error? ==> error == Some(BadFrame) && CoreState() == old(CoreState()).(done := true))
    {
      var frame, bad := ReadFrameFrom(recvBuf, MAX_FRAME_SIZE);
      ready, error, more := [], None, false;
      if bad {
        done := true;
        error := Some(BadFrame);
      } else if frame.Some? {
        ready, error := HandleFrame(frame.value);
        more := error.None?;
      }
    }

    method ProcessFrames() returns (ready: seq<nat>, error: Option<H2Error>)
      requires Valid()
      modifies this, recvBuf, sendBuf, sendBuf.data, decoder, decoder.table
      ensures Valid() && Renewed() && encoder.table.State() == old(encoder.table.State())
      ensures sawPreface == old(sawPreface)
      ensures Looped(CoreState(), recvBuf.Contents(), ready, error) == Frames(old(CoreState()), old(recvBuf.Contents()))
    {
      ghost var goal := Frames(CoreState(), recvBuf.Contents());
      ready, error := [], None;
      NothingYet(goal);
      var more := true;
      while more
        invariant Valid() && Renewed() && encoder.table.State() == old(encoder.table.State())
        invariant sawPreface == old(sawPreface)
        invariant if more then goal == Onwards(ready, Frames(CoreState(), recvBuf.Contents()))
                  else goal == Looped(CoreState(), recvBuf.Contents(), ready, error)
        decreases more, |recvBuf.Contents()|
      {
        ghost var core, recv := CoreState(), recvBuf.Contents();
        var now;
        now, error, more := NextFrame();
        OneTurn(core, recv, ready, now);
        ready := ready + now;
      }
    }

    /** Checks and consumes the client preface and answers it with an empty SETTINGS frame. */
    method TakePreface() returns (complete: bool, error: Option<H2Error>)
      requires Valid() && server && !sawPreface
      modifies this`done, this`sawPreface, recvBuf, sendBuf, sendBuf.data
      ensures Valid() && Renewed()
      ensures complete == (|old(recvBuf.Contents())| >= |PREFACE|)
      ensures error == if complete && old(recvBuf.Contents())[..|PREFACE|] != PREFACE then Some(BadPreface) else None
      ensures var c := old(State());
              State() ==
              if !complete then c
              else if error.Some? then c.(core := c.core.(done := true))
              else c.(sawPreface := true, recv := c.recv[|PREFACE|..], core := Reply(c.core, SETTINGS_FRAME))
    {
      complete, error := recvBuf.Readable() >= |PREFACE|, None;
      if complete {
        var bytes := recvBuf.Peek(|PREFACE|);
        if bytes != PREFACE {
          done := true;
          error := Some(BadPreface);
        } else {
          recvBuf.CommitRead(|PREFACE|);
          sawPreface := true;
          var ok := WriteFrame(sendBuf, SETTINGS_FRAME);
        }
      }
    }

    method Process() returns (ready: seq<nat>, error: Option<H2Error>)
      requires Valid()
      modifies this, recvBuf, sendBuf, sendBuf.data, decoder, decoder.table
      ensures Valid() && Renewed()
      ensures Outcome(State(), ready, error) == H2Machine.Process(old(State()))
    {
      if server && !sawPreface {
        var complete;
        complete, error := TakePreface();
        if !complete || error.Some? {
          return [], error;
        }
      }
      ready, error := ProcessFrames();
      if error.Some? {
        ready := [];
      }
    }

    method SendResponse(id: nat, headers: seq<Header>, body: bytes, end: bool) returns (ok: bool)
      requires Valid()
      modifies encoder.table, sendBuf, sendBuf.data
      ensures Valid() && Renewed()
      ensures Sending(State(), ok) == H2Machine.SendResponse(old(State()), id, headers, body, end)
    {
      ok := EncodeAndWrite(id, headers, body, end);
    }

    method EncodeAndWrite(id: nat, headers: seq<Header>, body: bytes, end: bool) returns (ok: bool)
      requires Consistent(encoder.table.State()) && sendBuf.Valid()
      modifies encoder.table, sendBuf, sendBuf.data
      ensures Consistent(encoder.table.State()) && sendBuf.Valid()
      ensures sendBuf.data == old(sendBuf.data) || fresh(sendBuf.data)
      ensures var b := Hpack.Encode(old(encoder.table.State()), headers);
              && encoder.table.State() == b.table
              && ok == (b.error.None? && HeadersAccepted(id, b.data, MAX_FRAME_SIZE))
              && sendBuf.Contents() ==
                 old(sendBuf.Contents()) + if ok then Serialize(ResponseFrames(id, b.data, body, end)) else []
    {
      var block, failed := encoder.EncodeBlock(headers);
      ok := !failed;
      if ok {
        ok := WriteResponse(sendBuf, id, block, body, end);
      }
    }

    /** An unknown stream makes the source throw before it changes anything. */
    method ConsumeBody(id: nat, n: nat) returns (thrown: bool)
      requires Valid()
      modifies this`streams
      ensures Valid() && State() == H2Machine.ConsumeBody(old(State()), id, n)
      ensures thrown == (id !in old(streams))
    {
      thrown := id !in streams;
      if thrown {
        return;
      }
      var s := streams[id];
      streams := streams[id := s.(body := if n <= |s.body| then s.body[n..] else [])];
    }

    method ConsumeOutput(n: nat)
      requires Valid()
      modifies sendBuf
      ensures Valid() && State() == H2Machine.ConsumeOutput(old(State()), n)
    {
      sendBuf.CommitRead(n);
    }

    method SendWindowUpdate(id: nat, increment: nat) returns (ok: bool)
      requires Valid()
      modifies sendBuf, sendBuf.data
      ensures Valid() && Renewed() && State() == GrantWindow(old(State()), id, increment)
      ensures ok == (0 < increment <= 0x7fff_ffff && id <= MAX_STREAM)
    {
      ghost var f := WindowUpdateFrame(id, increment);
      OneFrame(f);
      ok := WriteWindowUpdate(sendBuf, id, increment);
    }

    method Goaway(code: nat, debug: bytes) returns (ok: bool)
      requires Valid()
      modifies this`done, sendBuf, sendBuf.data
      ensures Valid() && Renewed() && State() == H2Machine.Goaway(old(State()), code, debug)
      ensures ok == Sendable(GoawayFrame(old(lastPeer), code, debug))
    {
      done := true;
      var f := GoawayFrame(lastPeer, code, debug);
      OneFrame(f);
      ok := WriteFrame(sendBuf, f);
    }
  }

  lemma OneFrame(f: Frame)
    ensures Serialize([f]) == FrameBytes(f)
  {
    assert [f][1..] == [];
    assert FrameBytes(f) + [] == FrameBytes(f);
  }

  /** The result of the loop from here on, after the streams already found ready. */
  ghost function Onwards(ready: seq<nat>, l: Looped): Looped {
    l.(ready := ready + l.ready)
  }

  lemma NothingYet(l: Looped)
    ensures Onwards([], l) == l
  {
    assert [] + l.ready == l.ready;
  }

  lemma OneTurn(core: Core, recv: bytes, ready: seq<nat>, now: seq<nat>)
    ensures var r := ReadFrame(recv, MAX_FRAME_SIZE);
            var l := Frames(core, recv);
            if r.Complete? then
              var h := Handle(core, r.frame);
              now == h.ready ==>
                Onwards(ready, l) ==
                if h.error.None? then Onwards(ready + now, Frames(h.core, r.rest))
                else Looped(h.core, r.rest, ready + now, h.error)
            else now == [] ==> Onwards(ready, l) == l.(ready := ready + now)
  {
    var r := ReadFrame(recv, MAX_FRAME_SIZE);
    if r.Complete? {
      var h := Handle(core, r.frame);
      if h.error.None? {
        assert ready + (h.ready + Frames(h.core, r.rest).ready) == (ready + h.ready) + Frames(h.core, r.rest).ready;
      }
    }
  }

  /** A client's output starts with the preface. */
  method OutputBuffer(server: bool) returns (buf: RingBuffer)
    ensures fresh(buf) && fresh(buf.data) && buf.Valid() && buf.Contents() == if server then [] else PREFACE
  {
    buf := new RingBuffer(65536);
    if !server {
      buf.Append(PREFACE);
      assert [] + PREFACE == PREFACE;
    }
  }

  /** The accumulation loop over the eight bytes of a PING. */
  method ReadNumber(payload: bytes) returns (data: nat)
    ensures data == FromBigEndian(payload)
  {
    data := 0;
    for i := 0 to |payload|
      invariant data == FromBigEndian(payload[..i])
    {
      assert payload[..i + 1][..i] == payload[..i];
      data := data * 256 + payload[i];
    }
    assert payload[..|payload|] == payload;
  }
}
