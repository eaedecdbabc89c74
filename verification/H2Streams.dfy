/**
 What each stream of a connection holds, and what the connection answers, in terms of the frames it accepted: a stream's
 state and body depend on its own frames only, and the replies are an in-order image of the input.
 */
module H2Streams {
  import opened Bytes
  import opened H2Frame
  import opened H2Writer
  import opened H2Machine
  import opened H2Safety

  /** The frames the loop handles without error. */
  ghost function Accepted(c: Core, recv: bytes): seq<Frame>
    decreases |recv|
  {
    var r := ReadFrame(recv, MAX_FRAME_SIZE);
    if r.Complete? then
      var h := Handle(c, r.frame);
      if h.error.None? then [r.frame] + Accepted(h.core, r.rest) else []
    else []
  }

  datatype View = View(state: StreamState, body: bytes)

  function ViewOf(c: Core, id: nat): View {
    if id in c.streams then View(c.streams[id].state, c.streams[id].body) else View(Idle, [])
  }

  /** The frames of one stream, and what each does to it. */
  function Own(frames: seq<Frame>, id: nat): seq<Frame> {
    if frames == [] then []
    else (if frames[0].streamId == id then [frames[0]] else []) + Own(frames[1..], id)
  }

  function OwnStep(v: View, f: Frame): View {
    if v.state == HalfClosedRemote || (f.kind != HEADERS && f.kind != DATA) then v
    else View(NextState(v.state, EndStream(f)), if f.kind == DATA then v.body + f.payload else v.body)
  }

  function OwnRun(v: View, frames: seq<Frame>): View
    decreases |frames|
  {
    if frames == [] then v else OwnRun(OwnStep(v, frames[0]), frames[1..])
  }

  lemma HandleOwn(c: Core, f: Frame, id: nat)
    requires Sound(c) && id > 0
    ensures var h := Handle(c, f);
            && (h.error.Some? ==> ViewOf(h.core, id) == ViewOf(c, id))
            && (h.error.None? ==> ViewOf(h.core, id) == if f.streamId == id then OwnStep(ViewOf(c, id), f) else ViewOf(c, id))
  {
    if f.kind == SETTINGS || f.kind == PING || f.kind == GOAWAY || f.streamId == 0 {
    } else {
      HandleStreamOwn(Touch(c, f.streamId), f, id);
      assert ViewOf(Touch(c, f.streamId), id) == ViewOf(c, id);
      TouchLive(c, f.streamId);
    }
  }

  lemma TouchLive(c: Core, id: nat)
    requires Sound(c)
    ensures LiveState(Touch(c, id).streams[id].state)
  {
  }

  lemma HandleStreamOwn(c: Core, f: Frame, id: nat)
    requires f.streamId in c.streams
    ensures LiveState(c.streams[f.streamId].state) ==>
              var h := HandleStream(c, f);
              && (h.error.Some? ==> ViewOf(h.core, id) == ViewOf(c, id))
              && (h.error.None? ==> ViewOf(h.core, id) == if f.streamId == id then OwnStep(ViewOf(c, id), f) else ViewOf(c, id))
  {
  }

  /** Under any interleaving, a stream's state and body are what its own accepted frames make them. */
  lemma {:induction false} StreamsAreIndependent(c: Core, recv: bytes, id: nat)
    requires Sound(c) && id > 0
    ensures ViewOf(Frames(c, recv).core, id) == OwnRun(ViewOf(c, id), Own(Accepted(c, recv), id))
    decreases |recv|
  {
    var r := ReadFrame(recv, MAX_FRAME_SIZE);
    if r.Complete? {
      var h := Handle(c, r.frame);
      HandleOwn(c, r.frame, id);
      if h.error.None? {
        HandleSafe(c, r.frame);
        StreamsAreIndependent(h.core, r.rest, id);
        OwnFirst(r.frame, Accepted(h.core, r.rest), id);
      }
    }
  }

  lemma OwnFirst(f: Frame, rest: seq<Frame>, id: nat)
    ensures Own([f] + rest, id) == if f.streamId == id then [f] + Own(rest, id) else Own(rest, id)
  {
    assert ([f] + rest)[1..] == rest;
  }

  predicate Ends(f: Frame) {
    (f.kind == HEADERS || f.kind == DATA) && EndStream(f)
  }

  /** The DATA payloads up to and including the first frame that ends the stream. */
  function BodyOf(own: seq<Frame>): bytes {
    if own == [] then []
    else
      (if own[0].kind == DATA then own[0].payload else []) + if Ends(own[0]) then [] else BodyOf(own[1..])
  }

  predicate AnyEnds(own: seq<Frame>) {
    exists i | 0 <= i < |own| :: Ends(own[i])
  }

  lemma {:induction false} FinishedStays(v: View, own: seq<Frame>)
    requires v.state == HalfClosedRemote
    ensures OwnRun(v, own) == v
    decreases |own|
  {
    if own != [] {
      FinishedStays(v, own[1..]);
    }
  }

  lemma {:induction false} OwnRunClosedForm(v: View, own: seq<Frame>)
    requires v.state == Idle || v.state == Open
    ensures OwnRun(v, own).body == v.body + BodyOf(own)
    ensures OwnRun(v, own).state == HalfClosedRemote <==> AnyEnds(own)
    decreases |own|
  {
    if own == [] {
      assert v.body + [] == v.body;
    } else {
      var v' := OwnStep(v, own[0]);
      if Ends(own[0]) {
        FinishedStays(v', own[1..]);
        assert v.body + (own[0].payload + []) == v.body + own[0].payload && v.body + ([] + []) == v.body;
      } else {
        OwnRunClosedForm(v', own[1..]);
        AnyEndsLater(own);
        assert (v.body + own[0].payload) + BodyOf(own[1..]) == v.body + (own[0].payload + BodyOf(own[1..]));
        assert v.body + ([] + BodyOf(own[1..])) == v.body + BodyOf(own[1..]);
      }
    }
  }

  lemma AnyEndsLater(own: seq<Frame>)
    requires own != [] && !Ends(own[0])
    ensures AnyEnds(own) <==> AnyEnds(own[1..])
  {
    assert forall i | 0 < i < |own| :: own[i] == own[1..][i - 1];
    assert forall i | 0 <= i < |own[1..]| :: own[1..][i] == own[i + 1];
  }

  /** A stream's send window, and what its own WINDOW_UPDATE frames grant. */
  function WindowOf(c: Core, id: nat): int {
    if id in c.streams then c.streams[id].sendWindow else 65535
  }

  function Granted(f: Frame): nat {
    if f.kind == WINDOW_UPDATE then FromBigEndian(f.payload) % 0x8000_0000 else 0
  }

  function GrantedBy(own: seq<Frame>): nat {
    if own == [] then 0 else Granted(own[0]) + GrantedBy(own[1..])
  }

  lemma HandleWindow(c: Core, f: Frame, id: nat)
    requires id > 0
    ensures var h := Handle(c, f);
            WindowOf(h.core, id) == WindowOf(c, id) + if h.error.None? && f.streamId == id then Granted(f) else 0
  {
    if f.kind != SETTINGS && f.kind != PING && f.kind != GOAWAY && f.streamId != 0 {
      HandleStreamWindow(Touch(c, f.streamId), f, id);
      assert WindowOf(Touch(c, f.streamId), id) == WindowOf(c, id);
    }
  }

  lemma HandleStreamWindow(c: Core, f: Frame, id: nat)
    requires f.streamId in c.streams
    ensures var h := HandleStream(c, f);
            WindowOf(h.core, id) == WindowOf(c, id) + if h.error.None? && f.streamId == id then Granted(f) else 0
  {
  }

  /** Under any interleaving a stream's send window grows by exactly the increments of its own accepted frames. */
  lemma {:induction false} WindowsAddUp(c: Core, recv: bytes, id: nat)
    requires id > 0
    ensures WindowOf(Frames(c, recv).core, id) == WindowOf(c, id) + GrantedBy(Own(Accepted(c, recv), id))
    decreases |recv|
  {
    var r := ReadFrame(recv, MAX_FRAME_SIZE);
    if r.Complete? {
      var h := Handle(c, r.frame);
      HandleWindow(c, r.frame, id);
      if h.error.None? {
        WindowsAddUp(h.core, r.rest, id);
        OwnFirst(r.frame, Accepted(h.core, r.rest), id);
        GrantedFirst(r.frame, Own(Accepted(h.core, r.rest), id));
      }
    }
  }

  lemma GrantedFirst(f: Frame, rest: seq<Frame>)
    ensures GrantedBy([f] + rest) == Granted(f) + GrantedBy(rest)
  {
    assert ([f] + rest)[1..] == rest;
  }

  /** What a frame makes the connection send. */
  function ReplyTo(c: Core, f: Frame): seq<Frame> {
    if f.kind == SETTINGS then if f.flags % 2 == 0 then [SETTINGS_ACK] else []
    else if f.kind == PING then if f.flags % 2 == 0 then [PingAck(f.payload)] else []
    else if (f.kind == HEADERS || f.kind == DATA) && f.streamId in c.streams && c.streams[f.streamId].state == HalfClosedRemote
    then [ResetFrame(f.streamId, STREAM_CLOSED)]
    else []
  }

  lemma HandleReplies(c: Core, f: Frame)
    requires Sound(c) && f.streamId <= MAX_STREAM
    ensures var h := Handle(c, f);
            && (h.error.Some? ==> h.core.send == c.send)
            && (h.error.None? ==> h.core.send == c.send + Serialize(ReplyTo(c, f)) && AllFit(ReplyTo(c, f), MAX_FRAME_SIZE))
  {
    assert c.send + [] == c.send;
    if ReplyTo(c, f) != [] {
      var g := ReplyTo(c, f)[0];
      assert ReplyTo(c, f)[1..] == [];
      assert FrameBytes(g) + [] == FrameBytes(g);
    }
    if f.kind == SETTINGS || f.kind == PING || f.kind == GOAWAY || f.streamId == 0 {
    } else {
      HandleStreamReplies(Touch(c, f.streamId), f);
      TouchLive(c, f.streamId);
    }
  }

  lemma HandleStreamReplies(c: Core, f: Frame)
    requires f.streamId in c.streams
    ensures LiveState(c.streams[f.streamId].state) ==>
              var h := HandleStream(c, f);
              && (h.error.Some? ==> h.core.send == c.send)
              && (h.error.None? ==>
                    if (f.kind == HEADERS || f.kind == DATA) && c.streams[f.streamId].state == HalfClosedRemote
                    then h.core.send == c.send + FrameBytes(ResetFrame(f.streamId, STREAM_CLOSED))
                    else h.core.send == c.send)
  {
  }

  ghost function Replies(c: Core, recv: bytes): seq<Frame>
    decreases |recv|
  {
    var r := ReadFrame(recv, MAX_FRAME_SIZE);
    if r.Complete? then
      var h := Handle(c, r.frame);
      if h.error.None? then ReplyTo(c, r.frame) + Replies(h.core, r.rest) else []
    else []
  }

  predicate IsControl(f: Frame) {
    f.kind == SETTINGS || f.kind == PING
  }

  function Controls(frames: seq<Frame>): seq<Frame> {
    if frames == [] then [] else (if IsControl(frames[0]) then [frames[0]] else []) + Controls(frames[1..])
  }

  /** One acknowledgement for every SETTINGS and every PING that is not one itself, a PING's with its own eight bytes. */
  function Acknowledgements(frames: seq<Frame>): seq<Frame> {
    if frames == [] then []
    else
      var f := frames[0];
      (if f.kind == SETTINGS && f.flags % 2 == 0 then [SETTINGS_ACK]
       else if f.kind == PING && f.flags % 2 == 0 then [PingAck(f.payload)]
       else []) + Acknowledgements(frames[1..])
  }

  lemma {:induction false} ControlsConcat(a: seq<Frame>, b: seq<Frame>)
    ensures Controls(a + b) == Controls(a) + Controls(b)
  {
    if a == [] {
      assert a + b == b;
    } else {
      ControlsConcat(a[1..], b);
      ControlsFirst(a + b, a[1..] + b);
      ControlsFirst(a, a[1..]);
    }
  }

  lemma ControlsFirst(frames: seq<Frame>, rest: seq<Frame>)
    requires frames != [] && rest == frames[1..]
    ensures Controls(frames) == if IsControl(frames[0]) then [frames[0]] + Controls(rest) else Controls(rest)
  {
  }

  lemma ControlsOfReply(c: Core, f: Frame, rest: seq<Frame>)
    ensures Acknowledgements([f] + rest) == Controls(ReplyTo(c, f)) + Acknowledgements(rest)
  {
    assert ([f] + rest)[1..] == rest;
    if ReplyTo(c, f) != [] {
      assert ReplyTo(c, f)[1..] == [];
    }
  }

  /** Everything sent while reading any input is whole frames, and its control frames mirror the input in order. */
  lemma {:induction false} RepliesMirrorInput(c: Core, recv: bytes)
    requires Sound(c)
    ensures Frames(c, recv).core.send == c.send + Serialize(Replies(c, recv))
    ensures AllFit(Replies(c, recv), MAX_FRAME_SIZE)
    ensures Controls(Replies(c, recv)) == Acknowledgements(Accepted(c, recv))
    decreases |recv|
  {
    assert c.send + [] == c.send;
    var r := ReadFrame(recv, MAX_FRAME_SIZE);
    if r.Complete? {
      var h := Handle(c, r.frame);
      HandleReplies(c, r.frame);
      HandleSafe(c, r.frame);
      if h.error.None? {
        RepliesMirrorInput(h.core, r.rest);
        var now, later := ReplyTo(c, r.frame), Replies(h.core, r.rest);
        SerializeConcat(now, later);
        Assoc(c.send, Serialize(now), Serialize(later));
        ControlsConcat(now, later);
        ControlsOfReply(c, r.frame, Accepted(h.core, r.rest));
      }
    }
  }
}
