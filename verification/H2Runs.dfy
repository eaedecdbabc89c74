/**
 Whole runs of a connection: any sequence of calls by its owner, with any input. What a stream has received, what its send window
 is and what the connection has put out are sums over the frames it accepted, whatever calls lie between them.
 */
module H2Runs {
  import opened Bytes
  import opened Buffer
  import opened H2Frame
  import opened H2Writer
  import opened H2Machine
  import opened H2Safety
  import opened H2Streams
  import opened HpackTable
  import Hpack

  /** The frames a call of process handles without error. */
  ghost function AcceptedNow(c: Conn): seq<Frame> {
    if c.server && !c.sawPreface then
      if PREFACE <= c.recv then Accepted(Reply(c.core, SETTINGS_FRAME), c.recv[|PREFACE|..]) else []
    else Accepted(c.core, c.recv)
  }

  ghost function AcceptedIn(c: Conn, a: Action): seq<Frame> {
    if a.Receive? then AcceptedNow(Feed(c, a.data)) else []
  }

  ghost function AcceptedBy(c: Conn, actions: seq<Action>): seq<Frame>
    decreases |actions|
  {
    if actions == [] then [] else AcceptedIn(c, actions[0]) + AcceptedBy(Step(c, actions[0]).conn, actions[1..])
  }

  /** The bytes of stream id's body that its owner consumed. */
  function ConsumedIn(c: Conn, a: Action, id: nat): bytes {
    if a.Consume? && a.id == id && id in c.core.streams
    then c.core.streams[id].body[..Min(a.n, |c.core.streams[id].body|)]
    else []
  }

  ghost function ConsumedBy(c: Conn, actions: seq<Action>, id: nat): bytes
    decreases |actions|
  {
    if actions == [] then [] else ConsumedIn(c, actions[0], id) + ConsumedBy(Step(c, actions[0]).conn, actions[1..], id)
  }

  lemma TailOfConcat(a: seq<Frame>, b: seq<Frame>)
    requires a != []
    ensures (a + b)[0] == a[0] && (a + b)[1..] == a[1..] + b
  {
  }

  lemma FrontOfConcat(f: Frame, a: seq<Frame>, b: seq<Frame>)
    ensures ([f] + a) + b == [f] + (a + b)
  {
  }

  lemma OwnNext(frames: seq<Frame>, rest: seq<Frame>, id: nat)
    requires frames != [] && rest == frames[1..]
    ensures Own(frames, id) == if frames[0].streamId == id then [frames[0]] + Own(rest, id) else Own(rest, id)
  {
  }

  lemma {:induction false} OwnConcat(a: seq<Frame>, b: seq<Frame>, id: nat)
    ensures Own(a + b, id) == Own(a, id) + Own(b, id)
    decreases |a|
  {
    if a == [] {
      assert a + b == b;
    } else {
      var rest := a[1..];
      OwnConcat(rest, b, id);
      TailOfConcat(a, b);
      OwnNext(a, rest, id);
      OwnNext(a + b, rest + b, id);
      FrontOfConcat(a[0], Own(rest, id), Own(b, id));
    }
  }

  lemma AnyEndsConcat(a: seq<Frame>, b: seq<Frame>)
    ensures AnyEnds(a + b) <==> AnyEnds(a) || AnyEnds(b)
  {
    assert forall i | 0 <= i < |a| :: (a + b)[i] == a[i];
    assert forall i | 0 <= i < |b| :: (a + b)[|a| + i] == b[i];
  }

  function PayloadOf(f: Frame): bytes {
    if f.kind == DATA then f.payload else []
  }

  lemma BodyNext(own: seq<Frame>, rest: seq<Frame>)
    requires own != [] && rest == own[1..]
    ensures BodyOf(own) == PayloadOf(own[0]) + if Ends(own[0]) then [] else BodyOf(rest)
    ensures AnyEnds(own) <==> Ends(own[0]) || AnyEnds(rest)
  {
    if !Ends(own[0]) {
      AnyEndsLater(own);
    }
  }

  /** Payloads count up to the frame that ends the stream, whichever part it is in. */
  lemma {:induction false} BodyOfConcat(a: seq<Frame>, b: seq<Frame>)
    ensures BodyOf(a + b) == BodyOf(a) + if AnyEnds(a) then [] else BodyOf(b)
    decreases |a|
  {
    if a == [] {
      assert a + b == b;
      NothingBefore(BodyOf(b));
    } else {
      var rest := a[1..];
      TailOfConcat(a, b);
      BodyOfConcat(rest, b);
      BodyNext(a, rest);
      BodyNext(a + b, rest + b);
      NothingBefore(BodyOf(a));
      Assoc(PayloadOf(a[0]), BodyOf(rest), if AnyEnds(rest) then [] else BodyOf(b));
    }
  }

  /** What its own frames add to a stream's body. */
  function Appended(state: StreamState, own: seq<Frame>): bytes {
    if state == HalfClosedRemote then [] else BodyOf(own)
  }

  lemma ProcessOwn(c: Conn, id: nat)
    requires Sound(c.core) && id > 0
    ensures ViewOf(Process(c).conn.core, id) == OwnRun(ViewOf(c.core, id), Own(AcceptedNow(c), id))
  {
    if c.server && !c.sawPreface {
      if PREFACE <= c.recv {
        StreamsAreIndependent(Reply(c.core, SETTINGS_FRAME), c.recv[|PREFACE|..], id);
      }
    } else {
      StreamsAreIndependent(c.core, c.recv, id);
    }
  }

  lemma OwnRunAppends(v: View, own: seq<Frame>)
    requires LiveState(v.state)
    ensures OwnRun(v, own).body == v.body + Appended(v.state, own)
    ensures OwnRun(v, own).state == HalfClosedRemote <==> v.state == HalfClosedRemote || AnyEnds(own)
  {
    if v.state == HalfClosedRemote {
      FinishedStays(v, own);
      assert v.body + [] == v.body;
    } else {
      OwnRunClosedForm(v, own);
    }
  }

  /** What one call does to a stream. */
  ghost predicate Grows(v: View, consumed: bytes, own: seq<Frame>, v': View) {
    && consumed + v'.body == v.body + Appended(v.state, own)
    && (v'.state == HalfClosedRemote <==> v.state == HalfClosedRemote || AnyEnds(own))
  }

  lemma StepGrows(c: Conn, a: Action, id: nat)
    requires Sound(c.core) && id > 0
    ensures Grows(ViewOf(c.core, id), ConsumedIn(c, a, id), Own(AcceptedIn(c, a), id), ViewOf(Step(c, a).conn.core, id))
  {
    var v := ViewOf(c.core, id);
    if a.Receive? {
      ProcessOwn(Feed(c, a.data), id);
      OwnRunAppends(v, Own(AcceptedIn(c, a), id));
      NothingBefore(OwnRun(v, Own(AcceptedIn(c, a), id)).body);
    } else {
      QuietStep(c, a, id);
    }
  }

  lemma NothingBefore(s: bytes)
    ensures [] + s == s && s + [] == s
  {
  }

  lemma QuietStep(c: Conn, a: Action, id: nat)
    requires !a.Receive?
    ensures var v, v' := ViewOf(c.core, id), ViewOf(Step(c, a).conn.core, id);
            ConsumedIn(c, a, id) + v'.body == v.body + [] && v'.state == v.state
  {
    var v := ViewOf(c.core, id);
    NothingBefore(v.body);
    if a.Consume? && a.id == id && id in c.core.streams {
      assert v.body[..Min(a.n, |v.body|)] + v.body[Min(a.n, |v.body|)..] == v.body;
    }
  }

  lemma GrowsTwice(v: View, c1: bytes, own1: seq<Frame>, v1: View, c2: bytes, own2: seq<Frame>, v2: View)
    requires Grows(v, c1, own1, v1) && Grows(v1, c2, own2, v2)
    ensures Grows(v, c1 + c2, own1 + own2, v2)
  {
    BodyOfConcat(own1, own2);
    AnyEndsConcat(own1, own2);
    var x, y := Appended(v.state, own1), Appended(v1.state, own2);
    assert Appended(v.state, own1 + own2) == x + y by {
      NothingBefore(x);
    }
    Assoc(c1, c2, v2.body);
    Assoc(c1, v1.body, y);
    Assoc(v.body, x, y);
  }

  lemma {:induction false} RunGrows(c: Conn, actions: seq<Action>, id: nat)
    requires Sound(c.core) && id > 0
    ensures Grows(ViewOf(c.core, id), ConsumedBy(c, actions, id), Own(AcceptedBy(c, actions), id),
                  ViewOf(After(c, actions).core, id))
    decreases |actions|
  {
    var v := ViewOf(c.core, id);
    if actions == [] {
      NothingBefore(v.body);
    } else {
      var a, c' := actions[0], Step(c, actions[0]).conn;
      StepSafe(c, a);
      StepGrows(c, a, id);
      RunGrows(c', actions[1..], id);
      OwnConcat(AcceptedIn(c, a), AcceptedBy(c', actions[1..]), id);
      GrowsTwice(v, ConsumedIn(c, a, id), Own(AcceptedIn(c, a), id), ViewOf(c'.core, id),
                 ConsumedBy(c', actions[1..], id), Own(AcceptedBy(c', actions[1..]), id), ViewOf(After(c, actions).core, id));
    }
  }

  /**
   From construction on, over any run of calls and any interleaving of streams: what was consumed of a stream's body followed by
   what is left of it is the concatenation, in order, of the stream's own DATA payloads up to the frame that ended it, and the
   stream is finished exactly if one did.
   */
  lemma ReadyBody(server: bool, actions: seq<Action>, id: nat)
    requires id > 0
    ensures var c := NewConn(server);
            var own := Own(AcceptedBy(c, actions), id);
            && ConsumedBy(c, actions, id) + ViewOf(After(c, actions).core, id).body == BodyOf(own)
            && (Finished(After(c, actions).core, id) <==> AnyEnds(own))
  {
    NewConnSound(server);
    RunGrows(NewConn(server), actions, id);
    NothingBefore(BodyOf(Own(AcceptedBy(NewConn(server), actions), id)));
  }

  lemma ProcessWindow(c: Conn, id: nat)
    requires id > 0
    ensures WindowOf(Process(c).conn.core, id) == WindowOf(c.core, id) + GrantedBy(Own(AcceptedNow(c), id))
  {
    if c.server && !c.sawPreface {
      if PREFACE <= c.recv {
        WindowsAddUp(Reply(c.core, SETTINGS_FRAME), c.recv[|PREFACE|..], id);
      }
    } else {
      WindowsAddUp(c.core, c.recv, id);
    }
  }

  lemma {:induction false} GrantedConcat(a: seq<Frame>, b: seq<Frame>)
    ensures GrantedBy(a + b) == GrantedBy(a) + GrantedBy(b)
    decreases |a|
  {
    if a == [] {
      assert a + b == b;
    } else {
      GrantedConcat(a[1..], b);
      assert (a + b)[1..] == a[1..] + b;
    }
  }

  lemma StepWindow(c: Conn, a: Action, id: nat)
    requires id > 0
    ensures WindowOf(Step(c, a).conn.core, id) == WindowOf(c.core, id) + GrantedBy(Own(AcceptedIn(c, a), id))
  {
    if a.Receive? {
      ProcessWindow(Feed(c, a.data), id);
    }
  }

  /** Over any run of calls a stream's send window is what it was and the increments of its own accepted frames. */
  lemma {:induction false} RunWindow(c: Conn, actions: seq<Action>, id: nat)
    requires id > 0
    ensures WindowOf(After(c, actions).core, id) == WindowOf(c.core, id) + GrantedBy(Own(AcceptedBy(c, actions), id))
    decreases |actions|
  {
    if actions != [] {
      var a, c' := actions[0], Step(c, actions[0]).conn;
      StepWindow(c, a, id);
      RunWindow(c', actions[1..], id);
      OwnConcat(AcceptedIn(c, a), AcceptedBy(c', actions[1..]), id);
      GrantedConcat(Own(AcceptedIn(c, a), id), Own(AcceptedBy(c', actions[1..]), id));
    }
  }

  lemma {:induction false} RunSplits(c: Conn, a: seq<Action>, b: seq<Action>)
    ensures After(c, a + b) == After(After(c, a), b)
    decreases |a|
  {
    if a == [] {
      assert a + b == b;
    } else {
      assert (a + b)[1..] == a[1..] + b;
      RunSplits(Step(c, a[0]).conn, a[1..], b);
    }
  }

  /**
   The source keeps the window in 32 signed bits. They suffice at every moment of a run exactly if the increments the stream
   was granted over the whole run fit on top of the initial 65535.
   */
  lemma WindowFitsIff(server: bool, actions: seq<Action>, id: nat)
    requires id > 0
    ensures
      var c := NewConn(server);
      (forall n | 0 <= n <= |actions| :: WindowOf(After(c, actions[..n]).core, id) <= 0x7fff_ffff) <==>
      65535 + GrantedBy(Own(AcceptedBy(c, actions), id)) <= 0x7fff_ffff
  {
    var c := NewConn(server);
    RunWindow(c, actions, id);
    assert actions[..|actions|] == actions;
    forall n | 0 <= n <= |actions|
      ensures WindowOf(After(c, actions[..n]).core, id) <= WindowOf(After(c, actions).core, id)
    {
      assert actions == actions[..n] + actions[n..];
      RunSplits(c, actions[..n], actions[n..]);
      RunWindow(After(c, actions[..n]), actions[n..], id);
    }
  }

  /** The frames a call puts out, and the bytes of output a call takes away. */
  ghost function SentNow(c: Conn): seq<Frame> {
    if c.server && !c.sawPreface then
      if PREFACE <= c.recv then [SETTINGS_FRAME] + Replies(Reply(c.core, SETTINGS_FRAME), c.recv[|PREFACE|..]) else []
    else Replies(c.core, c.recv)
  }

  ghost function SentIn(c: Conn, a: Action): seq<Frame> {
    match a
    case Receive(data) => SentNow(Feed(c, data))
    case Respond(id, headers, body, end) =>
      if SendResponse(c, id, headers, body, end).ok then ResponseFrames(id, Hpack.Encode(c.encoder, headers).data, body, end) else []
    case Consume(_, _) => []
    case Drain(_) => []
    case Grant(id, increment) => if 0 < increment <= 0x7fff_ffff && id <= MAX_STREAM then [WindowUpdateFrame(id, increment)] else []
    case Leave(code, debug) =>
      var f := GoawayFrame(c.core.lastPeer, code, debug);
      if Sendable(f) then [f] else []
  }

  ghost function SentBy(c: Conn, actions: seq<Action>): seq<Frame>
    decreases |actions|
  {
    if actions == [] then [] else SentIn(c, actions[0]) + SentBy(Step(c, actions[0]).conn, actions[1..])
  }

  function DrainedIn(c: Conn, a: Action): bytes {
    if a.Drain? then c.core.send[..Min(a.n, |c.core.send|)] else []
  }

  ghost function DrainedBy(c: Conn, actions: seq<Action>): bytes
    decreases |actions|
  {
    if actions == [] then [] else DrainedIn(c, actions[0]) + DrainedBy(Step(c, actions[0]).conn, actions[1..])
  }

  lemma ProcessOutput(c: Conn)
    requires Sound(c.core)
    ensures Process(c).conn.core.send == c.core.send + Serialize(SentNow(c)) && AllFit(SentNow(c), MAX_LENGTH)
  {
    NothingBefore(c.core.send);
    if c.server && !c.sawPreface {
      if PREFACE <= c.recv {
        var start, input := Reply(c.core, SETTINGS_FRAME), c.recv[|PREFACE|..];
        RepliesMirrorInput(start, input);
        SerializeConcat([SETTINGS_FRAME], Replies(start, input));
        assert [SETTINGS_FRAME][1..] == [];
        NothingBefore(FrameBytes(SETTINGS_FRAME));
        Assoc(c.core.send, FrameBytes(SETTINGS_FRAME), Serialize(Replies(start, input)));
      }
    } else {
      RepliesMirrorInput(c.core, c.recv);
    }
  }

  /** What one call does to the output. */
  ghost predicate Outputs(send: bytes, drained: bytes, sent: seq<Frame>, send': bytes) {
    drained + send' == send + Serialize(sent) && AllFit(sent, MAX_LENGTH)
  }

  lemma RespondOutputs(c: Conn, id: nat, headers: seq<Header>, body: bytes, end: bool)
    ensures var a := Respond(id, headers, body, end); Outputs(c.core.send, [], SentIn(c, a), Step(c, a).conn.core.send)
  {
    NothingBefore(c.core.send);
    if SendResponse(c, id, headers, body, end).ok {
      var block := Hpack.Encode(c.encoder, headers).data;
      ResponseFramesCarry(id, block, body, end);
      NothingBefore(c.core.send + Serialize(ResponseFrames(id, block, body, end)));
    }
  }

  lemma FrameOutputs(send: bytes, f: Frame, ok: bool)
    requires ok ==> Sendable(f)
    ensures Outputs(send, [], if ok then [f] else [], send + if ok then Serialize([f]) else [])
  {
    NothingBefore(send);
    NothingBefore(send + if ok then Serialize([f]) else []);
  }

  lemma StepOutputs(c: Conn, a: Action)
    requires Sound(c.core)
    ensures Outputs(c.core.send, DrainedIn(c, a), SentIn(c, a), Step(c, a).conn.core.send)
  {
    NothingBefore(c.core.send);
    match a
    case Receive(data) =>
      ProcessOutput(Feed(c, data));
      NothingBefore(Step(c, a).conn.core.send);
    case Respond(id, headers, body, end) =>
      RespondOutputs(c, id, headers, body, end);
    case Consume(_, _) =>
    case Drain(n) =>
      var k := Min(n, |c.core.send|);
      assert c.core.send[..k] + c.core.send[k..] == c.core.send;
    case Grant(id, increment) =>
      FrameOutputs(c.core.send, WindowUpdateFrame(id, increment), 0 < increment <= 0x7fff_ffff && id <= MAX_STREAM);
    case Leave(code, debug) =>
      var f := GoawayFrame(c.core.lastPeer, code, debug);
      FrameOutputs(c.core.send, f, Sendable(f));
  }

  lemma OutputsTwice(s0: bytes, d1: bytes, f1: seq<Frame>, s1: bytes, d2: bytes, f2: seq<Frame>, s2: bytes)
    requires Outputs(s0, d1, f1, s1) && Outputs(s1, d2, f2, s2)
    ensures Outputs(s0, d1 + d2, f1 + f2, s2)
  {
    SerializeConcat(f1, f2);
    Assoc(d1, d2, s2);
    Assoc(d1, s1, Serialize(f2));
    Assoc(s0, Serialize(f1), Serialize(f2));
  }

  lemma {:induction false} RunOutputs(c: Conn, actions: seq<Action>)
    requires Sound(c.core)
    ensures Outputs(c.core.send, DrainedBy(c, actions), SentBy(c, actions), After(c, actions).core.send)
    decreases |actions|
  {
    if actions == [] {
      NothingBefore(c.core.send);
    } else {
      var a, c' := actions[0], Step(c, actions[0]).conn;
      StepSafe(c, a);
      StepOutputs(c, a);
      RunOutputs(c', actions[1..]);
      OutputsTwice(c.core.send, DrainedIn(c, a), SentIn(c, a), c'.core.send,
                   DrainedBy(c', actions[1..]), SentBy(c', actions[1..]), After(c, actions).core.send);
    }
  }

  /** The SETTINGS frame that answers the preface in this call, if it is the call that sees it. */
  ghost function Greeting(c: Conn, c': Conn): seq<Frame> {
    if !c.sawPreface && c'.sawPreface then [SETTINGS_FRAME] else []
  }

  lemma {:induction false} NoControls(frames: seq<Frame>)
    requires forall i | 0 <= i < |frames| :: !IsControl(frames[i])
    ensures Controls(frames) == []
    decreases |frames|
  {
    if frames != [] {
      NoControls(frames[1..]);
    }
  }

  lemma {:induction false} AcksConcat(a: seq<Frame>, b: seq<Frame>)
    ensures Acknowledgements(a + b) == Acknowledgements(a) + Acknowledgements(b)
    decreases |a|
  {
    if a == [] {
      assert a + b == b;
    } else {
      TailOfConcat(a, b);
      AcksConcat(a[1..], b);
      AcksNext(a, a[1..]);
      AcksNext(a + b, a[1..] + b);
    }
  }

  lemma AcksNext(frames: seq<Frame>, rest: seq<Frame>)
    requires frames != [] && rest == frames[1..]
    ensures Acknowledgements(frames) == Acknowledgements([frames[0]]) + Acknowledgements(rest)
  {
    assert [frames[0]][1..] == [];
  }

  lemma StepControls(c: Conn, a: Action)
    requires Sound(c.core)
    ensures Controls(SentIn(c, a)) == Greeting(c, Step(c, a).conn) + Acknowledgements(AcceptedIn(c, a))
  {
    match a
    case Receive(data) => ProcessControls(Feed(c, data));
    case Respond(id, headers, body, end) =>
      if SendResponse(c, id, headers, body, end).ok {
        ResponseFramesCarry(id, Hpack.Encode(c.encoder, headers).data, body, end);
        NoControls(SentIn(c, a));
      }
    case _ => NoControls(SentIn(c, a));
  }

  lemma StepPreface(c: Conn, a: Action)
    ensures Step(c, a).conn.server == c.server && (c.sawPreface ==> Step(c, a).conn.sawPreface)
    ensures c.server && !Step(c, a).conn.sawPreface ==> AcceptedIn(c, a) == []
    ensures !c.server && !c.sawPreface ==> !Step(c, a).conn.sawPreface
  {
  }

  lemma ProcessControls(c: Conn)
    requires Sound(c.core)
    ensures Controls(SentNow(c)) == Greeting(c, Process(c).conn) + Acknowledgements(AcceptedNow(c))
  {
    if c.server && !c.sawPreface {
      if PREFACE <= c.recv {
        var start, input := Reply(c.core, SETTINGS_FRAME), c.recv[|PREFACE|..];
        RepliesMirrorInput(start, input);
        ControlsConcat([SETTINGS_FRAME], Replies(start, input));
        NoControls([]);
        assert [SETTINGS_FRAME][1..] == [];
      }
    } else {
      RepliesMirrorInput(c.core, c.recv);
    }
  }

  lemma {:induction false} RunControls(c: Conn, actions: seq<Action>)
    requires Sound(c.core)
    ensures Controls(SentBy(c, actions)) == Greeting(c, After(c, actions)) + Acknowledgements(AcceptedBy(c, actions))
    ensures c.sawPreface ==> After(c, actions).sawPreface
    ensures c.server && !After(c, actions).sawPreface ==> AcceptedBy(c, actions) == []
    ensures !c.server && !c.sawPreface ==> !After(c, actions).sawPreface
    decreases |actions|
  {
    if actions != [] {
      var a, c' := actions[0], Step(c, actions[0]).conn;
      StepSafe(c, a);
      StepControls(c, a);
      StepPreface(c, a);
      RunControls(c', actions[1..]);
      ControlsConcat(SentIn(c, a), SentBy(c', actions[1..]));
      AcksConcat(AcceptedIn(c, a), AcceptedBy(c', actions[1..]));
      GreetingFirst(Greeting(c, c'), Acknowledgements(AcceptedIn(c, a)), Greeting(c', After(c, actions)),
                    Acknowledgements(AcceptedBy(c', actions[1..])));
    }
  }

  lemma GreetingFirst(g: seq<Frame>, acks: seq<Frame>, g': seq<Frame>, acks': seq<Frame>)
    ensures g' == [] ==> (g + acks) + (g' + acks') == g + (acks + acks')
    ensures g == [] && acks == [] ==> (g + acks) + (g' + acks') == g' + ([] + acks')
  {
  }

  /**
   From construction on, over any run of calls, responses and GOAWAY included: everything put out, consumed or not, is the client
   preface or nothing followed by whole frames, which read back as such; and the SETTINGS and PING frames among them are the
   answer to the preface and one acknowledgement for each accepted SETTINGS and PING, in order.
   */
  lemma OutputIsFrames(server: bool, actions: seq<Action>)
    ensures var c := NewConn(server);
            var sent := SentBy(c, actions);
            && DrainedBy(c, actions) + After(c, actions).core.send == (if server then [] else PREFACE) + Serialize(sent)
            && ReadAll(Serialize(sent), MAX_LENGTH) == AllRead(sent, [], false)
            && Controls(sent) == Greeting(c, After(c, actions)) + Acknowledgements(AcceptedBy(c, actions))
  {
    var c := NewConn(server);
    NewConnSound(server);
    RunOutputs(c, actions);
    RunControls(c, actions);
    ReadSerialized(SentBy(c, actions), MAX_LENGTH);
  }
}
