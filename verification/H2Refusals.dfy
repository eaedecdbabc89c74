/**
 When a connection fails: exactly which frames are refused and with which error, from the frame, the state of its stream and the
 header table alone; and over whole runs, from the bytes received alone.
 */
module H2Refusals {
  import opened Bytes
  import opened HpackTable
  import opened Hpack
  import opened H2Frame
  import opened H2Writer
  import opened H2Machine
  import opened H2Fragmentation
  import opened H2Safety
  import opened H2Streams
  import opened H2Runs
  import opened H2Headers

  function StateOf(c: Core, id: nat): StreamState {
    ViewOf(c, id).state
  }

  /** What is wrong with a header block, if anything is. */
  ghost function BlockFault(t: Table, block: bytes): Option<H2Error> {
    var e := Decode(t, block, []).error;
    if e.Some? then Some(BadHeaderBlock(e.value)) else None
  }

  /**
   The error a frame is refused with, if it is: SETTINGS and PING by sections 6.5 and 6.7 of RFC 7540, stream 0 for any other frame
   but GOAWAY, HEADERS on a stream that has not ended without END_HEADERS or with a block that cannot be read, DATA on an idle
   stream, and WINDOW_UPDATE by section 6.9.
   */
  ghost function Refusal(state: StreamState, t: Table, f: Frame): Option<H2Error> {
    match f.kind
    case 4 => if f.streamId != 0 || |f.payload| % 6 != 0 then Some(BadSettings) else None
    case 6 => if f.streamId != 0 || |f.payload| != 8 then Some(BadPing) else None
    case 7 => None
    case k =>
      if f.streamId == 0 then Some(StreamZero)
      else if k == 1 && state != HalfClosedRemote then
        if f.flags / 4 % 2 == 0 then Some(NoContinuation) else BlockFault(t, f.payload)
      else if k == 0 && state == Idle then Some(DataOnIdle)
      else if k == 8 && |f.payload| != 4 then Some(BadWindowUpdate)
      else if k == 8 && f.payload[0] % 128 == 0 && f.payload[1..] == [0, 0, 0] then Some(ZeroWindowUpdate)
      else None
  }

  lemma IncrementZero(s: bytes)
    requires |s| == 4
    ensures FromBigEndian(s) % 0x8000_0000 == 0 <==> s[0] % 128 == 0 && s[1..] == [0, 0, 0]
  {
    FourBytes(s);
    WordZero(s[0], s[1], s[2], s[3]);
    assert s[1..] == [s[1], s[2], s[3]];
  }

  lemma WordZero(a: int, b: int, c: int, d: int)
    requires 0 <= a < 256 && 0 <= b < 256 && 0 <= c < 256 && 0 <= d < 256
    ensures Word(a, b, c, d) % 0x8000_0000 == 0 <==> a % 128 == 0 && b == 0 && c == 0 && d == 0
  {
    var q, r := a / 128, a % 128;
    var low := Word(r, b, c, d);
    assert a == 128 * q + r;
    assert Word(a, b, c, d) == 0x8000_0000 * q + low;
    LowPart(q, low);
  }

  lemma LowPart(q: int, low: int)
    requires 0 <= low < 0x8000_0000
    ensures (0x8000_0000 * q + low) % 0x8000_0000 == low
  {
  }

  /** The handlers refuse exactly those frames, with exactly those errors. */
  lemma HandleRefuses(c: Core, f: Frame)
    requires Sound(c)
    ensures Handle(c, f).error == Refusal(StateOf(c, f.streamId), c.decoder, f)
  {
    if f.kind == SETTINGS || f.kind == PING || f.kind == GOAWAY || f.streamId == 0 {
    } else {
      TouchLive(c, f.streamId);
      StreamRefuses(Touch(c, f.streamId), f);
    }
  }

  lemma StreamRefuses(c: Core, f: Frame)
    requires f.streamId != 0 && f.streamId in c.streams && f.kind != 4 && f.kind != 6 && f.kind != 7
    ensures LiveState(c.streams[f.streamId].state) ==>
              HandleStream(c, f).error == Refusal(c.streams[f.streamId].state, c.decoder, f)
  {
    if f.kind == HEADERS {
      var before := c.streams[f.streamId].headers;
      DecodeAppends(c.decoder, f.payload, before, []);
      assert before + [] == before;
    } else if f.kind == WINDOW_UPDATE && |f.payload| == 4 {
      IncrementZero(f.payload);
    }
  }

  /** Each error by itself. */
  lemma RefusedIff(c: Core, f: Frame)
    requires Sound(c)
    ensures var e, id := Handle(c, f).error, f.streamId;
            && (e == Some(BadSettings) <==> f.kind == 4 && (id != 0 || |f.payload| % 6 != 0))
            && (e == Some(BadPing) <==> f.kind == 6 && (id != 0 || |f.payload| != 8))
            && (e == Some(StreamZero) <==> id == 0 && f.kind !in {4, 6, 7})
            && (e == Some(NoContinuation) <==> f.kind == 1 && id != 0 && StateOf(c, id) != HalfClosedRemote && f.flags / 4 % 2 == 0)
            && (e == Some(DataOnIdle) <==> f.kind == 0 && id != 0 && StateOf(c, id) == Idle)
            && (e == Some(BadWindowUpdate) <==> f.kind == 8 && id != 0 && |f.payload| != 4)
            && (e == Some(ZeroWindowUpdate) <==>
                  f.kind == 8 && id != 0 && |f.payload| == 4 && f.payload[0] % 128 == 0 && f.payload[1..] == [0, 0, 0])
            && (e.Some? && e.value.BadHeaderBlock? <==>
                  && f.kind == 1 && id != 0 && StateOf(c, id) != HalfClosedRemote && f.flags / 4 % 2 == 1
                  && Decode(c.decoder, f.payload, []).error.Some?)
            && e != Some(BadPreface) && e != Some(BadFrame)
  {
    HandleRefuses(c, f);
  }

  /** The state of a stream after frames that were all accepted: its own HEADERS and DATA frames decide. */
  predicate Carries(f: Frame, id: nat) {
    f.streamId == id && (f.kind == 0 || f.kind == 1)
  }

  function StateFrom(frames: seq<Frame>, id: nat): StreamState {
    if exists i | 0 <= i < |frames| :: Carries(frames[i], id) && frames[i].flags % 2 == 1 then HalfClosedRemote
    else if exists i | 0 <= i < |frames| :: Carries(frames[i], id) then Open
    else Idle
  }

  /** The header table after them: every block on a stream that had not ended has been decoded, in order. */
  ghost function TableAfter(frames: seq<Frame>): Table {
    if frames == [] then EMPTY_TABLE
    else
      var n := |frames| - 1;
      var f, t := frames[n], TableAfter(frames[..n]);
      if f.kind == 1 && StateFrom(frames[..n], f.streamId) != HalfClosedRemote then Decode(t, f.payload, []).table else t
  }

  ghost function RefusalAfter(before: seq<Frame>, f: Frame): Option<H2Error> {
    Refusal(StateFrom(before, f.streamId), TableAfter(before), f)
  }

  /** A connection that has accepted these frames and no others, whatever its owner did meanwhile. */
  ghost predicate Knows(c: Core, frames: seq<Frame>) {
    Sound(c) && c.decoder == TableAfter(frames) && forall id: nat | id > 0 :: StateOf(c, id) == StateFrom(frames, id)
  }

  lemma StateNext(frames: seq<Frame>, f: Frame, id: nat)
    ensures StateFrom(frames + [f], id) ==
            if StateFrom(frames, id) == HalfClosedRemote || !Carries(f, id) then StateFrom(frames, id)
            else if f.flags % 2 == 1 then HalfClosedRemote else Open
  {
    var all, n := frames + [f], |frames|;
    assert all[n] == f && forall i | 0 <= i < n :: all[i] == frames[i];
  }

  lemma StateSteps(c: Core, f: Frame, id: nat)
    requires Sound(c) && id > 0 && Handle(c, f).error.None?
    ensures StateOf(Handle(c, f).core, id) ==
            if StateOf(c, id) == HalfClosedRemote || !Carries(f, id) then StateOf(c, id)
            else if f.flags % 2 == 1 then HalfClosedRemote else Open
  {
    HandleOwn(c, f, id);
    assert LiveState(StateOf(c, id));
  }

  lemma TableSteps(c: Core, f: Frame)
    requires Sound(c) && Handle(c, f).error.None?
    ensures Handle(c, f).core.decoder ==
            if f.kind == 1 && StateOf(c, f.streamId) != HalfClosedRemote then Decode(c.decoder, f.payload, []).table else c.decoder
    ensures f.kind == 1 ==> f.streamId > 0
  {
    HandleReads(c, f, 1);
    BlockDecoded(c, f);
    assert [HeaderBlock(f.streamId, f.payload)][1..] == [];
    var t := Decode(c.decoder, f.payload, []).table;
    assert TableFrom(t, []) == t && TableFrom(c.decoder, []) == c.decoder;
  }

  lemma KnowsMore(c: Core, frames: seq<Frame>, f: Frame)
    requires Knows(c, frames) && f.streamId <= MAX_STREAM && Handle(c, f).error.None?
    ensures Knows(Handle(c, f).core, frames + [f])
  {
    var c' := Handle(c, f).core;
    HandleSafe(c, f);
    TableSteps(c, f);
    assert (frames + [f])[..|frames|] == frames;
    forall id: nat | id > 0
      ensures StateOf(c', id) == StateFrom(frames + [f], id)
    {
      StateNext(frames, f, id);
      StateSteps(c, f, id);
    }
  }

  lemma KnowsRefusal(c: Core, frames: seq<Frame>, f: Frame)
    requires Knows(c, frames)
    ensures Handle(c, f).error == RefusalAfter(frames, f)
  {
    HandleRefuses(c, f);
  }

  /** The first refusal in a list of frames that come after others. */
  ghost function FirstRefusal(before: seq<Frame>, frames: seq<Frame>): Option<H2Error>
    decreases |frames|
  {
    if frames == [] then None
    else
      var r := RefusalAfter(before, frames[0]);
      if r.Some? then r else FirstRefusal(before + [frames[0]], frames[1..])
  }

  lemma {:induction false} LoopRefuses(c: Core, before: seq<Frame>, recv: bytes)
    requires Knows(c, before)
    ensures var a := ReadAll(recv, MAX_FRAME_SIZE);
            Frames(c, recv).error ==
            if FirstRefusal(before, a.frames).Some? then FirstRefusal(before, a.frames)
            else if a.error then Some(BadFrame) else None
    decreases |recv|
  {
    var r := ReadFrame(recv, MAX_FRAME_SIZE);
    if r.Complete? {
      var f, more := r.frame, ReadAll(r.rest, MAX_FRAME_SIZE).frames;
      assert ([f] + more)[1..] == more;
      KnowsRefusal(c, before, f);
      if Handle(c, f).error.None? {
        KnowsMore(c, before, f);
        LoopRefuses(Handle(c, f).core, before + [f], r.rest);
      }
    }
  }

  /** What is wrong with all the bytes a connection received, if anything is. */
  ghost function Fault(server: bool, s: bytes): Option<H2Error> {
    if !server then FramesFault(s)
    else if |s| < 24 then None
    else if s[..24] != Ascii("PRI * HTTP/2.0\r\n\r\nSM\r\n\r\n") then Some(BadPreface)
    else FramesFault(s[24..])
  }

  /** The first frame that is refused given those before it; without one, a frame that is too long. */
  ghost function FramesFault(s: bytes): Option<H2Error> {
    var a := ReadAll(s, 16384);
    if FirstRefusal([], a.frames).Some? then FirstRefusal([], a.frames) else if a.error then Some(BadFrame) else None
  }

  ghost function RefusalAt(before: seq<Frame>, frames: seq<Frame>, k: nat): Option<H2Error>
    requires k < |frames|
  {
    RefusalAfter(before + frames[..k], frames[k])
  }

  lemma RefusalShifts(before: seq<Frame>, frames: seq<Frame>, rest: seq<Frame>, k: nat, k': nat)
    requires frames != [] && rest == frames[1..] && k < |rest| && k' == k + 1
    ensures RefusalAt(before + [frames[0]], rest, k) == RefusalAt(before, frames, k')
  {
    assert before + [frames[0]] + rest[..k] == before + frames[..k'];
  }

  /** The frame at k is refused given those before it, and none of those is. */
  ghost predicate FirstAt(before: seq<Frame>, frames: seq<Frame>, k: nat, e: H2Error) {
    k < |frames| && RefusalAt(before, frames, k) == Some(e) && forall j: nat | j < k :: RefusalAt(before, frames, j) == None
  }

  lemma RefusalAtZero(before: seq<Frame>, frames: seq<Frame>)
    requires frames != []
    ensures RefusalAt(before, frames, 0) == RefusalAfter(before, frames[0])
  {
    assert before + frames[..0] == before;
  }

  lemma FirstShifts(before: seq<Frame>, frames: seq<Frame>, rest: seq<Frame>, k: nat, k': nat, e: H2Error)
    requires frames != [] && rest == frames[1..] && k' == k + 1 && RefusalAfter(before, frames[0]) == None
    ensures FirstAt(before + [frames[0]], rest, k, e) <==> FirstAt(before, frames, k', e)
  {
    RefusalAtZero(before, frames);
    if k < |rest| {
      RefusalShifts(before, frames, rest, k, k');
      forall j: nat, j': nat | j < k && j' == j + 1
        ensures RefusalAt(before + [frames[0]], rest, j) == RefusalAt(before, frames, j')
      {
        RefusalShifts(before, frames, rest, j, j');
      }
      if FirstAt(before, frames, k', e) {
        forall j: nat | j < k
          ensures RefusalAt(before + [frames[0]], rest, j) == None
        {
          RefusalShifts(before, frames, rest, j, j + 1);
        }
      }
      if FirstAt(before + [frames[0]], rest, k, e) {
        forall j: nat | j < k'
          ensures RefusalAt(before, frames, j) == None
        {
          if j > 0 {
            RefusalShifts(before, frames, rest, j - 1, j);
          }
        }
      }
    }
  }

  /** In those terms. */
  lemma {:induction false} FirstRefusalIff(before: seq<Frame>, frames: seq<Frame>, e: H2Error)
    ensures FirstRefusal(before, frames) == Some(e) <==> exists k: nat :: FirstAt(before, frames, k, e)
    decreases |frames|
  {
    if frames != [] {
      var f, rest := frames[0], frames[1..];
      RefusalAtZero(before, frames);
      if RefusalAfter(before, f) == None {
        FirstRefusalIff(before + [f], rest, e);
        if k: nat :| FirstAt(before + [f], rest, k, e) {
          FirstShifts(before, frames, rest, k, k + 1, e);
        }
        if k: nat :| FirstAt(before, frames, k, e) {
          FirstShifts(before, frames, rest, k - 1, k, e);
        }
      } else if RefusalAfter(before, f) == Some(e) {
        assert FirstAt(before, frames, 0, e);
      }
    }
  }

  lemma NewKnows(c: Core)
    requires c.streams == map[] && c.lastPeer == 0 && c.decoder == EMPTY_TABLE
    ensures Knows(c, [])
  {
  }

  lemma OneCallFails(server: bool, s: bytes)
    ensures Process(Feed(NewConn(server), s)).error == Fault(server, s)
  {
    var c := NewConn(server);
    assert [] + s == s;
    if !server {
      NewKnows(c.core);
      LoopRefuses(c.core, [], s);
    } else if |s| >= 24 && s[..24] == PREFACE {
      NewKnows(Reply(c.core, SETTINGS_FRAME));
      LoopRefuses(Reply(c.core, SETTINGS_FRAME), [], s[24..]);
    }
  }

  /** The error of the first call of a run that fails, and the bytes of all calls. */
  ghost function Failure(c: Conn, actions: seq<Action>): Option<H2Error>
    decreases |actions|
  {
    if actions == [] then None
    else
      var o := Step(c, actions[0]);
      if o.error.Some? then o.error else Failure(o.conn, actions[1..])
  }

  function Input(actions: seq<Action>): bytes {
    if actions == [] then [] else (if actions[0].Receive? then actions[0].data else []) + Input(actions[1..])
  }

  /** Connections that frames cannot tell apart. */
  ghost predicate Alike(a: Core, b: Core) {
    Sound(a) && Sound(b) && a.decoder == b.decoder && forall id: nat | id > 0 :: StateOf(a, id) == StateOf(b, id)
  }

  lemma AlikeStep(a: Core, b: Core, f: Frame)
    requires Alike(a, b) && f.streamId <= MAX_STREAM
    ensures Handle(a, f).error == Handle(b, f).error
    ensures Handle(a, f).error.None? ==> Alike(Handle(a, f).core, Handle(b, f).core)
  {
    HandleRefuses(a, f);
    HandleRefuses(b, f);
    if Handle(a, f).error.None? {
      HandleSafe(a, f);
      HandleSafe(b, f);
      TableSteps(a, f);
      TableSteps(b, f);
      forall id: nat | id > 0
        ensures StateOf(Handle(a, f).core, id) == StateOf(Handle(b, f).core, id)
      {
        StateSteps(a, f, id);
        StateSteps(b, f, id);
      }
    }
  }

  lemma {:induction false} AlikeLoop(a: Core, b: Core, recv: bytes)
    requires Alike(a, b)
    ensures Frames(a, recv).error == Frames(b, recv).error
    decreases |recv|
  {
    var r := ReadFrame(recv, MAX_FRAME_SIZE);
    if r.Complete? {
      AlikeStep(a, b, r.frame);
      if Handle(a, r.frame).error.None? {
        AlikeLoop(Handle(a, r.frame).core, Handle(b, r.frame).core, r.rest);
      }
    }
  }

  /** A connection with nothing left to read. */
  predicate Drained(c: Conn) {
    if c.server && !c.sawPreface then |c.recv| < |PREFACE| else ReadFrame(c.recv, MAX_FRAME_SIZE).Incomplete?
  }

  lemma QuietIsDrained(c: Conn)
    ensures Quiet(c) <==> Drained(c)
  {
    if Quiet(c) && !Drained(c) {
      LoopConsumes(if c.server && !c.sawPreface then Reply(c.core, SETTINGS_FRAME) else c.core,
                   if c.server && !c.sawPreface then c.recv[|PREFACE|..] else c.recv);
    }
  }

  lemma {:induction false} LoopConsumes(c: Core, recv: bytes)
    ensures |Frames(c, recv).recv| <= |recv|
    ensures ReadFrame(recv, MAX_FRAME_SIZE).Complete? ==> |Frames(c, recv).recv| < |recv|
    decreases |recv|
  {
    var r := ReadFrame(recv, MAX_FRAME_SIZE);
    if r.Complete? && Handle(c, r.frame).error.None? {
      LoopConsumes(Handle(c, r.frame).core, r.rest);
    }
  }

  /** A call that is not process changes nothing that frames depend on. */
  lemma OwnersCall(c: Conn, a: Action)
    requires Sound(c.core) && !a.Receive?
    ensures var c' := Step(c, a).conn;
            && Alike(c.core, c'.core) && Step(c, a).error.None?
            && c'.server == c.server && c'.sawPreface == c.sawPreface && c'.recv == c.recv
  {
    StepSafe(c, a);
    forall id: nat
      ensures StateOf(Step(c, a).conn.core, id) == StateOf(c.core, id)
    {
      QuietStep(c, a, id);
    }
    OwnersFields(c, a);
  }

  lemma OwnersFields(c: Conn, a: Action)
    requires !a.Receive?
    ensures var o := Step(c, a);
            && o.error.None? && o.conn.core.decoder == c.core.decoder
            && o.conn.server == c.server && o.conn.sawPreface == c.sawPreface && o.conn.recv == c.recv
  {
  }

  lemma AlikeReply(a: Core, b: Core, f: Frame)
    requires Alike(a, b)
    ensures Alike(Reply(a, f), Reply(b, f))
  {
    assert forall id: nat :: StateOf(Reply(a, f), id) == StateOf(a, id) && StateOf(Reply(b, f), id) == StateOf(b, id);
  }

  lemma AlikeProcess(c: Conn, c': Conn, s: bytes)
    requires Alike(c.core, c'.core) && c'.server == c.server && c'.sawPreface == c.sawPreface && c'.recv == c.recv
    ensures Process(Feed(c', s)).error == Process(Feed(c, s)).error
  {
    var recv := c.recv + s;
    if c.server && !c.sawPreface {
      if |recv| >= |PREFACE| {
        AlikeReply(c.core, c'.core, SETTINGS_FRAME);
        AlikeLoop(Reply(c.core, SETTINGS_FRAME), Reply(c'.core, SETTINGS_FRAME), recv[|PREFACE|..]);
      }
    } else {
      AlikeLoop(c.core, c'.core, recv);
    }
  }

  /** A run fails as one call on all its input would, whatever its owner does meanwhile. */
  lemma {:induction false} RunIsOneCall(c: Conn, actions: seq<Action>)
    requires Sound(c.core) && Quiet(c)
    ensures Failure(c, actions) == Process(Feed(c, Input(actions))).error
    decreases |actions|
  {
    if actions == [] {
      assert c.recv + [] == c.recv;
    } else {
      var a, rest := actions[0], Input(actions[1..]);
      var c' := Step(c, a).conn;
      if a.Receive? {
        FeedTwice(c, a.data, rest);
        ProcessExtended(Feed(c, a.data), rest);
        if Step(c, a).error.None? {
          ProcessSafe(Feed(c, a.data));
          ProcessQuiet(Feed(c, a.data));
          RunIsOneCall(c', actions[1..]);
        }
      } else {
        assert [] + rest == rest;
        OwnersCall(c, a);
        QuietIsDrained(c);
        QuietIsDrained(c');
        RunIsOneCall(c', actions[1..]);
        AlikeProcess(c, c', rest);
      }
    }
  }

  /**
   Over any run of calls, from construction: whether and how it fails first is decided by the bytes received alone. It is by a wrong
   preface, by the first complete frame that is refused given the frames before it, or by a frame that is too long.
   */
  lemma RunFails(server: bool, actions: seq<Action>)
    ensures Failure(NewConn(server), actions) == Fault(server, Input(actions))
  {
    NewConnSound(server);
    NewConnQuiet(server);
    RunIsOneCall(NewConn(server), actions);
    OneCallFails(server, Input(actions));
  }

  lemma {:induction false} ReadAllExtended(s: bytes, more: bytes, maxFrameSize: nat)
    requires !ReadAll(s, maxFrameSize).error
    ensures var a := ReadAll(s, maxFrameSize);
            ReadAll(s + more, maxFrameSize).frames == a.frames + ReadAll(a.rest + more, maxFrameSize).frames
    decreases |s|
  {
    var r := ReadFrame(s, maxFrameSize);
    ReadExtended(s, more, maxFrameSize);
    if r.Complete? {
      ReadAllExtended(r.rest, more, maxFrameSize);
      var a := ReadAll(r.rest, maxFrameSize);
      Assoc([r.frame], a.frames, ReadAll(a.rest + more, maxFrameSize).frames);
    } else {
      var all := ReadAll(s + more, maxFrameSize).frames;
      assert [] + all == all;
    }
  }

  lemma {:induction false} LoopAccepts(c: Core, recv: bytes)
    requires Frames(c, recv).error.None?
    ensures var a := ReadAll(recv, MAX_FRAME_SIZE); Accepted(c, recv) == a.frames && Frames(c, recv).recv == a.rest && !a.error
    decreases |recv|
  {
    var r := ReadFrame(recv, MAX_FRAME_SIZE);
    if r.Complete? {
      LoopAccepts(Handle(c, r.frame).core, r.rest);
    }
  }

  /** The complete frames in what a connection has not read yet and what it is given. */
  function Arriving(c: Conn, s: bytes): seq<Frame> {
    var all := c.recv + s;
    if !c.server || c.sawPreface then ReadAll(all, 16384).frames
    else if |all| < 24 then []
    else ReadAll(all[24..], 16384).frames
  }

  lemma CallAccepts(c: Conn, data: bytes, rest: bytes)
    requires Process(Feed(c, data)).error.None?
    ensures Arriving(c, data + rest) == AcceptedNow(Feed(c, data)) + Arriving(Process(Feed(c, data)).conn, rest)
  {
    var fed := c.recv + data;
    Assoc(c.recv, data, rest);
    if c.server && !c.sawPreface {
      if |fed| >= 24 {
        assert (fed + rest)[24..] == fed[24..] + rest;
        LoopAccepts(Reply(c.core, SETTINGS_FRAME), fed[24..]);
        ReadAllExtended(fed[24..], rest, MAX_FRAME_SIZE);
      } else {
        assert [] + Arriving(c, data + rest) == Arriving(c, data + rest);
      }
    } else {
      LoopAccepts(c.core, fed);
      ReadAllExtended(fed, rest, MAX_FRAME_SIZE);
    }
  }

  /** A run that does not fail has accepted every complete frame it was sent. */
  lemma {:induction false} RunAccepts(c: Conn, actions: seq<Action>)
    requires Sound(c.core) && Quiet(c) && Failure(c, actions) == None
    ensures AcceptedBy(c, actions) == Arriving(c, Input(actions))
    decreases |actions|
  {
    if actions == [] {
      assert c.recv + [] == c.recv;
      QuietIsDrained(c);
    } else {
      var a, rest := actions[0], Input(actions[1..]);
      var c' := Step(c, a).conn;
      if a.Receive? {
        ProcessSafe(Feed(c, a.data));
        ProcessQuiet(Feed(c, a.data));
        RunAccepts(c', actions[1..]);
        CallAccepts(c, a.data, rest);
      } else {
        assert [] + rest == rest && [] + AcceptedBy(c', actions[1..]) == AcceptedBy(c', actions[1..]);
        OwnersCall(c, a);
        QuietIsDrained(c);
        QuietIsDrained(c');
        RunAccepts(c', actions[1..]);
      }
    }
  }

  /** For instance a client's SETTINGS, with any number of six-byte entries, is accepted and acknowledged. */
  lemma SettingsAccepted(c: Core, payload: bytes)
    requires |payload| % 6 == 0
    ensures Handle(c, Frame(4, 0, 0, payload)) == Handled(c.(send := c.send + [0, 0, 0, 4, 1, 0, 0, 0, 0]), [], None)
  {
    assert FrameBytes(SETTINGS_ACK) == [0, 0, 0, 4, 1, 0, 0, 0, 0];
  }

  /** What makes a call of process mark the connection as done: a GOAWAY it accepts, a frame too long, a wrong preface. */
  ghost predicate MarksDone(c: Conn, a: Action) {
    || a.Leave?
    || (a.Receive? &&
        (|| (exists f | f in AcceptedIn(c, a) :: f.kind == 7)
         || Step(c, a).error == Some(BadFrame) || Step(c, a).error == Some(BadPreface)))
  }

  lemma HandleDone(c: Core, f: Frame)
    requires Sound(c)
    ensures Handle(c, f).core.done <==> c.done || f.kind == 7
    ensures Handle(c, f).error != Some(BadFrame) && Handle(c, f).error != Some(BadPreface)
    ensures f.kind == 7 ==> Handle(c, f).error.None?
  {
    HandleRefuses(c, f);
  }

  lemma {:induction false} LoopDone(c: Core, recv: bytes)
    requires Sound(c)
    ensures var l := Frames(c, recv);
            && (l.core.done <==> c.done || (exists f | f in Accepted(c, recv) :: f.kind == 7) || l.error == Some(BadFrame))
            && l.error != Some(BadPreface)
    decreases |recv|
  {
    var r := ReadFrame(recv, MAX_FRAME_SIZE);
    if r.Complete? {
      HandleDone(c, r.frame);
      if Handle(c, r.frame).error.None? {
        HandleSafe(c, r.frame);
        LoopDone(Handle(c, r.frame).core, r.rest);
        assert r.frame in [r.frame] + Accepted(Handle(c, r.frame).core, r.rest);
      }
    }
  }

  lemma ProcessDone(c: Conn, a: Action)
    requires Sound(c.core) && a.Receive?
    ensures Step(c, a).conn.core.done <==> c.core.done || MarksDone(c, a)
  {
    var fed := Feed(c, a.data);
    if c.server && !c.sawPreface {
      if PREFACE <= fed.recv {
        LoopDone(Reply(c.core, SETTINGS_FRAME), fed.recv[|PREFACE|..]);
      }
    } else {
      LoopDone(c.core, fed.recv);
    }
  }

  ghost predicate EverDone(c: Conn, actions: seq<Action>)
    decreases |actions|
  {
    actions != [] && (MarksDone(c, actions[0]) || EverDone(Step(c, actions[0]).conn, actions[1..]))
  }

  /** Over any run a connection is done exactly if it was or one of its calls marked it. */
  lemma {:induction false} RunDone(c: Conn, actions: seq<Action>)
    requires Sound(c.core)
    ensures After(c, actions).core.done <==> c.core.done || EverDone(c, actions)
    decreases |actions|
  {
    if actions != [] {
      var a := actions[0];
      StepSafe(c, a);
      if a.Receive? {
        ProcessDone(c, a);
      } else {
        OwnersDone(c, a);
      }
      RunDone(Step(c, a).conn, actions[1..]);
    }
  }

  lemma OwnersDone(c: Conn, a: Action)
    requires !a.Receive?
    ensures Step(c, a).conn.core.done <==> c.core.done || a.Leave?
  {
  }
}
