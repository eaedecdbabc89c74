/** What no input can do to a connection: the stream life cycle, and each stream reported ready at most once. */
module H2Safety {
  import opened Bytes
  import opened H2Frame
  import opened H2Writer
  import opened H2Machine

  predicate LiveState(s: StreamState) {
    s == Idle || s == Open || s == HalfClosedRemote
  }

  /** Streams are never half-closed locally or closed, and lastPeer is the largest stream id, 0 if there is none. */
  ghost predicate Sound(c: Core) {
    && (forall id | id in c.streams :: 0 < id <= c.lastPeer <= MAX_STREAM && LiveState(c.streams[id].state))
    && (if c.streams == map[] then c.lastPeer == 0 else c.lastPeer in c.streams)
  }

  predicate Moves(a: StreamState, b: StreamState) {
    a == b || (a == Idle && (b == Open || b == HalfClosedRemote)) || (a == Open && b == HalfClosedRemote)
  }

  ghost predicate Finished(c: Core, id: nat) {
    id in c.streams && c.streams[id].state == HalfClosedRemote
  }

  /** States only move forward, and a finished stream keeps its headers and body. */
  ghost predicate Progress(c: Core, c': Core) {
    forall id | id in c.streams ::
      && id in c'.streams && Moves(c.streams[id].state, c'.streams[id].state)
      && (c.streams[id].state == HalfClosedRemote ==>
            c'.streams[id].headers == c.streams[id].headers && c'.streams[id].body == c.streams[id].body)
  }

  ghost predicate NoRepeats(s: seq<nat>) {
    forall i, j | 0 <= i < j < |s| :: s[i] != s[j]
  }

  /** The streams reported are exactly those that finished. */
  ghost predicate ReportsExactly(c: Core, c': Core, ready: seq<nat>) {
    NoRepeats(ready) && forall id: nat :: id in ready <==> Finished(c', id) && !Finished(c, id)
  }

  lemma TouchSound(c: Core, id: nat)
    requires Sound(c) && 0 < id <= MAX_STREAM
    ensures Sound(Touch(c, id)) && Progress(c, Touch(c, id)) && ReportsExactly(c, Touch(c, id), [])
  {
  }

  /** Replacing one stream by a later version of itself. */
  lemma SetStreamSafe(c: Core, id: nat, s: Stream, c': Core, ready: seq<nat>)
    requires Sound(c) && id in c.streams
    requires LiveState(s.state) && Moves(c.streams[id].state, s.state)
    requires c.streams[id].state == HalfClosedRemote ==> s.headers == c.streams[id].headers && s.body == c.streams[id].body
    requires c'.streams == c.streams[id := s] && c'.lastPeer == c.lastPeer
    requires ready == if s.state == HalfClosedRemote && c.streams[id].state != HalfClosedRemote then [id] else []
    ensures Sound(c') && Progress(c, c') && ReportsExactly(c, c', ready)
  {
    assert id in c'.streams;
  }

  lemma HandleHeadersSafe(c: Core, f: Frame)
    requires Sound(c) && f.streamId in c.streams
    ensures var h := HandleHeaders(c, f); Sound(h.core) && Progress(c, h.core) && ReportsExactly(c, h.core, h.ready)
  {
    var h := HandleHeaders(c, f);
    var s := h.core.streams[f.streamId];
    assert h.core.streams == c.streams[f.streamId := s];
    SetStreamSafe(c, f.streamId, s, h.core, h.ready);
  }

  lemma HandleDataSafe(c: Core, f: Frame)
    requires Sound(c) && f.streamId in c.streams
    ensures var h := HandleData(c, f); Sound(h.core) && Progress(c, h.core) && ReportsExactly(c, h.core, h.ready)
  {
    var h := HandleData(c, f);
    var s := h.core.streams[f.streamId];
    assert h.core.streams == c.streams[f.streamId := s];
    SetStreamSafe(c, f.streamId, s, h.core, h.ready);
  }

  lemma HandleWindowUpdateSafe(c: Core, f: Frame)
    requires Sound(c) && f.streamId in c.streams
    ensures var h := HandleWindowUpdate(c, f); Sound(h.core) && Progress(c, h.core) && ReportsExactly(c, h.core, h.ready)
  {
    var h := HandleWindowUpdate(c, f);
    var s := h.core.streams[f.streamId];
    assert h.core.streams == c.streams[f.streamId := s];
    SetStreamSafe(c, f.streamId, s, h.core, h.ready);
  }

  lemma HandleStreamSafe(c: Core, f: Frame)
    requires Sound(c) && f.streamId in c.streams
    ensures var h := HandleStream(c, f); Sound(h.core) && Progress(c, h.core) && ReportsExactly(c, h.core, h.ready)
  {
    if f.kind == HEADERS {
      HandleHeadersSafe(c, f);
    } else if f.kind == DATA {
      HandleDataSafe(c, f);
    } else if f.kind == WINDOW_UPDATE {
      HandleWindowUpdateSafe(c, f);
    }
  }

  /** One frame, accepted or refused. */
  lemma HandleSafe(c: Core, f: Frame)
    requires Sound(c) && f.streamId <= MAX_STREAM
    ensures var h := Handle(c, f); Sound(h.core) && Progress(c, h.core) && ReportsExactly(c, h.core, h.ready)
  {
    if f.kind == SETTINGS || f.kind == PING || f.kind == GOAWAY || f.streamId == 0 {
    } else {
      var t := Touch(c, f.streamId);
      TouchSound(c, f.streamId);
      HandleStreamSafe(t, f);
      var h := HandleStream(t, f);
      Compose(c, t, h.core, [], h.ready);
      assert [] + h.ready == h.ready;
    }
  }

  lemma Compose(a: Core, b: Core, c: Core, first: seq<nat>, second: seq<nat>)
    requires Progress(a, b) && Progress(b, c) && ReportsExactly(a, b, first) && ReportsExactly(b, c, second)
    ensures Progress(a, c) && ReportsExactly(a, c, first + second)
  {
    var all := first + second;
    forall i, j | 0 <= i < j < |all|
      ensures all[i] != all[j]
    {
      if i < |first| <= j {
        assert first[i] in first && second[j - |first|] in second;
      }
    }
  }

  /** Any input to the frame loop, however it ends. */
  lemma {:induction false} FramesSafe(c: Core, recv: bytes)
    requires Sound(c)
    ensures var l := Frames(c, recv); Sound(l.core) && Progress(c, l.core) && ReportsExactly(c, l.core, l.ready)
    decreases |recv|
  {
    var r := ReadFrame(recv, MAX_FRAME_SIZE);
    if r.Complete? {
      HandleSafe(c, r.frame);
      var h := Handle(c, r.frame);
      if h.error.None? {
        FramesSafe(h.core, r.rest);
        Compose(c, h.core, Frames(h.core, r.rest).core, h.ready, Frames(h.core, r.rest).ready);
      }
    }
  }

  lemma NewConnSound(server: bool)
    ensures Sound(NewConn(server).core)
  {
  }

  lemma ProcessSafe(c: Conn)
    requires Sound(c.core)
    ensures var o := Process(c);
            && Sound(o.conn.core) && Progress(c.core, o.conn.core)
            && if o.error.None? then ReportsExactly(c.core, o.conn.core, o.ready) else o.ready == []
  {
    if c.server && !c.sawPreface {
      if |c.recv| >= |PREFACE| && c.recv[..|PREFACE|] == PREFACE {
        FramesSafe(Reply(c.core, SETTINGS_FRAME), c.recv[|PREFACE|..]);
      }
    } else {
      FramesSafe(c.core, c.recv);
    }
  }

  /** Every call keeps the connection sound, undoes no finished stream, and reports only streams that just finished. */
  lemma StepSafe(c: Conn, a: Action)
    requires Sound(c.core)
    ensures var o := Step(c, a);
            && Sound(o.conn.core) && NoRepeats(o.ready)
            && (forall id: nat :: Finished(c.core, id) ==> Finished(o.conn.core, id))
            && (forall id <- o.ready :: Finished(o.conn.core, id) && !Finished(c.core, id))
  {
    if a.Receive? {
      ProcessSafe(Feed(c, a.data));
    }
  }

  /** Over any run of calls, whatever the peer sends, each stream id is reported ready at most once. */
  lemma {:induction false} ReadyAtMostOnce(c: Conn, actions: seq<Action>)
    requires Sound(c.core)
    ensures Sound(After(c, actions).core)
    ensures NoRepeats(ReadyLog(c, actions))
    ensures forall id <- ReadyLog(c, actions) :: Finished(After(c, actions).core, id) && !Finished(c.core, id)
    ensures forall id: nat :: Finished(c.core, id) ==> Finished(After(c, actions).core, id)
    decreases |actions|
  {
    if actions != [] {
      StepSafe(c, actions[0]);
      var o := Step(c, actions[0]);
      ReadyAtMostOnce(o.conn, actions[1..]);
      Disjoint(o.ready, ReadyLog(o.conn, actions[1..]), o.conn.core);
    }
  }

  lemma Disjoint(a: seq<nat>, b: seq<nat>, c: Core)
    requires NoRepeats(a) && NoRepeats(b)
    requires forall id <- a :: Finished(c, id)
    requires forall id <- b :: !Finished(c, id)
    ensures NoRepeats(a + b)
  {
    forall i, j | 0 <= i < j < |a + b|
      ensures (a + b)[i] != (a + b)[j]
    {
      if i < |a| <= j {
        assert a[i] in a && b[j - |a|] in b;
      }
    }
  }

  /** The streams that finish in a call of process that then fails: their ids are not reported. */
  ghost function LostNow(c: Conn): seq<nat> {
    if c.server && !c.sawPreface then
      if PREFACE <= c.recv then Unreported(Frames(Reply(c.core, SETTINGS_FRAME), c.recv[|PREFACE|..])) else []
    else Unreported(Frames(c.core, c.recv))
  }

  function Unreported(l: Looped): seq<nat> {
    if l.error.Some? then l.ready else []
  }

  ghost function LostIn(c: Conn, a: Action): seq<nat> {
    if a.Receive? then LostNow(Feed(c, a.data)) else []
  }

  ghost function LostLog(c: Conn, actions: seq<Action>): seq<nat>
    decreases |actions|
  {
    if actions == [] then [] else LostIn(c, actions[0]) + LostLog(Step(c, actions[0]).conn, actions[1..])
  }

  ghost predicate NoneFails(c: Conn, actions: seq<Action>)
    decreases |actions|
  {
    actions == [] || (Step(c, actions[0]).error.None? && NoneFails(Step(c, actions[0]).conn, actions[1..]))
  }

  /** The streams that finish are those reported or lost, and no stream is both. */
  ghost predicate Accounts(c: Core, c': Core, ready: seq<nat>, lost: seq<nat>) {
    && (forall id: nat :: Finished(c', id) && !Finished(c, id) <==> id in ready || id in lost)
    && (forall id: nat :: id in ready ==> id !in lost)
  }

  lemma ProcessAccounts(c: Conn)
    requires Sound(c.core)
    ensures Accounts(c.core, Process(c).conn.core, Process(c).ready, LostNow(c))
    ensures Process(c).error.None? ==> LostNow(c) == []
  {
    if c.server && !c.sawPreface {
      if |c.recv| >= |PREFACE| && c.recv[..|PREFACE|] == PREFACE {
        FramesSafe(Reply(c.core, SETTINGS_FRAME), c.recv[|PREFACE|..]);
      }
    } else {
      FramesSafe(c.core, c.recv);
    }
  }

  lemma StepAccounts(c: Conn, a: Action)
    requires Sound(c.core)
    ensures Accounts(c.core, Step(c, a).conn.core, Step(c, a).ready, LostIn(c, a))
    ensures Step(c, a).error.None? ==> LostIn(c, a) == []
  {
    if a.Receive? {
      ProcessAccounts(Feed(c, a.data));
    }
  }

  lemma AccountsTwice(a: Core, b: Core, c: Core, ready: seq<nat>, lost: seq<nat>, ready': seq<nat>, lost': seq<nat>)
    requires Accounts(a, b, ready, lost) && Accounts(b, c, ready', lost')
    requires forall id: nat :: Finished(a, id) ==> Finished(b, id)
    requires forall id: nat :: Finished(b, id) ==> Finished(c, id)
    ensures Accounts(a, c, ready + ready', lost + lost')
  {
  }

  /** Over any run of calls: a stream finishes exactly if it is reported ready or a failing call loses it, and never both. */
  lemma {:induction false} RunAccounts(c: Conn, actions: seq<Action>)
    requires Sound(c.core)
    ensures Accounts(c.core, After(c, actions).core, ReadyLog(c, actions), LostLog(c, actions))
    decreases |actions|
  {
    if actions != [] {
      var o := Step(c, actions[0]);
      StepSafe(c, actions[0]);
      StepAccounts(c, actions[0]);
      RunAccounts(o.conn, actions[1..]);
      ReadyAtMostOnce(o.conn, actions[1..]);
      AccountsTwice(c.core, o.conn.core, After(c, actions).core, o.ready, LostIn(c, actions[0]),
                    ReadyLog(o.conn, actions[1..]), LostLog(o.conn, actions[1..]));
    }
  }

  lemma {:induction false} NothingLost(c: Conn, actions: seq<Action>)
    requires Sound(c.core) && NoneFails(c, actions)
    ensures LostLog(c, actions) == []
    decreases |actions|
  {
    if actions != [] {
      StepSafe(c, actions[0]);
      StepAccounts(c, actions[0]);
      NothingLost(Step(c, actions[0]).conn, actions[1..]);
    }
  }

  /** Over a run in which no call fails, the streams reported ready are exactly those that finished. */
  lemma ReadyIff(c: Conn, actions: seq<Action>, id: nat)
    requires Sound(c.core) && NoneFails(c, actions)
    ensures id in ReadyLog(c, actions) <==> Finished(After(c, actions).core, id) && !Finished(c.core, id)
  {
    RunAccounts(c, actions);
    NothingLost(c, actions);
  }

  ghost predicate IsSuffix(a: bytes, b: bytes) {
    |a| <= |b| && a == b[|b| - |a|..]
  }

  /** No stream disappears or goes back, and a finished one keeps its headers and loses at most the front of its body. */
  ghost predicate Onward(c: Core, c': Core) {
    forall id | id in c.streams ::
      && id in c'.streams && Moves(c.streams[id].state, c'.streams[id].state)
      && (c.streams[id].state == HalfClosedRemote ==>
            c'.streams[id].headers == c.streams[id].headers && IsSuffix(c'.streams[id].body, c.streams[id].body))
  }

  lemma SuffixOfSuffix(a: bytes, b: bytes, c: bytes)
    ensures IsSuffix(a, b) && IsSuffix(b, c) ==> IsSuffix(a, c)
  {
  }

  lemma OnwardTwice(a: Core, b: Core, c: Core)
    requires Onward(a, b) && Onward(b, c)
    ensures Onward(a, c)
  {
    forall id | id in a.streams
      ensures
        && id in c.streams && Moves(a.streams[id].state, c.streams[id].state)
        && (a.streams[id].state == HalfClosedRemote ==>
              c.streams[id].headers == a.streams[id].headers && IsSuffix(c.streams[id].body, a.streams[id].body))
    {
      SuffixOfSuffix(c.streams[id].body, b.streams[id].body, a.streams[id].body);
    }
  }

  lemma ProgressOnward(c: Core, c': Core)
    requires Progress(c, c')
    ensures Onward(c, c')
  {
  }

  lemma ConsumeOnward(c: Conn, id: nat, n: nat)
    requires Sound(c.core)
    ensures Onward(c.core, ConsumeBody(c, id, n).core)
  {
  }

  lemma StepOnward(c: Conn, a: Action)
    requires Sound(c.core)
    ensures Onward(c.core, Step(c, a).conn.core)
  {
    match a
    case Receive(data) =>
      ProcessSafe(Feed(c, data));
      ProgressOnward(c.core, Step(c, a).conn.core);
    case Consume(id, n) =>
      ConsumeOnward(c, id, n);
    case _ =>
      QuietStreams(c, a);
      SameOnward(c.core, Step(c, a).conn.core);
  }

  lemma QuietStreams(c: Conn, a: Action)
    requires !a.Receive? && !a.Consume?
    ensures Step(c, a).conn.core.streams == c.core.streams
  {
  }

  lemma SameOnward(c: Core, c': Core)
    requires c'.streams == c.streams
    ensures Onward(c, c')
  {
  }

  /** Over any run of calls and any input, states only move forward and nothing rewrites a finished stream. */
  lemma {:induction false} RunOnward(c: Conn, actions: seq<Action>)
    requires Sound(c.core)
    ensures Onward(c.core, After(c, actions).core)
    decreases |actions|
  {
    if actions != [] {
      StepSafe(c, actions[0]);
      StepOnward(c, actions[0]);
      RunOnward(Step(c, actions[0]).conn, actions[1..]);
      OnwardTwice(c.core, Step(c, actions[0]).conn.core, After(c, actions).core);
    }
  }
}
