/** How the input is cut into feed calls makes no difference to a connection. */
module H2Fragmentation {
  import opened Bytes
  import opened H2Frame
  import opened H2Writer
  import opened H2Machine

  /** One loop after the other. */
  function Then(a: Looped, b: Looped): Looped {
    b.(ready := a.ready + b.ready)
  }

  /** More input only adds to what the loop already did. */
  lemma {:induction false} FramesExtended(c: Core, recv: bytes, more: bytes)
    ensures var l := Frames(c, recv);
            Frames(c, recv + more) ==
            if l.error.Some? then l.(recv := l.recv + more) else Then(l, Frames(l.core, l.recv + more))
    decreases |recv|
  {
    var r := ReadFrame(recv, MAX_FRAME_SIZE);
    ReadExtended(recv, more, MAX_FRAME_SIZE);
    if r.Incomplete? {
      NoneFirst(Frames(c, recv + more));
    } else if r.Complete? {
      var h := Handle(c, r.frame);
      if h.error.None? {
        FramesExtended(h.core, r.rest, more);
        var l := Frames(h.core, r.rest);
        Assoc(h.ready, l.ready, Frames(l.core, l.recv + more).ready);
      }
    }
  }

  lemma NoneFirst(l: Looped)
    ensures l.(ready := [] + l.ready) == l
  {
    assert [] + l.ready == l.ready;
  }

  /** Nothing is left to do: a call of process would change nothing. */
  ghost predicate Quiet(c: Conn) {
    Process(c) == Outcome(c, [], None)
  }

  lemma FramesQuiet(c: Core, recv: bytes)
    requires Frames(c, recv).error.None?
    ensures var l := Frames(c, recv); Frames(l.core, l.recv) == Looped(l.core, l.recv, [], None)
  {
    var l := Frames(c, recv);
    FramesExtended(c, recv, []);
    assert recv + [] == recv && l.recv + [] == l.recv;
    NothingAdded(l.ready, Frames(l.core, l.recv).ready);
  }

  lemma NothingAdded(a: seq<nat>, b: seq<nat>)
    ensures a == a + b ==> b == []
  {
    assert |a + b| == |a| + |b|;
  }

  lemma ProcessQuiet(c: Conn)
    requires Process(c).error.None?
    ensures Quiet(Process(c).conn)
  {
    if c.server && !c.sawPreface {
      if |c.recv| >= |PREFACE| && c.recv[..|PREFACE|] == PREFACE {
        FramesQuiet(Reply(c.core, SETTINGS_FRAME), c.recv[|PREFACE|..]);
      }
    } else {
      FramesQuiet(c.core, c.recv);
    }
  }

  lemma NewConnQuiet(server: bool)
    ensures Quiet(NewConn(server))
  {
  }

  /** Processing early and then late is processing once. */
  lemma ProcessExtended(c: Conn, more: bytes)
    ensures var o := Process(c);
            var late := Process(Feed(o.conn, more));
            Process(Feed(c, more)) ==
            if o.error.Some? then o.(conn := Feed(o.conn, more))
            else late.(ready := if late.error.Some? then [] else o.ready + late.ready)
  {
    if c.server && !c.sawPreface {
      var n := |PREFACE|;
      if |c.recv| < n {
        var late := Process(Feed(c, more));
        assert [] + late.ready == late.ready;
      } else {
        assert (c.recv + more)[..n] == c.recv[..n] && (c.recv + more)[n..] == c.recv[n..] + more;
        if c.recv[..n] == PREFACE {
          FramesExtended(Reply(c.core, SETTINGS_FRAME), c.recv[n..], more);
        }
      }
    } else {
      FramesExtended(c.core, c.recv, more);
    }
  }

  /** What a run has been given or will be given but has not consumed when it stops. */
  ghost function Unconsumed(c: Conn, chunks: seq<bytes>): bytes
    decreases |chunks|
  {
    if chunks == [] then c.recv
    else
      var o := Process(Feed(c, chunks[0]));
      if o.error.Some? then o.conn.recv + Flatten(chunks[1..]) else Unconsumed(o.conn, chunks[1..])
  }

  /** A run over chunks ends as one call on all the bytes would; on failure only the bytes not yet fed differ. */
  lemma {:induction false} RunIsOneProcess(c: Conn, chunks: seq<bytes>)
    requires Quiet(c)
    ensures var r, o := Run(c, chunks), Process(Feed(c, Flatten(chunks)));
            && r.error == o.error
            && (r.error.None? ==> r == o)
            && (r.error.Some? ==> r.conn.(recv := Unconsumed(c, chunks)) == o.conn)
            && Unconsumed(c, chunks) == o.conn.recv
    decreases |chunks|
  {
    if chunks == [] {
      assert c.recv + [] == c.recv;
    } else {
      var fed := Feed(c, chunks[0]);
      var rest := Flatten(chunks[1..]);
      FeedTwice(c, chunks[0], rest);
      ProcessExtended(fed, rest);
      var o := Process(fed);
      if o.error.None? {
        ProcessQuiet(fed);
        RunIsOneProcess(o.conn, chunks[1..]);
      }
    }
  }

  lemma FeedTwice(c: Conn, a: bytes, b: bytes)
    ensures Feed(Feed(c, a), b) == Feed(c, a + b)
  {
    assert c.recv + a + b == c.recv + (a + b);
  }

  /**
   Fragmentation independence. Two ways of cutting the same bytes either both succeed, with the same streams, decoder
   state, pending output, unread bytes and ready list, or fail with the same error at the same frame in the same state.
   */
  lemma FragmentationIndependence(c: Conn, a: seq<bytes>, b: seq<bytes>)
    requires Quiet(c) && Flatten(a) == Flatten(b)
    ensures Run(c, a).error == Run(c, b).error
    ensures Run(c, a).error.None? ==> Run(c, a) == Run(c, b)
    ensures Run(c, a).conn.(recv := []) == Run(c, b).conn.(recv := [])
    ensures Unconsumed(c, a) == Unconsumed(c, b)
  {
    RunIsOneProcess(c, a);
    RunIsOneProcess(c, b);
  }
}
