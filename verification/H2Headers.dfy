/**
 The headers of a connection's streams over whole runs: one decoder serves all streams, so what a stream holds is what its own header
 blocks decode to, each with the table that every earlier block of the connection left.
 */
module H2Headers {
  import opened Bytes
  import opened HpackTable
  import opened Hpack
  import opened H2Frame
  import opened H2Writer
  import opened H2Machine
  import opened H2Safety
  import opened H2Streams
  import opened H2Runs
  import opened HpackPeer

  /** A header block handed to the decoder, with the stream it is for. */
  datatype HeaderBlock = HeaderBlock(id: nat, data: bytes)

  /** The table after some blocks, and what those of one stream decode to. */
  ghost function TableFrom(t: Table, blocks: seq<HeaderBlock>): Table
    decreases |blocks|
  {
    if blocks == [] then t else TableFrom(Decode(t, blocks[0].data, []).table, blocks[1..])
  }

  ghost function HeadersFrom(t: Table, blocks: seq<HeaderBlock>, id: nat): seq<Header>
    decreases |blocks|
  {
    if blocks == [] then []
    else
      var d := Decode(t, blocks[0].data, []);
      (if blocks[0].id == id then d.out else []) + HeadersFrom(d.table, blocks[1..], id)
  }

  lemma BlocksNext(blocks: seq<HeaderBlock>, more: seq<HeaderBlock>)
    requires blocks != []
    ensures (blocks + more)[0] == blocks[0] && (blocks + more)[1..] == blocks[1..] + more
  {
  }

  lemma {:induction false} BlocksConcat(t: Table, a: seq<HeaderBlock>, b: seq<HeaderBlock>, id: nat)
    ensures TableFrom(t, a + b) == TableFrom(TableFrom(t, a), b)
    ensures HeadersFrom(t, a + b, id) == HeadersFrom(t, a, id) + HeadersFrom(TableFrom(t, a), b, id)
    decreases |a|
  {
    if a == [] {
      assert a + b == b;
      assert [] + HeadersFrom(t, b, id) == HeadersFrom(t, b, id);
    } else {
      var d := Decode(t, a[0].data, []);
      BlocksNext(a, b);
      BlocksConcat(d.table, a[1..], b, id);
      Assoc(if a[0].id == id then d.out else [], HeadersFrom(d.table, a[1..], id), HeadersFrom(TableFrom(t, a), b, id));
    }
  }

  /** The decoder only adds to the headers it is given. */
  lemma {:induction false} DecodeAppends(t: Table, data: bytes, a: seq<Header>, b: seq<Header>)
    ensures var d, e := Decode(t, data, b), Decode(t, data, a + b);
            e.table == d.table && e.out == a + d.out && e.error == d.error
    decreases |data|
  {
    if data != [] {
      var r := ReadField(t, data);
      if r.FieldOk? {
        Assoc(a, b, Emitted(r.field));
        DecodeAppends(Apply(t, r.field), r.rest, a, b + Emitted(r.field));
      }
    }
  }

  function HeadersOf(c: Core, id: nat): seq<Header> {
    if id in c.streams then c.streams[id].headers else []
  }

  /** The block a frame hands to the decoder, if it does: not without END_HEADERS, and not on a finished stream. */
  ghost function BlockIn(c: Core, f: Frame): seq<HeaderBlock> {
    if f.kind == HEADERS && f.streamId != 0 && !Finished(c, f.streamId) && f.flags / 4 % 2 == 1
    then [HeaderBlock(f.streamId, f.payload)] else []
  }

  /** What a step does to the decoder's table and to one stream's headers. */
  ghost predicate Reads(c: Core, blocks: seq<HeaderBlock>, c': Core, id: nat) {
    && c'.decoder == TableFrom(c.decoder, blocks)
    && HeadersOf(c', id) == HeadersOf(c, id) + HeadersFrom(c.decoder, blocks, id)
  }

  lemma ReadsNothing(c: Core, c': Core, id: nat)
    requires c'.decoder == c.decoder && HeadersOf(c', id) == HeadersOf(c, id)
    ensures Reads(c, [], c', id)
  {
    assert HeadersOf(c, id) + [] == HeadersOf(c, id);
  }

  lemma ReadsTwice(a: Core, x: seq<HeaderBlock>, b: Core, y: seq<HeaderBlock>, c: Core, id: nat)
    requires Reads(a, x, b, id) && Reads(b, y, c, id)
    ensures Reads(a, x + y, c, id)
  {
    BlocksConcat(a.decoder, x, y, id);
    Assoc(HeadersOf(a, id), HeadersFrom(a.decoder, x, id), HeadersFrom(b.decoder, y, id));
  }

  lemma ReadsOne(c: Core, block: HeaderBlock, c': Core, id: nat)
    requires var d := Decode(c.decoder, block.data, HeadersOf(c, block.id));
             c'.decoder == d.table && HeadersOf(c', id) == if id == block.id then d.out else HeadersOf(c, id)
    ensures Reads(c, [block], c', id)
  {
    var before := HeadersOf(c, block.id);
    DecodeAppends(c.decoder, block.data, before, []);
    assert before + [] == before;
    var d := Decode(c.decoder, block.data, []);
    assert [block][1..] == [];
    assert TableFrom(d.table, []) == d.table && HeadersFrom(d.table, [], id) == [];
    assert d.out + [] == d.out && HeadersOf(c, id) + ([] + []) == HeadersOf(c, id);
  }

  /** One frame, accepted or refused: a block that fails to decode still leaves its first headers and its table changes. */
  lemma HandleReads(c: Core, f: Frame, id: nat)
    requires Sound(c) && id > 0
    ensures Reads(c, BlockIn(c, f), Handle(c, f).core, id)
  {
    var h := Handle(c, f);
    if BlockIn(c, f) == [] {
      NoBlockRead(c, f, id);
      ReadsNothing(c, h.core, id);
    } else {
      BlockRead(c, f, id);
      ReadsOne(c, HeaderBlock(f.streamId, f.payload), h.core, id);
    }
  }

  lemma NoBlockRead(c: Core, f: Frame, id: nat)
    requires Sound(c) && BlockIn(c, f) == []
    ensures var c' := Handle(c, f).core; c'.decoder == c.decoder && HeadersOf(c', id) == HeadersOf(c, id)
  {
    TouchLive(c, f.streamId);
  }

  lemma BlockRead(c: Core, f: Frame, id: nat)
    requires Sound(c) && BlockIn(c, f) != []
    ensures var c', d := Handle(c, f).core, Decode(c.decoder, f.payload, HeadersOf(c, f.streamId));
            c'.decoder == d.table && HeadersOf(c', id) == if id == f.streamId then d.out else HeadersOf(c, id)
  {
    var t := Touch(c, f.streamId);
    TouchLive(c, f.streamId);
    assert Handle(c, f) == HandleHeaders(t, f);
    assert t.streams[f.streamId].headers == HeadersOf(c, f.streamId) && t.decoder == c.decoder;
  }

  /** The blocks one pass of the frame loop decodes. */
  ghost function BlocksIn(c: Core, recv: bytes): seq<HeaderBlock>
    decreases |recv|
  {
    var r := ReadFrame(recv, MAX_FRAME_SIZE);
    if r.Complete? then
      var h := Handle(c, r.frame);
      BlockIn(c, r.frame) + if h.error.None? then BlocksIn(h.core, r.rest) else []
    else []
  }

  lemma {:induction false} LoopReads(c: Core, recv: bytes, id: nat)
    requires Sound(c) && id > 0
    ensures Reads(c, BlocksIn(c, recv), Frames(c, recv).core, id)
    decreases |recv|
  {
    var r := ReadFrame(recv, MAX_FRAME_SIZE);
    if r.Complete? {
      var h := Handle(c, r.frame);
      HandleReads(c, r.frame, id);
      if h.error.None? {
        HandleSafe(c, r.frame);
        LoopReads(h.core, r.rest, id);
        ReadsTwice(c, BlockIn(c, r.frame), h.core, BlocksIn(h.core, r.rest), Frames(c, recv).core, id);
      } else {
        assert BlockIn(c, r.frame) + [] == BlockIn(c, r.frame);
      }
    } else {
      ReadsNothing(c, Frames(c, recv).core, id);
    }
  }

  ghost function BlocksNow(c: Conn): seq<HeaderBlock> {
    if c.server && !c.sawPreface then
      if PREFACE <= c.recv then BlocksIn(Reply(c.core, SETTINGS_FRAME), c.recv[|PREFACE|..]) else []
    else BlocksIn(c.core, c.recv)
  }

  ghost function BlocksOfCall(c: Conn, a: Action): seq<HeaderBlock> {
    if a.Receive? then BlocksNow(Feed(c, a.data)) else []
  }

  ghost function BlocksBy(c: Conn, actions: seq<Action>): seq<HeaderBlock>
    decreases |actions|
  {
    if actions == [] then [] else BlocksOfCall(c, actions[0]) + BlocksBy(Step(c, actions[0]).conn, actions[1..])
  }

  lemma ProcessReads(c: Conn, id: nat)
    requires Sound(c.core) && id > 0
    ensures Reads(c.core, BlocksNow(c), Process(c).conn.core, id)
  {
    if c.server && !c.sawPreface {
      if PREFACE <= c.recv {
        LoopReads(Reply(c.core, SETTINGS_FRAME), c.recv[|PREFACE|..], id);
      } else {
        ReadsNothing(c.core, Process(c).conn.core, id);
      }
    } else {
      LoopReads(c.core, c.recv, id);
    }
  }

  lemma StepReads(c: Conn, a: Action, id: nat)
    requires Sound(c.core) && id > 0
    ensures Reads(c.core, BlocksOfCall(c, a), Step(c, a).conn.core, id)
  {
    if a.Receive? {
      ProcessReads(Feed(c, a.data), id);
    } else {
      QuietReads(c, a, id);
    }
  }

  lemma QuietReads(c: Conn, a: Action, id: nat)
    requires !a.Receive?
    ensures Reads(c.core, [], Step(c, a).conn.core, id)
  {
    ReadsNothing(c.core, Step(c, a).conn.core, id);
  }

  lemma {:induction false} RunReads(c: Conn, actions: seq<Action>, id: nat)
    requires Sound(c.core) && id > 0
    ensures Reads(c.core, BlocksBy(c, actions), After(c, actions).core, id)
    decreases |actions|
  {
    if actions == [] {
      ReadsNothing(c.core, c.core, id);
    } else {
      var a, c' := actions[0], Step(c, actions[0]).conn;
      StepSafe(c, a);
      StepReads(c, a, id);
      RunReads(c', actions[1..], id);
      ReadsTwice(c.core, BlocksOfCall(c, a), c'.core, BlocksBy(c', actions[1..]), After(c, actions).core, id);
    }
  }

  /**
   From construction on, over any run of calls and any interleaving of streams: the decoder's table is what the blocks of all
   streams made it, in order, and a stream's headers are what its own blocks decode to, each with the table left by every block
   before it, also a block that failed.
   */
  lemma StreamHeaders(server: bool, actions: seq<Action>, id: nat)
    requires id > 0
    ensures var c := NewConn(server);
            var c', blocks := After(c, actions).core, BlocksBy(c, actions);
            c'.decoder == TableFrom(EMPTY_TABLE, blocks) && HeadersOf(c', id) == HeadersFrom(EMPTY_TABLE, blocks, id)
  {
    var c := NewConn(server);
    NewConnSound(server);
    RunReads(c, actions, id);
    var hs := HeadersFrom(EMPTY_TABLE, BlocksBy(c, actions), id);
    assert [] + hs == hs;
  }

  /** The blocks of one stream; and the payloads of its HEADERS frames up to the frame that ends it. */
  function DataFor(blocks: seq<HeaderBlock>, id: nat): seq<bytes> {
    if blocks == [] then [] else (if blocks[0].id == id then [blocks[0].data] else []) + DataFor(blocks[1..], id)
  }

  function HeaderPayloads(own: seq<Frame>): seq<bytes> {
    if own == [] then []
    else (if own[0].kind == HEADERS then [own[0].payload] else []) + if Ends(own[0]) then [] else HeaderPayloads(own[1..])
  }

  /** None once the stream is finished. */
  ghost function PayloadsFrom(c: Core, own: seq<Frame>, id: nat): seq<bytes> {
    if Finished(c, id) then [] else HeaderPayloads(own)
  }

  lemma {:induction false} DataForConcat(a: seq<HeaderBlock>, b: seq<HeaderBlock>, id: nat)
    ensures DataFor(a + b, id) == DataFor(a, id) + DataFor(b, id)
    decreases |a|
  {
    if a == [] {
      assert a + b == b && [] + DataFor(b, id) == DataFor(b, id);
    } else {
      BlocksNext(a, b);
      DataForConcat(a[1..], b, id);
      Assoc(if a[0].id == id then [a[0].data] else [], DataFor(a[1..], id), DataFor(b, id));
    }
  }

  lemma PayloadsNext(own: seq<Frame>, rest: seq<Frame>)
    requires own != [] && rest == own[1..]
    ensures HeaderPayloads(own) ==
            (if own[0].kind == HEADERS then [own[0].payload] else []) + if Ends(own[0]) then [] else HeaderPayloads(rest)
  {
  }

  lemma {:induction false} PayloadsConcat(a: seq<Frame>, b: seq<Frame>)
    ensures HeaderPayloads(a + b) == HeaderPayloads(a) + if AnyEnds(a) then [] else HeaderPayloads(b)
    decreases |a|
  {
    if a == [] {
      assert a + b == b && [] + HeaderPayloads(b) == HeaderPayloads(b);
    } else {
      var rest := a[1..];
      TailOfConcat(a, b);
      PayloadsConcat(rest, b);
      PayloadsNext(a, rest);
      PayloadsNext(a + b, rest + b);
      BodyNext(a, rest);
      assert HeaderPayloads(a) + [] == HeaderPayloads(a);
      Assoc(if a[0].kind == HEADERS then [a[0].payload] else [], HeaderPayloads(rest),
            if AnyEnds(rest) then [] else HeaderPayloads(b));
    }
  }

  /** One accepted frame of the stream. */
  lemma AcceptedBlock(c: Core, f: Frame, id: nat, rest: seq<Frame>)
    requires Sound(c) && id > 0 && Handle(c, f).error.None?
    ensures DataFor(BlockIn(c, f), id) + PayloadsFrom(Handle(c, f).core, Own(rest, id), id) ==
            PayloadsFrom(c, Own([f] + rest, id), id)
  {
    var own := Own(rest, id);
    OwnFirst(f, rest, id);
    HandleOwn(c, f, id);
    BlockDecoded(c, f);
    assert DataFor([], id) == [] && DataFor([HeaderBlock(f.streamId, f.payload)], id) ==
                                    if f.streamId == id then [f.payload] else [];
    if f.streamId == id {
      PayloadsNext([f] + own, own);
    }
  }

  lemma BlockDecoded(c: Core, f: Frame)
    requires Sound(c) && Handle(c, f).error.None?
    ensures BlockIn(c, f) == if f.kind == HEADERS && !Finished(c, f.streamId) then [HeaderBlock(f.streamId, f.payload)] else []
    ensures f.kind == HEADERS ==> f.streamId > 0
  {
    TouchLive(c, f.streamId);
  }

  lemma {:induction false} LoopBlocks(c: Core, recv: bytes, id: nat)
    requires Sound(c) && id > 0 && Frames(c, recv).error.None?
    ensures DataFor(BlocksIn(c, recv), id) == PayloadsFrom(c, Own(Accepted(c, recv), id), id)
    decreases |recv|
  {
    var r := ReadFrame(recv, MAX_FRAME_SIZE);
    if r.Complete? {
      var h := Handle(c, r.frame);
      HandleSafe(c, r.frame);
      LoopBlocks(h.core, r.rest, id);
      AcceptedBlock(c, r.frame, id, Accepted(h.core, r.rest));
      DataForConcat(BlockIn(c, r.frame), BlocksIn(h.core, r.rest), id);
    }
  }

  lemma ProcessBlocks(c: Conn, id: nat)
    requires Sound(c.core) && id > 0 && Process(c).error.None?
    ensures DataFor(BlocksNow(c), id) == PayloadsFrom(c.core, Own(AcceptedNow(c), id), id)
  {
    if c.server && !c.sawPreface {
      if PREFACE <= c.recv {
        LoopBlocks(Reply(c.core, SETTINGS_FRAME), c.recv[|PREFACE|..], id);
      }
    } else {
      LoopBlocks(c.core, c.recv, id);
    }
  }

  lemma StepBlocks(c: Conn, a: Action, id: nat)
    requires Sound(c.core) && id > 0 && Step(c, a).error.None?
    ensures DataFor(BlocksOfCall(c, a), id) == PayloadsFrom(c.core, Own(AcceptedIn(c, a), id), id)
    ensures Finished(Step(c, a).conn.core, id) <==> Finished(c.core, id) || AnyEnds(Own(AcceptedIn(c, a), id))
  {
    StepGrows(c, a, id);
    if a.Receive? {
      ProcessBlocks(Feed(c, a.data), id);
    }
  }

  lemma {:induction false} RunBlocks(c: Conn, actions: seq<Action>, id: nat)
    requires Sound(c.core) && id > 0 && NoneFails(c, actions)
    ensures DataFor(BlocksBy(c, actions), id) == PayloadsFrom(c.core, Own(AcceptedBy(c, actions), id), id)
    decreases |actions|
  {
    if actions != [] {
      var a, c' := actions[0], Step(c, actions[0]).conn;
      StepSafe(c, a);
      StepBlocks(c, a, id);
      RunBlocks(c', actions[1..], id);
      DataForConcat(BlocksOfCall(c, a), BlocksBy(c', actions[1..]), id);
      OwnConcat(AcceptedIn(c, a), AcceptedBy(c', actions[1..]), id);
      PayloadsConcat(Own(AcceptedIn(c, a), id), Own(AcceptedBy(c', actions[1..]), id));
    }
  }

  /** Over a run in which no call fails, a stream's blocks are the payloads of its accepted HEADERS frames up to its end. */
  lemma StreamBlocks(server: bool, actions: seq<Action>, id: nat)
    requires id > 0 && NoneFails(NewConn(server), actions)
    ensures var c := NewConn(server);
            DataFor(BlocksBy(c, actions), id) == HeaderPayloads(Own(AcceptedBy(c, actions), id))
  {
    NewConnSound(server);
    RunBlocks(NewConn(server), actions, id);
  }

  /** The blocks of a peer that means something by them. */
  datatype Talk = Talk(id: nat, items: seq<Item>)

  ghost predicate Spoken(blocks: seq<HeaderBlock>, talks: seq<Talk>) {
    && |blocks| == |talks|
    && forall k | 0 <= k < |talks| ::
         && blocks[k] == HeaderBlock(talks[k].id, BlockBytes(talks[k].items))
         && forall i | 0 <= i < |talks[k].items| :: Announced(talks[k].items[i])
  }

  /** What a peer means for one stream, over all its blocks. */
  function MeantFor(p: Peer, talks: seq<Talk>, id: nat): seq<Header>
    decreases |talks|
  {
    if talks == [] then []
    else (if talks[0].id == id then Meant(p, talks[0].items) else []) + MeantFor(LaterAll(p, talks[0].items), talks[1..], id)
  }

  lemma {:induction false} TalksRead(t: Table, p: Peer, blocks: seq<HeaderBlock>, talks: seq<Talk>, id: nat)
    requires Tracks(t, p) && Spoken(blocks, talks)
    ensures HeadersFrom(t, blocks, id) == MeantFor(p, talks, id)
    decreases |talks|
  {
    if talks != [] {
      var d := Decode(t, blocks[0].data, []);
      PeerBlockDecoded(t, p, talks[0].items, []);
      assert [] + Meant(p, talks[0].items) == Meant(p, talks[0].items);
      TalksRead(d.table, LaterAll(p, talks[0].items), blocks[1..], talks[1..], id);
    }
  }

  /**
   Over any run with a peer that writes header blocks in any mix of representations: a stream's headers are exactly what the peer
   means by the stream's own blocks, given everything it inserted before on the whole connection.
   */
  lemma PeerUnderstood(server: bool, actions: seq<Action>, talks: seq<Talk>, id: nat)
    requires id > 0 && Spoken(BlocksBy(NewConn(server), actions), talks)
    ensures HeadersOf(After(NewConn(server), actions).core, id) == MeantFor(Peer([], 4096), talks, id)
  {
    StreamHeaders(server, actions, id);
    NewPeerTracked();
    TalksRead(EMPTY_TABLE, Peer([], 4096), BlocksBy(NewConn(server), actions), talks, id);
  }
}
