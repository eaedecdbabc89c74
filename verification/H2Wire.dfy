/** Frames byte by byte, as sections 4.1, 6.4, 6.8 and 6.9 of RFC 7540 lay them out, and what a peer makes of the control frames. */
module H2Wire {
  import opened Bytes
  import opened HpackTable
  import opened Hpack
  import opened H2Frame
  import opened H2Writer
  import opened H2Machine
  import opened H2Safety
  import opened H2Streams
  import opened H2Response

  lemma ThreeBytes(s: bytes)
    requires |s| == 3
    ensures FromBigEndian(s) == Word(0, s[0], s[1], s[2])
  {
    var a: int, b: int, c: int := s[0], s[1], s[2];
    assert FromBigEndian(s[..1]) == a by {
      assert s[..1][..0] == [];
    }
    assert FromBigEndian(s[..2]) == 256 * a + b by {
      assert s[..2][..1] == s[..1];
    }
  }

  /** The nine bytes of a frame header: three of length, the type, the flags, and four of stream id without its top bit. */
  lemma FrameLayout(l: bytes, kind: byte, flags: byte, id: bytes, payload: bytes, rest: bytes, maxFrameSize: nat)
    requires |l| == 3 && |id| == 4 && |payload| == Word(0, l[0], l[1], l[2]) <= maxFrameSize
    ensures ReadFrame(l + [kind, flags] + id + payload + rest, maxFrameSize) ==
            Complete(Frame(kind, flags, Word(id[0], id[1], id[2], id[3]) % 0x8000_0000, payload), rest)
  {
    var s := l + [kind, flags] + id + payload + rest;
    ThreeBytes(l);
    FourBytes(id);
    assert s[..3] == l && s[3] == kind && s[4] == flags && s[5..9] == id;
    assert s[9..9 + |payload|] == payload && s[9 + |payload|..] == rest;
  }

  function WordOf(s: bytes): int
    requires |s| == 4
  {
    Word(s[0], s[1], s[2], s[3])
  }

  /** Four bytes written for a number read as it. */
  lemma WordWritten(n: nat)
    requires n < 0x1_0000_0000
    ensures WordOf(BigEndian(n, 4)) == n
  {
    Sizes();
    FromBigEndianOf(n, 4);
    FourBytes(BigEndian(n, 4));
  }

  /** A reset names its stream and holds the error code. */
  lemma ResetReads(id: nat, code: nat)
    requires code < 0x1_0000_0000
    ensures var f := ResetFrame(id, code);
            f.kind == 3 && f.flags == 0 && f.streamId == id && |f.payload| == 4 && WordOf(f.payload) == code
  {
    WordWritten(code);
  }

  /** HEADERS and DATA on a stream that has ended are answered with a reset that says STREAM_CLOSED, which is 5. */
  lemma ResetAnswered(k: Core, f: Frame)
    requires Sound(k) && Finished(k, f.streamId) && (f.kind == 0 || f.kind == 1)
    ensures Handle(k, f) == Handled(k.(send := k.send + FrameBytes(Frame(3, 0, f.streamId, [0, 0, 0, 5]))), [], None)
  {
    ResetHandled(k, f);
    assert BigEndian(5, 4) == [0, 0, 0, 5];
  }

  /** A GOAWAY is sent on stream 0 and holds the last stream id, the error code and the debug data. */
  lemma GoawayReads(last: nat, code: nat, debug: bytes)
    requires last < 0x8000_0000 && code < 0x1_0000_0000
    ensures var f := GoawayFrame(last, code, debug);
            && f.kind == 7 && f.flags == 0 && f.streamId == 0 && |f.payload| == 8 + |debug|
            && WordOf(f.payload[..4]) == last && WordOf(f.payload[4..8]) == code && f.payload[8..] == debug
  {
    WordWritten(last);
    WordWritten(code);
    assert last % 0x8000_0000 == last;
    WordsIn(GoawayFrame(last, code, debug).payload, BigEndian(last, 4), BigEndian(code, 4), debug);
  }

  lemma WordsIn(p: bytes, a: bytes, b: bytes, c: bytes)
    requires |a| == 4 && |b| == 4 && p == a + b + c
    ensures |p| == 8 + |c| && WordOf(p[..4]) == WordOf(a) && WordOf(p[4..8]) == WordOf(b) && p[8..] == c
  {
    assert p[..4] == a && p[4..8] == b;
  }

  /** goaway marks the connection as done and, unless the debug data is too long, names the largest stream id the peer has used. */
  lemma GoawaySent(c: Conn, code: nat, debug: bytes)
    requires Sound(c.core)
    ensures var c', last := Goaway(c, code, debug), c.core.lastPeer;
            && c'.core.done
            && c'.core.send == c.core.send + (if |debug| + 8 <= 0xff_ffff then FrameBytes(GoawayFrame(last, code, debug)) else [])
            && (forall id | id in c.core.streams :: id <= last) && (if c.core.streams == map[] then last == 0 else last in c.core.streams)
  {
    var f := GoawayFrame(c.core.lastPeer, code, debug);
    assert Serialize([f]) == FrameBytes(f) + [] by {
      assert [f][1..] == [];
    }
    assert FrameBytes(f) + [] == FrameBytes(f) && c.core.send + [] == c.core.send;
  }

  lemma GrantedIs(id: nat, n: nat)
    requires 0 < n < 0x8000_0000
    ensures Granted(WindowUpdateFrame(id, n)) == n
    ensures FromBigEndian(WindowUpdateFrame(id, n).payload) == n
  {
    Sizes();
    FromBigEndianOf(n, 4);
  }

  /**
   A peer that reads what send_window_update writes for a stream grows that stream's send window by the increment and no other, and
   changes nothing else; on stream 0 it fails.
   */
  lemma WindowUpdateDelivered(k: Core, id: nat, n: nat)
    requires Sound(k) && id <= MAX_STREAM && 0 < n < 0x8000_0000
    ensures var l := Frames(k, FrameBytes(WindowUpdateFrame(id, n)));
            if id == 0 then l.error == Some(StreamZero) && l.core == k
            else
              && l.error == None && l.recv == [] && l.ready == [] && l.core.send == k.send && l.core.decoder == k.decoder
              && WindowOf(l.core, id) == WindowOf(k, id) + n
              && forall other: nat | other != id :: WindowOf(l.core, other) == WindowOf(k, other)
  {
    var f := WindowUpdateFrame(id, n);
    GrantedIs(id, n);
    FrameRoundTrip(f, [], MAX_FRAME_SIZE);
    assert FrameBytes(f) + [] == FrameBytes(f);
    if id != 0 {
      UpdateHandled(k, f, n);
      FirstFrame(k, f, []);
    }
  }

  lemma UpdateHandled(k: Core, f: Frame, n: nat)
    requires f.kind == WINDOW_UPDATE && f.streamId != 0 && |f.payload| == 4 && FromBigEndian(f.payload) == n && 0 < n < 0x8000_0000
    ensures var h := Handle(k, f);
            && h.error == None && h.ready == [] && h.core.send == k.send && h.core.decoder == k.decoder
            && WindowOf(h.core, f.streamId) == WindowOf(k, f.streamId) + n
            && forall other: nat | other != f.streamId :: WindowOf(h.core, other) == WindowOf(k, other)
  {
  }

  /** send_window_update writes its one frame exactly for an increment and a stream id of at most 31 bits, the former not zero. */
  lemma GrantSent(c: Conn, id: nat, n: nat)
    ensures GrantWindow(c, id, n) ==
            if 0 < n < 0x8000_0000 && id < 0x8000_0000
            then c.(core := c.core.(send := c.core.send + FrameBytes(WindowUpdateFrame(id, n)))) else c
  {
    var f := WindowUpdateFrame(id, n);
    assert Serialize([f]) == FrameBytes(f) + [] by {
      assert [f][1..] == [];
    }
    assert FrameBytes(f) + [] == FrameBytes(f);
  }

  /** A server that has just received the preface, and no more, answers with an empty SETTINGS frame. */
  lemma PrefaceAnswered()
    ensures var o := Process(Feed(NewConn(true), Ascii("PRI * HTTP/2.0\r\n\r\nSM\r\n\r\n")));
            o.error == None && o.conn.core.send == [0, 0, 0, 4, 0, 0, 0, 0, 0] && o.conn.recv == []
  {
    var s := Ascii("PRI * HTTP/2.0\r\n\r\nSM\r\n\r\n");
    assert [] + s == s && s[24..] == [];
    assert FrameBytes(SETTINGS_FRAME) == [0, 0, 0, 4, 0, 0, 0, 0, 0];
  }

  predicate Capital(name: bytes) {
    exists b | b in name :: 'A' <= b as char <= 'Z'
  }

  lemma NoCapitalsIff(headers: seq<Header>)
    ensures AllLowercase(headers) <==> forall h | h in headers :: !Capital(h.name)
  {
    forall i | 0 <= i < |headers|
      ensures HasUppercase(headers[i].name) <==> Capital(headers[i].name)
    {
      CapitalIs(headers[i].name);
    }
    if forall h | h in headers :: !Capital(h.name) {
      assert forall i | 0 <= i < |headers| :: headers[i] in headers;
    }
  }

  /** send_response accepts a response exactly if no header name has a capital letter, the block fits one frame and the id is one. */
  lemma ResponseAcceptedIff(c: Conn, r: Response)
    ensures Respond1(c, r).ok <==>
            && (forall h | h in r.headers :: !Capital(h.name))
            && |Encode(c.encoder, r.headers).data| <= 16384 && 0 < r.id < 0x8000_0000
  {
    EncodeRemembers(c.encoder, r.headers);
    NoCapitalsIff(r.headers);
  }

  lemma CapitalIs(name: bytes)
    ensures HasUppercase(name) <==> Capital(name)
  {
    if i :| 0 <= i < |name| && 65 <= name[i] <= 90 {
      assert name[i] in name && 'A' <= name[i] as char <= 'Z';
    }
    if b :| b in name && 'A' <= b as char <= 'Z' {
      var i :| 0 <= i < |name| && name[i] == b;
    }
  }
}
