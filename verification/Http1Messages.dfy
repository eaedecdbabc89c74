/**
 Where one message ends and the next begins: the way the proxy takes requests off a connection (src/proxy.cpp), and what of it
 survives forwarding.
 */
module Http1Messages {
  import opened Bytes
  import opened Buffer
  import opened Http1Text
  import opened Http1
  import opened Http1Framing
  import opened Http1Forwarding
  import opened Http1Codec

  /**
   A request with its body and the bytes behind it; or a wait for more, an error, or a chunked request, which is answered with 501
   and of which only the head is taken.
   */
  datatype Taken = Message(req: Request, body: bytes, rest: bytes) | Waiting | Malformed | Unsupported(rest: bytes)

  /** What is taken once the head is known. */
  function OfHead(s: bytes, req: Request): Taken
    requires req.headerBytes <= |s|
  {
    if req.chunked then Unsupported(s[req.headerBytes..])
    else if |s| < req.headerBytes + req.contentLength then Waiting
    else
      var end := req.headerBytes + req.contentLength;
      Message(req, s[req.headerBytes..end], s[end..])
  }

  ghost function TakeMessage(s: bytes): Taken {
    match ParseRequest(s)
    case Error => Malformed
    case Incomplete => Waiting
    case Complete(req) =>
      HeadInside(s, req);
      OfHead(s, req)
  }

  lemma HeadInside(s: bytes, req: Request)
    requires ParseRequest(s) == Complete(req)
    ensures req.headerBytes <= |s|
  {
    var _ := CompleteMeans(s, req);
  }

  /** The same off a ring buffer: what is taken is consumed, and nothing else. */
  method TakeRequest(buf: RingBuffer) returns (r: Taken)
    requires buf.Valid()
    modifies buf
    ensures buf.Valid() && buf.data == old(buf.data)
    ensures r == TakeMessage(old(buf.Contents()))
    ensures buf.Contents() == if r.Message? || r.Unsupported? then r.rest else old(buf.Contents())
  {
    var parsed := ReadRequest(buf);
    if parsed.Error? {
      return Malformed;
    }
    if parsed.Incomplete? {
      return Waiting;
    }
    HeadInside(buf.Contents(), parsed.req);
    r := TakeParsed(buf, parsed.req);
  }

  method TakeParsed(buf: RingBuffer, req: Request) returns (r: Taken)
    requires buf.Valid() && req.headerBytes <= |buf.Contents()|
    modifies buf
    ensures buf.Valid() && buf.data == old(buf.data)
    ensures r == OfHead(old(buf.Contents()), req)
    ensures buf.Contents() == if r.Message? || r.Unsupported? then r.rest else old(buf.Contents())
  {
    if req.chunked {
      Drop(buf, req.headerBytes, buf.Contents()[req.headerBytes..]);
      var rest := PeekAll(buf);
      return Unsupported(rest);
    }
    var readable := SizeOf(buf);
    var buffered := if readable > req.headerBytes then readable - req.headerBytes else 0;
    if req.contentLength > buffered {
      return Waiting;
    }
    var body, rest := TakeBody(buf, req.headerBytes, req.contentLength, req.headerBytes + req.contentLength);
    return Message(req, body, rest);
  }

  method TakeBody(buf: RingBuffer, head: nat, n: nat, ghost end: nat) returns (body: bytes, rest: bytes)
    requires buf.Valid() && end == head + n <= |buf.Contents()|
    modifies buf
    ensures buf.Valid() && buf.data == old(buf.data) && buf.Contents() == rest
    ensures body == old(buf.Contents())[head..end] && rest == old(buf.Contents())[end..]
  {
    ghost var s := buf.Contents();
    BodyAndRest(s, head, n, end);
    ghost var behind := s[head..];
    Drop(buf, head, behind);
    body := Front(buf, n);
    Drop(buf, n, s[end..]);
    rest := PeekAll(buf);
  }

  method Drop(buf: RingBuffer, n: nat, ghost rest: bytes)
    requires buf.Valid() && n <= |buf.Contents()| && rest == buf.Contents()[n..]
    modifies buf
    ensures buf.Valid() && buf.data == old(buf.data) && buf.Contents() == rest
  {
    buf.CommitRead(n);
  }

  method Front(buf: RingBuffer, n: nat) returns (s: bytes)
    requires buf.Valid() && n <= |buf.Contents()|
    ensures s == buf.Contents()[..n]
  {
    s := buf.Peek(n);
  }

  method SizeOf(buf: RingBuffer) returns (n: nat)
    requires buf.Valid()
    ensures n == |buf.Contents()|
  {
    return buf.Readable();
  }

  method PeekAll(buf: RingBuffer) returns (s: bytes)
    requires buf.Valid()
    ensures s == buf.Contents()
  {
    s := buf.Peek(buf.Readable());
  }

  lemma BodyAndRest(s: bytes, head: nat, n: nat, end: nat)
    requires end == head + n <= |s|
    ensures s[head..][..n] == s[head..end] && s[head..][n..] == s[end..]
  {
  }

  /** What is taken when input arrives in pieces and is looked at after each: the first answer that is not to wait. */
  ghost function Arrival(buf: bytes, pieces: seq<bytes>): Taken
    decreases |pieces|
  {
    if pieces == [] then Waiting
    else
      var t := TakeMessage(buf + pieces[0]);
      if t.Waiting? then Arrival(buf + pieces[0], pieces[1..]) else t
  }

  /** No piece ends inside the head with a line feed before it. */
  ghost predicate Smooth(buf: bytes, pieces: seq<bytes>, head: nat)
    decreases |pieces|
  {
    pieces == [] ||
    var b := buf + pieces[0];
    (|b| < head ==> LF !in b) && Smooth(b, pieces[1..], head)
  }

  lemma {:induction false} SmoothBehindHead(buf: bytes, pieces: seq<bytes>, head: nat)
    requires |buf| >= head
    ensures Smooth(buf, pieces, head)
    decreases |pieces|
  {
    if pieces != [] {
      SmoothBehindHead(buf + pieces[0], pieces[1..], head);
    }
  }

  /** As soon as the whole head has arrived it is parsed as it will be. */
  lemma HeadArrived(s: bytes, req: Request, k: nat)
    requires ParseRequest(s) == Complete(req) && req.headerBytes <= k <= |s|
    ensures ParseRequest(s[..k]) == Complete(req)
  {
    var lines := CompleteMeans(s, req);
    HeadWithin(s, req.headerBytes, k);
    WithinLimit(s, req);
    DenotedIsParsed(lines, s[..k], req);
  }

  lemma HeadWithin(s: bytes, n: nat, k: nat)
    requires n <= k <= |s|
    ensures s[..k][..n] == s[..n] && s[..n] <= s[..k]
  {
  }

  /** What is taken of the first k bytes of a message. */
  lemma PartTaken(s: bytes, req: Request, body: bytes, rest: bytes, k: nat)
    requires TakeMessage(s) == Message(req, body, rest) && k <= |s|
    ensures var t, end := TakeMessage(s[..k]), req.headerBytes + req.contentLength;
            if k < req.headerBytes then t == if LF in s[..k] then Malformed else Waiting
            else if k < end then t == Waiting
            else t == Message(req, body, s[end..k])
  {
    TakenLength(s, req, body, rest);
    if k < req.headerBytes {
      PartOfComplete(s, req, k);
    } else {
      HeadInside(s, req);
      HeadArrived(s, req, k);
      TakenOfHead(s[..k], req);
      FrontOfMessage(s, req, body, rest, k, req.headerBytes + req.contentLength);
    }
  }

  lemma FrontOfMessage(s: bytes, req: Request, body: bytes, rest: bytes, k: nat, end: nat)
    requires req.headerBytes <= k <= |s| && end == req.headerBytes + req.contentLength && !req.chunked
    requires OfHead(s, req) == Message(req, body, rest)
    ensures OfHead(s[..k], req) == if k < end then Waiting else Message(req, body, s[end..k])
  {
    if k >= end {
      assert s[..k][req.headerBytes..end] == s[req.headerBytes..end] && s[..k][end..] == s[end..k];
    }
  }

  lemma {:induction false} PiecesTaken(buf: bytes, pieces: seq<bytes>, s: bytes, req: Request, body: bytes, rest: bytes)
    requires s == buf + Flatten(pieces) && TakeMessage(s) == Message(req, body, rest)
    requires |buf| < req.headerBytes + req.contentLength
    ensures var t := Arrival(buf, pieces);
            if Smooth(buf, pieces, req.headerBytes) then t.Message? && t.req == req && t.body == body && t.rest <= rest
            else t == Malformed
    decreases |pieces|
  {
    var end := req.headerBytes + req.contentLength;
    HeadInside(s, req);
    assert buf + [] == buf;
    if pieces != [] {
      var b := buf + pieces[0];
      Assoc(buf, pieces[0], Flatten(pieces[1..]));
      assert b == s[..|b|];
      PartTaken(s, req, body, rest, |b|);
      if |b| < end {
        if TakeMessage(b).Waiting? {
          PiecesTaken(b, pieces[1..], s, req, body, rest);
        }
      } else {
        SmoothBehindHead(b, pieces[1..], req.headerBytes);
        assert s[end..|b|] <= s[end..];
      }
    }
  }

  /**
   A message that would be taken if it arrived at once, arriving in any pieces: it is taken, with the same body and nothing of what
   follows it lost, if and only if no piece ends inside its head behind a line feed. Otherwise it is refused.
   */
  lemma ArrivesInPiecesIff(pieces: seq<bytes>, req: Request, body: bytes, rest: bytes)
    requires TakeMessage(Flatten(pieces)) == Message(req, body, rest)
    ensures var t := Arrival([], pieces);
            && (t.Message? <==> Smooth([], pieces, req.headerBytes))
            && (t.Message? ==> t.req == req && t.body == body && t.rest <= rest)
            && (!t.Message? ==> t == Malformed)
  {
    var s := Flatten(pieces);
    TakenLength(s, req, body, rest);
    var _ := CompleteMeans(s, req);
    assert [] + s == s;
    PiecesTaken([], pieces, s, req, body, rest);
  }

  /** The forwarded head, and the request the next hop sees in it. */
  ghost predicate Forwards(req: Request, host: bytes, out: bytes) {
    && WrittenRequest(req, host) == Some(out)
    && ParseRequest(out) == Complete(Relayed(req, host, |out|))
  }

  lemma ForwardsWithin(s: bytes, req: Request, host: bytes)
    requires ParseRequest(s) == Complete(req) && GoodHost(host)
    ensures WrittenRequest(req, host).Some?
    ensures var out := WrittenRequest(req, host).value;
            Forwards(req, host, out) <==> |out| <= MAX_HEAD && |Expected(req, host)| <= MAX_HEADERS
  {
    ForwardingRoundTrip(s, req, host);
  }

  /** What the next hop takes: the length it reads, off whatever follows the head. */
  lemma NextHopTakes(out: bytes, seen: Request, after: bytes)
    requires ParseRequest(out) == Complete(seen) && seen.headerBytes == |out| && !seen.chunked
    ensures TakeMessage(out + after) ==
            if |after| < seen.contentLength then Waiting
            else Message(seen, after[..seen.contentLength], after[seen.contentLength..])
  {
    CompleteIsStable(out, after);
    TakenOfHead(out + after, seen);
    OfHeadBehind(out, after, seen);
  }

  lemma TakenOfHead(s: bytes, req: Request)
    requires ParseRequest(s) == Complete(req)
    ensures req.headerBytes <= |s| && TakeMessage(s) == OfHead(s, req)
  {
    HeadInside(s, req);
  }

  lemma OfHeadBehind(out: bytes, after: bytes, seen: Request)
    requires seen.headerBytes == |out| && !seen.chunked
    ensures OfHead(out + after, seen) ==
            if |after| < seen.contentLength then Waiting
            else Message(seen, after[..seen.contentLength], after[seen.contentLength..])
  {
    if |after| >= seen.contentLength {
      BehindHead(out, after, seen.contentLength, |out| + seen.contentLength);
    }
  }

  lemma BehindHead(out: bytes, after: bytes, n: nat, end: nat)
    requires n <= |after| && end == |out| + n
    ensures (out + after)[|out|..end] == after[..n] && (out + after)[end..] == after[n..]
  {
  }

  lemma TakesBodyIff(out: bytes, seen: Request, body: bytes, rest: bytes)
    requires ParseRequest(out) == Complete(seen) && seen.headerBytes == |out| && !seen.chunked
    ensures TakeMessage(out + body + rest) == Message(seen, body, rest) <==> |body| == seen.contentLength
  {
    Assoc(out, body, rest);
    NextHopTakes(out, seen, body + rest);
    if |body| == seen.contentLength {
      assert (body + rest)[..|body|] == body && (body + rest)[|body|..] == rest;
    }
  }

  /**
   For any request that is read back, wherever it came from: the next hop takes exactly the body sent behind it if and only if that
   has the length the next hop reads.
   */
  lemma BoundaryKeptIff(req: Request, host: bytes, seen: Request, body: bytes, rest: bytes)
    requires ReadBack(req, host, seen)
    ensures TakeMessage(RequestText(req, host) + body + rest) == Message(seen, body, rest) <==> |body| == seen.contentLength
  {
    ReadBackWhole(req, host, seen);
    TakesBodyIff(RequestText(req, host), seen, body, rest);
  }

  /** In particular with the request's own length for the body: if and only if no Content-Length that goes out says otherwise. */
  lemma OwnLengthKeptIff(req: Request, host: bytes, seen: Request, body: bytes, rest: bytes)
    requires ReadBack(req, host, seen) && req.contentLength == |body| < UINT64
    ensures TakeMessage(RequestText(req, host) + body + rest) == Message(seen, body, rest) <==>
            forall h | h in Survivors(req.headers) && IsLength(h) :: Number(10, h.value) == Some(|body|)
  {
    BoundaryKeptIff(req, host, seen, body, rest);
    LengthReadBackIff(req, host, seen);
  }

  /** A message taken off one connection and forwarded is taken off the next one with the same body, whatever follows. */
  lemma FramingSurvives(s: bytes, req: Request, body: bytes, before: bytes, host: bytes, out: bytes, rest: bytes)
    requires TakeMessage(s) == Message(req, body, before)
    ensures Forwards(req, host, out) ==> TakeMessage(out + body + rest) == Message(Relayed(req, host, |out|), body, rest)
  {
    TakenLength(s, req, body, before);
    if Forwards(req, host, out) {
      TakesBodyIff(out, Relayed(req, host, |out|), body, rest);
    }
  }

  lemma TakenLength(s: bytes, req: Request, body: bytes, rest: bytes)
    requires TakeMessage(s) == Message(req, body, rest)
    ensures ParseRequest(s) == Complete(req) && !req.chunked && |body| == req.contentLength
  {
  }

  /** Of a chunked request the next hop takes no body: all of it becomes the start of the next message. */
  lemma ChunkedBodyLeft(s: bytes, req: Request, host: bytes, out: bytes, body: bytes, rest: bytes)
    requires ParseRequest(s) == Complete(req) && req.chunked
    ensures Forwards(req, host, out) ==> TakeMessage(out + body + rest) == Message(Relayed(req, host, |out|), [], body + rest)
  {
    ChunkedHasNoLength(s, req);
    if Forwards(req, host, out) {
      NoLengthTakesNothing(req, host, out, body + rest);
      assert out + body + rest == out + (body + rest);
    }
  }

  lemma ChunkedHasNoLength(s: bytes, req: Request)
    requires ParseRequest(s) == Complete(req) && req.chunked
    ensures req.contentLength == 0
  {
    var _ := CompleteMeans(s, req);
  }

  lemma NoLengthTakesNothing(req: Request, host: bytes, out: bytes, after: bytes)
    requires Forwards(req, host, out) && req.contentLength == 0
    ensures TakeMessage(out + after) == Message(Relayed(req, host, |out|), [], after)
  {
    NextHopTakes(out, Relayed(req, host, |out|), after);
    assert after[..0] == [] && after[0..] == after;
  }

  const POST: bytes := Ascii("POST")
  const ROOT: bytes := Ascii("/")
  const HELLO: bytes := Unlines([Ascii("5"), Ascii("hello"), Ascii("0")]) + CRLF

  /** POST / HTTP/1.1 with the one header transfer-encoding: chunked. */
  const CHUNKED_POST := Request(POST, ROOT, HTTP_1_1, [Header(TRANSFER_ENCODING, CHUNKED)], true, 0, true, 47)

  ghost function ChunkedHead(): bytes {
    Unlines([StartText(CHUNKED_POST), HeaderText(CHUNKED_POST.headers[0])]) + CRLF
  }

  lemma PostIsStart(st: Start)
    requires st == Start(POST, ROOT, HTTP_1_1)
    ensures ValidStart(st) && SP !in st.target && LF !in st.target
  {
  }

  lemma LowerOfLower(s: bytes)
    requires forall i | 0 <= i < |s| :: !(65 <= s[i] <= 90)
    ensures Lower(s) == s
  {
  }

  lemma ContainsItself(s: bytes)
    ensures Contains(s, s)
  {
    assert s[0..|s|] == s;
  }

  lemma ChunkedField(h: Header)
    requires h == Header(TRANSFER_ENCODING, CHUNKED)
    ensures Good(h) && IsChunked(h) && !IsLength(h) && !IsClose(h) && IsDropped(h)
  {
    LowerOfLower(TRANSFER_ENCODING);
    LowerOfLower(CHUNKED);
    ContainsItself(CHUNKED);
    ChunkedGood(h);
  }

  lemma ChunkedGood(h: Header)
    requires h == Header(TRANSFER_ENCODING, CHUNKED)
    ensures Good(h)
  {
    TransferIsToken();
    ChunkedIsValue();
  }

  lemma TransferIsToken()
    ensures AllToken(TRANSFER_ENCODING)
  {
    LettersAreToken("transfer-encoding");
  }

  lemma LettersAreToken(s: string)
    requires forall i | 0 <= i < |s| :: 'a' <= s[i] <= 'z' || s[i] == '-'
    ensures AllToken(Ascii(s))
  {
  }

  lemma ChunkedIsValue()
    ensures ValidValue(CHUNKED) && Trimmed(CHUNKED)
  {
  }

  lemma ChunkedAgrees()
    ensures Agrees(CHUNKED_POST)
  {
    var h := CHUNKED_POST.headers[0];
    ChunkedField(h);
    assert CHUNKED_POST.headers == [h];
  }

  lemma ChunkedLines(lines: seq<bytes>)
    requires lines == [StartText(CHUNKED_POST), HeaderText(CHUNKED_POST.headers[0])]
    ensures IsHead(lines, CHUNKED_POST) && |Unlines(lines)| == 45
  {
    var st, h := Start(POST, ROOT, HTTP_1_1), CHUNKED_POST.headers[0];
    PostIsStart(st);
    StartTextPlain(CHUNKED_POST, st);
    StartLineMeans(lines[0], st);
    ChunkedField(h);
    GoodText(h);
    HeaderLineMeans(lines[1], h);
    TwoLines(lines);
  }

  lemma TwoLines(lines: seq<bytes>)
    requires |lines| == 2
    ensures Unlines(lines) == lines[0] + CRLF + (lines[1] + CRLF)
  {
    var tail := [lines[1]];
    assert lines[1..] == tail && tail[1..] == [];
    assert Unlines(tail) == lines[1] + CRLF + [];
    assert Unlines(tail) == lines[1] + CRLF;
  }

  /** That head is parsed as that request. */
  lemma ChunkedParsed()
    ensures ParseRequest(ChunkedHead()) == Complete(CHUNKED_POST)
  {
    var lines := [StartText(CHUNKED_POST), HeaderText(CHUNKED_POST.headers[0])];
    ChunkedLines(lines);
    ChunkedAgrees();
    DenotedIsParsed(lines, ChunkedHead(), CHUNKED_POST);
  }

  /** What is written for it is short enough for any host. */
  lemma ChunkedForwards(host: bytes) returns (out: bytes)
    requires GoodHost(host)
    ensures Forwards(CHUNKED_POST, host, out)
  {
    ChunkedParsed();
    ForwardsWithin(ChunkedHead(), CHUNKED_POST, host);
    out := WrittenRequest(CHUNKED_POST, host).value;
    ChunkedField(CHUNKED_POST.headers[0]);
    SurvivorGone(CHUNKED_POST.headers);
    assert CHUNKED_POST.headers[1..] == [];
    assert Expected(CHUNKED_POST, host) == [Header(HOST, host), Header(VIA, VIA_VALUE)];
    ChunkedAgrees();
    ForwardedIs(CHUNKED_POST, host);
    var texts := HeaderTexts([Header(HOST, host), Header(VIA, VIA_VALUE)]);
    ThreeLines(StartText(CHUNKED_POST), texts[0], texts[1]);
    assert [StartText(CHUNKED_POST)] + texts == [StartText(CHUNKED_POST), texts[0], texts[1]];
  }

  lemma ThreeLines(a: bytes, b: bytes, c: bytes)
    ensures |Unlines([a, b, c])| == |a| + |b| + |c| + 6
  {
    assert [a, b, c][1..] == [b, c];
    TwoLines([b, c]);
  }

  lemma HelloIsNoHead()
    ensures ParseRequest(HELLO) == Error
  {
    var lines := [Ascii("5"), Ascii("hello"), Ascii("0")];
    ThreeLines(lines[0], lines[1], lines[2]);
    assert Plain(lines) && NonEmpty(lines);
    ParseOfLines(lines, HELLO);
    FindByteNone(lines[0], SP);
    assert SP !in lines[0];
  }

  lemma ChunkedUnsupported()
    ensures TakeMessage(ChunkedHead() + HELLO) == Unsupported(HELLO)
  {
    var head := ChunkedHead();
    ChunkedParsed();
    ChunkedLines([StartText(CHUNKED_POST), HeaderText(CHUNKED_POST.headers[0])]);
    CompleteIsStable(head, HELLO);
    Rest(head, HELLO, 47);
  }

  lemma Rest(head: bytes, rest: bytes, n: nat)
    requires n == |head|
    ensures (head + rest)[n..] == rest
  {
  }

  /**
   A chunked request whose framing is lost: the next hop takes the forwarded head as a whole message without a body, and then
   cannot make sense of the first chunk, which it takes for the next request.
   */
  lemma ChunkedFramingLost(host: bytes) returns (out: bytes)
    requires GoodHost(host)
    ensures TakeMessage(ChunkedHead() + HELLO) == Unsupported(HELLO)
    ensures WrittenRequest(CHUNKED_POST, host) == Some(out)
    ensures TakeMessage(out + HELLO) == Message(Relayed(CHUNKED_POST, host, |out|), [], HELLO)
    ensures TakeMessage(HELLO) == Malformed
  {
    ChunkedUnsupported();
    out := ChunkedForwards(host);
    NoLengthTakesNothing(CHUNKED_POST, host, out, HELLO);
    HelloIsNoHead();
  }
}
