/** What the proxy sends on for a request it parsed, read back by the same parser; and chunk headers written and read back. */
module Http1Forwarding {
  import opened Bytes
  import opened Http1Text
  import opened Http1
  import opened Http1Framing

  /** What a header must be for its line to be read back. */
  ghost predicate Good(h: Header) {
    ValidHeader(h) && Trimmed(h.value)
  }

  lemma GoodText(h: Header)
    requires Good(h)
    ensures HeaderLine(HeaderText(h)) == Some(h) && HeaderText(h) != [] && LF !in HeaderText(h)
  {
    var line := HeaderText(h);
    assert line == h.name + [COLON] + ([SP] + h.value + []);
    SpelledIsHeader(line, h, [SP], []);
    TokenExcludes(h.name);
    ValueExcludes(h.value);
  }

  lemma {:induction false} GoodTexts(hs: seq<Header>)
    requires forall h | h in hs :: Good(h)
    ensures HeaderLines(HeaderTexts(hs)) == Some(hs) && Plain(HeaderTexts(hs)) && NonEmpty(HeaderTexts(hs))
  {
    forall i | 0 <= i < |hs|
      ensures HeaderLine(HeaderTexts(hs)[i]) == Some(hs[i]) && HeaderTexts(hs)[i] != [] && LF !in HeaderTexts(hs)[i]
    {
      GoodText(hs[i]);
    }
    LinesGive(HeaderTexts(hs), hs);
  }

  lemma NamesKept(h: Header)
    ensures IsLength(h) ==> !IsDropped(h)
    ensures IsChunked(h) || IsClose(h) ==> IsDropped(h)
  {
  }

  /** Taking the survivors in place of all headers finds the same length, and nothing chunked or closing. */
  lemma {:induction false} SurvivorsTake(a: Acc, hs: seq<Header>, b: Acc, c: Acc)
    requires TakeAll(a, hs) == Some(b) && c.length == a.length && !c.chunked && |c.headers| <= MAX_HEADERS
    ensures TakeAll(c, Survivors(hs)) ==
            if |c.headers| + |Survivors(hs)| <= MAX_HEADERS
            then Some(Acc(c.headers + Survivors(hs), b.length, false, c.keepAlive))
            else None
    decreases |hs|
  {
    if hs == [] {
      assert c.headers + [] == c.headers;
    } else {
      var h, tail := hs[0], hs[1..];
      var a' := Take(a, h).value;
      NamesKept(h);
      if IsDropped(h) {
        SurvivorGone(hs);
        SurvivorsTake(a', tail, b, c);
      } else {
        SurvivorKept(hs);
        if |c.headers| < MAX_HEADERS {
          var c' := Acc(c.headers + [h], a'.length, false, c.keepAlive);
          assert Take(c, h) == Some(c');
          SurvivorsTake(a', tail, b, c');
          Assoc(c.headers, [h], Survivors(tail));
        }
      }
    }
  }

  lemma SurvivorGone(hs: seq<Header>)
    requires hs != [] && IsDropped(hs[0])
    ensures Survivors(hs) == Survivors(hs[1..])
  {
  }

  lemma SurvivorKept(hs: seq<Header>)
    requires hs != [] && !IsDropped(hs[0])
    ensures Survivors(hs) != [] && Survivors(hs)[0] == hs[0] && Survivors(hs)[1..] == Survivors(hs[1..])
    ensures Survivors(hs) == [hs[0]] + Survivors(hs[1..])
  {
  }

  lemma {:induction false} TakeConcat(a: Acc, xs: seq<Header>, ys: seq<Header>)
    ensures TakeAll(a, xs + ys) == if TakeAll(a, xs).None? then None else TakeAll(TakeAll(a, xs).value, ys)
    decreases |xs|
  {
    if xs == [] {
      assert xs + ys == ys;
    } else {
      assert (xs + ys)[1..] == xs[1..] + ys;
      if Take(a, xs[0]).Some? {
        TakeConcat(Take(a, xs[0]).value, xs[1..], ys);
      }
    }
  }

  lemma TakeOne(a: Acc, h: Header)
    requires !IsLength(h) && !IsChunked(h) && !IsClose(h)
    ensures TakeAll(a, [h]) == if |a.headers| < MAX_HEADERS then Some(a.(headers := a.headers + [h])) else None
  {
    assert [h][1..] == [];
  }

  lemma {:induction false} SurvivorsAre(hs: seq<Header>)
    ensures forall h | h in Survivors(hs) :: h in hs && !IsDropped(h)
    ensures AnyLength(Survivors(hs)) <==> AnyLength(hs)
    decreases |hs|
  {
    if hs != [] {
      SurvivorsAre(hs[1..]);
      NamesKept(hs[0]);
      FlagsStep(hs);
      if IsDropped(hs[0]) {
        SurvivorGone(hs);
      } else {
        SurvivorKept(hs);
        FlagsStep(Survivors(hs));
      }
    }
  }

  ghost predicate GoodHost(host: bytes) {
    |host| <= MAX_VALUE && ValidValue(host) && Trimmed(host)
  }

  lemma HostIsPlain(host: bytes)
    requires GoodHost(host)
    ensures
      var h := Header(HOST, host);
      Good(h) && !IsLength(h) && !IsChunked(h) && !IsClose(h)
  {
  }

  lemma ViaIsPlain()
    ensures
      var h := Header(VIA, VIA_VALUE);
      Good(h) && !IsLength(h) && !IsChunked(h) && !IsClose(h)
  {
  }

  /** Host first, the surviving headers in order, Via last. */
  ghost function Expected(req: Request, host: bytes): seq<Header> {
    [Header(HOST, host)] + Survivors(req.headers) + [Header(VIA, VIA_VALUE)]
  }

  /** A parsed request never needs a Content-Length of its own making. */
  lemma ForwardedIs(req: Request, host: bytes)
    requires Agrees(req)
    ensures Forwarded(req, host) == Expected(req, host)
  {
    SurvivorsAre(req.headers);
  }

  lemma ExpectedTake(req: Request, host: bytes, a: Acc)
    requires GoodHost(host) && TakeAll(NoHeaders(req.version), req.headers) == Some(a)
    ensures
      var hs := Expected(req, host);
      TakeAll(NoHeaders(req.version), hs) ==
      if |hs| <= MAX_HEADERS then Some(Acc(hs, a.length, false, req.version == HTTP_1_1)) else None
  {
    var a0, first, kept, last := NoHeaders(req.version), [Header(HOST, host)], Survivors(req.headers), [Header(VIA, VIA_VALUE)];
    HostIsPlain(host);
    ViaIsPlain();
    TakeOne(a0, first[0]);
    var a1 := a0.(headers := a0.headers + first);
    assert a1.headers == first;
    TakeConcat(a0, first, kept);
    SurvivorsTake(a0, req.headers, a, a1);
    TakeConcat(a0, first + kept, last);
    if 1 + |kept| <= MAX_HEADERS {
      TakeOne(Acc(first + kept, a.length, false, a0.keepAlive), last[0]);
    }
  }

  lemma StartTextPlain(req: Request, st: Start)
    requires st == Start(req.verb, req.target, req.version) && ValidStart(st) && SP !in st.target && LF !in st.target
    ensures StartLine(StartText(req)) == Some(st) && StartText(req) != [] && LF !in StartText(req)
  {
    var line := StartText(req);
    StartParts(st.verb, st.target, st.version);
    SpelledIsStart(line, st);
    TokenExcludes(st.verb);
    VersionPlain(st);
  }

  lemma VersionPlain(st: Start)
    requires ValidStart(st)
    ensures LF !in st.version
  {
  }

  lemma StartParts(a: bytes, b: bytes, c: bytes)
    ensures a + [SP] + b + [SP] + c == a + [SP] + (b + [SP] + c)
    ensures LF !in a && LF !in b && LF !in c ==> LF !in a + [SP] + b + [SP] + c
  {
  }

  lemma ExpectedGood(req: Request, host: bytes)
    requires WellFormed(req) && GoodHost(host)
    ensures forall h | h in Expected(req, host) :: Good(h)
    ensures AllValid(Survivors(req.headers))
  {
    HostIsPlain(host);
    ViaIsPlain();
    SurvivorsAre(req.headers);
    forall i | 0 <= i < |Survivors(req.headers)|
      ensures ValidValue(Survivors(req.headers)[i].value)
    {
      assert Survivors(req.headers)[i] in req.headers;
    }
  }

  /** The request the next hop sees. */
  ghost function Relayed(req: Request, host: bytes, size: nat): Request {
    Request(req.verb, req.target, req.version, Expected(req, host), req.version == HTTP_1_1, req.contentLength, false, size)
  }

  lemma RelayedLines(req: Request, host: bytes, lines: seq<bytes>, size: nat)
    requires WellFormed(req) && Agrees(req) && GoodHost(host)
    requires lines == [StartText(req)] + HeaderTexts(Expected(req, host))
    ensures Plain(lines) && NonEmpty(lines)
    ensures ParseLines(lines, size) ==
            if |Expected(req, host)| <= MAX_HEADERS then Complete(Relayed(req, host, size)) else Error
  {
    var hs := Expected(req, host);
    var texts := HeaderTexts(hs);
    ExpectedGood(req, host);
    GoodTexts(hs);
    var st := Start(req.verb, req.target, req.version);
    StartTextPlain(req, st);
    OneMoreLine(StartText(req), texts, lines);
    ExpectedParse(req, host, st);
  }

  lemma OneMoreLine(line: bytes, texts: seq<bytes>, lines: seq<bytes>)
    requires lines == [line] + texts && line != [] && LF !in line && Plain(texts) && NonEmpty(texts)
    ensures Plain(lines) && NonEmpty(lines) && lines[0] == line && lines[1..] == texts
  {
  }

  lemma ExpectedParse(req: Request, host: bytes, st: Start)
    requires WellFormed(req) && GoodHost(host) && st == Start(req.verb, req.target, req.version)
    ensures
      var hs := Expected(req, host);
      var a := TakeAll(NoHeaders(st.version), hs);
      if |hs| <= MAX_HEADERS
      then a.Some? && !a.value.chunked && forall size :: Parsed(st, a.value, size) == Relayed(req, host, size)
      else a.None?
  {
    var a :| TakeAll(NoHeaders(req.version), req.headers) == Some(a)
             && req == Parsed(Start(req.verb, req.target, req.version), a, req.headerBytes);
    ExpectedTake(req, host, a);
  }

  /** A head over the size limit is refused however much of it is seen. */
  lemma TooLong(lines: seq<bytes>)
    requires lines != [] && Plain(lines) && NonEmpty(lines) && |Unlines(lines)| + 2 > MAX_HEAD
    ensures ParseRequest(Unlines(lines) + CRLF) == Error
  {
    var s := Unlines(lines) + CRLF;
    BlankAfterLines(lines);
    FindFirst(s, BLANK_LINE, 0);
    if |s| > MAX_HEAD + 1 {
      var w, rest := s[..MAX_HEAD + 1], s[MAX_HEAD + 1..];
      assert s == w + rest;
      FindFirst(w, BLANK_LINE, 0);
      if Find(w, BLANK_LINE, 0) >= 0 {
        FindStable(w, rest, BLANK_LINE);
      }
    } else {
      assert Window(s) == s;
    }
  }

  /**
   The forwarding round trip. For every request that was parsed and every host that is a header value, write_request succeeds;
   what it writes parses, within the limits on size and number of headers and only there, as the same request line and length
   with Host, the surviving headers in order, and Via.
   */
  lemma ForwardingRoundTrip(s: bytes, req: Request, host: bytes)
    requires ParseRequest(s) == Complete(req) && GoodHost(host)
    ensures WrittenRequest(req, host).Some?
    ensures
      var out := WrittenRequest(req, host).value;
      ParseRequest(out) ==
      if |out| <= MAX_HEAD && |Expected(req, host)| <= MAX_HEADERS then Complete(Relayed(req, host, |out|)) else Error
  {
    var _ := CompleteMeans(s, req);
    ExpectedGood(req, host);
    ForwardedIs(req, host);
    var lines := [StartText(req)] + HeaderTexts(Expected(req, host));
    var out := Unlines(lines) + CRLF;
    assert WrittenRequest(req, host) == Some(out);
    RelayedLines(req, host, lines, |out|);
    ParseOfOutput(lines, out);
  }

  lemma ParseOfOutput(lines: seq<bytes>, out: bytes)
    requires lines != [] && Plain(lines) && NonEmpty(lines) && out == Unlines(lines) + CRLF
    ensures ParseRequest(out) == if |out| <= MAX_HEAD then ParseLines(lines, |out|) else Error
  {
    if |out| <= MAX_HEAD {
      ParseOfLines(lines, out);
    } else {
      TooLong(lines);
    }
  }

  ghost predicate LengthsAgree(hs: seq<Header>) {
    forall i, j | 0 <= i < |hs| && 0 <= j < |hs| && IsLength(hs[i]) && IsLength(hs[j]) ::
      Number(10, hs[i].value).Some? && Number(10, hs[i].value) == Number(10, hs[j].value)
  }

  /** A request, parsed or made up, whose written form says what it says. */
  ghost predicate Faithful(req: Request, host: bytes) {
    var hs := Forwarded(req, host);
    && ValidStart(Start(req.verb, req.target, req.version)) && SP !in req.target && LF !in req.target
    && (forall h | h in hs :: Good(h))
    && LengthsAgree(hs) && |hs| <= MAX_HEADERS && |RequestText(req, host)| <= MAX_HEAD
  }

  /** The next hop reads the request line and exactly the headers that were to be sent. */
  ghost predicate ReadBack(req: Request, host: bytes, seen: Request) {
    && ParseRequest(RequestText(req, host)) == Complete(seen)
    && seen.verb == req.verb && seen.target == req.target && seen.version == req.version
    && seen.headers == Forwarded(req, host)
  }

  lemma MadeLength(n: nat)
    ensures
      var h := Header(CONTENT_LENGTH_NAME, Printed(10, n));
      IsLength(h) && !IsChunked(h)
  {
    var name := Lower(CONTENT_LENGTH_NAME);
    assert |name| == |CONTENT_LENGTH|;
    assert name == CONTENT_LENGTH;
  }

  lemma ForwardedNotChunked(req: Request, host: bytes)
    ensures forall h | h in Forwarded(req, host) :: !IsChunked(h)
  {
    SurvivorsAre(req.headers);
    MadeLength(req.contentLength);
    NotChunkedNames(host);
    forall h | h in Forwarded(req, host)
      ensures !IsChunked(h)
    {
      NamesKept(h);
    }
  }

  lemma NotChunkedNames(host: bytes)
    ensures !IsChunked(Header(HOST, host)) && !IsChunked(Header(VIA, VIA_VALUE))
    ensures !IsLength(Header(HOST, host)) && !IsLength(Header(VIA, VIA_VALUE))
  {
  }

  lemma OutputLines(req: Request, host: bytes) returns (lines: seq<bytes>)
    requires ValidStart(Start(req.verb, req.target, req.version)) && SP !in req.target && LF !in req.target
    requires forall h | h in Forwarded(req, host) :: Good(h)
    ensures lines != [] && Plain(lines) && NonEmpty(lines) && RequestText(req, host) == Unlines(lines) + CRLF
    ensures StartLine(lines[0]) == Some(Start(req.verb, req.target, req.version))
    ensures HeaderLines(lines[1..]) == Some(Forwarded(req, host))
  {
    var hs := Forwarded(req, host);
    var texts := HeaderTexts(hs);
    lines := [StartText(req)] + texts;
    GoodTexts(hs);
    StartTextPlain(req, Start(req.verb, req.target, req.version));
    OneMoreLine(StartText(req), texts, lines);
  }

  lemma AgreeingNumber(hs: seq<Header>) returns (n: nat)
    requires LengthsAgree(hs)
    ensures forall i | 0 <= i < |hs| && IsLength(hs[i]) :: Number(10, hs[i].value) == Some(n)
  {
    n := 0;
    if AnyLength(hs) {
      var i :| 0 <= i < |hs| && IsLength(hs[i]);
      n := Number(10, hs[i].value).value;
    }
  }

  lemma FaithfulReadsBack(req: Request, host: bytes) returns (seen: Request)
    requires Faithful(req, host)
    ensures ReadBack(req, host, seen) && seen.headerBytes == |RequestText(req, host)| && !seen.chunked
  {
    var hs, out := Forwarded(req, host), RequestText(req, host);
    var lines := OutputLines(req, host);
    ParseOfOutput(lines, out);
    var a := ForwardedTaken(req, host, hs);
    seen := Parsed(Start(req.verb, req.target, req.version), a, |out|);
  }

  lemma ForwardedTaken(req: Request, host: bytes, hs: seq<Header>) returns (a: Acc)
    requires hs == Forwarded(req, host) && LengthsAgree(hs) && |hs| <= MAX_HEADERS
    ensures TakeAll(NoHeaders(req.version), hs) == Some(a) && a.headers == hs && !a.chunked
  {
    var n := AgreeingNumber(hs);
    AgreeingTaken(NoHeaders(req.version), hs, n);
    a := TakeAll(NoHeaders(req.version), hs).value;
    TakeAllSums(NoHeaders(req.version), hs, a);
    ForwardedNotChunked(req, host);
    assert [] + hs == hs;
  }

  lemma ReadBackIsFaithful(req: Request, host: bytes, seen: Request)
    requires ReadBack(req, host, seen)
    ensures Faithful(req, host)
  {
    var hs, out := Forwarded(req, host), RequestText(req, host);
    var _ := CompleteMeans(out, seen);
    forall i | 0 <= i < |hs| && IsLength(hs[i])
      ensures Number(10, hs[i].value) == Some(seen.contentLength)
    {
      assert hs[i] in seen.headers;
    }
    var lines := OutputLines(req, host);
    ParseOfOutput(lines, out);
  }

  /** A request that is read back takes up the whole output, and is never chunked. */
  lemma ReadBackWhole(req: Request, host: bytes, seen: Request)
    requires ReadBack(req, host, seen)
    ensures WrittenRequest(req, host) == Some(RequestText(req, host))
    ensures seen.headerBytes == |RequestText(req, host)| && !seen.chunked
  {
    ReadBackIsFaithful(req, host, seen);
    var same := FaithfulReadsBack(req, host);
    assert same == seen;
    FaithfulIsWritten(req, host);
  }

  lemma FaithfulIsWritten(req: Request, host: bytes)
    requires Faithful(req, host)
    ensures WrittenRequest(req, host) == Some(RequestText(req, host))
  {
    var kept := Survivors(req.headers);
    KeptGoesOut(req, host);
    forall i | 0 <= i < |kept|
      ensures Good(kept[i])
    {
      assert kept[i] in kept;
    }
  }

  /**
   For any request at all, also one put together from HTTP/2 headers that no parser checked: what write_request writes is read back
   as its request line and exactly the headers meant for it if and only if the request line is valid with no space or line feed in
   the target, every header going out is a good one, their lengths agree, and the limits are kept.
   */
  lemma ReadBackIff(req: Request, host: bytes)
    ensures (exists seen :: ReadBack(req, host, seen)) <==> Faithful(req, host)
  {
    if seen :| ReadBack(req, host, seen) {
      ReadBackIsFaithful(req, host, seen);
    }
    if Faithful(req, host) {
      var seen := FaithfulReadsBack(req, host);
      assert ReadBack(req, host, seen);
    }
  }

  /** The length read back is the request's exactly if no surviving Content-Length says otherwise; without one it is made up. */
  lemma LengthReadBackIff(req: Request, host: bytes, seen: Request)
    requires ReadBack(req, host, seen) && req.contentLength < UINT64
    ensures seen.contentLength == req.contentLength <==>
            forall h | h in Survivors(req.headers) && IsLength(h) :: Number(10, h.value) == Some(req.contentLength)
  {
    var _ := CompleteMeans(RequestText(req, host), seen);
    LengthSeenIff(req, host, seen);
  }

  lemma LengthSeenIff(req: Request, host: bytes, seen: Request)
    requires Agrees(seen) && seen.headers == Forwarded(req, host) && req.contentLength < UINT64
    ensures seen.contentLength == req.contentLength <==>
            forall h | h in Survivors(req.headers) && IsLength(h) :: Number(10, h.value) == Some(req.contentLength)
  {
    var kept := Survivors(req.headers);
    KeptGoesOut(req, host);
    if AnyLength(kept) {
      var i :| 0 <= i < |kept| && IsLength(kept[i]);
      assert kept[i] in kept;
    } else {
      OwnLength(req, host);
      MadeLength(req.contentLength);
      NumberOfPrinted(10, req.contentLength);
    }
  }

  lemma KeptGoesOut(req: Request, host: bytes)
    ensures forall h | h in Survivors(req.headers) :: h in Forwarded(req, host)
  {
  }

  lemma OwnLength(req: Request, host: bytes)
    requires !AnyLength(Survivors(req.headers))
    ensures forall h | h in Survivors(req.headers) :: !IsLength(h)
    ensures if req.contentLength > 0 then Header(CONTENT_LENGTH_NAME, Printed(10, req.contentLength)) in Forwarded(req, host)
            else !AnyLength(Forwarded(req, host))
  {
    NotChunkedNames(host);
    if req.contentLength == 0 {
      assert Forwarded(req, host) == [Header(HOST, host)] + Survivors(req.headers) + [Header(VIA, VIA_VALUE)];
    }
  }

  lemma HexExcludes(s: bytes)
    requires AllDigits(16, s)
    ensures LF !in s && SEMICOLON !in s
  {
  }

  lemma Power16Of16()
    ensures Power16(16) == UINT64
  {
    assert Power16(4) == 0x1_0000;
    assert Power16(8) == 0x1_0000_0000;
    assert Power16(12) == 0x1_0000_0000_0000;
  }

  /** A chunk header written for any size is read back with exactly its bytes consumed, if and only if the size fits int64. */
  lemma ChunkRoundTrip(n: nat, rest: bytes)
    requires n < UINT64
    ensures |ChunkText(n)| <= 18
    ensures ChunkHeader(ChunkText(n) + rest) == if n <= 0x7fff_ffff_ffff_ffff then Some((n, |ChunkText(n)|)) else None
  {
    var hex := Printed(16, n);
    Power16Of16();
    PrintedLength(n, UINT64, 16);
    NumberOfPrinted(16, n);
    HexExcludes(hex);
    var s := ChunkText(n) + rest;
    var k := if |s| <= 128 then |s| else 128;
    var more := s[..k][|hex| + 2..];
    assert s[..k] == hex + CRLF + more;
    FirstLine(hex, more);
    FindByteNone(hex, SEMICOLON);
  }
}
