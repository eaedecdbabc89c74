/**
 Requests that arrive on HTTP/2 streams and are sent on as HTTP/1.1 (src/proxy.cpp): how the header list becomes a request, and when
 the next hop takes exactly the body that came with it.
 */
module H2Requests {
  import opened Bytes
  import opened Http1Text
  import opened Http1
  import opened Http1Framing
  import opened Http1Forwarding
  import opened Http1Messages
  import HpackTable

  const METHOD: bytes := Ascii(":method")
  const PATH: bytes := Ascii(":path")
  const AUTHORITY: bytes := Ascii(":authority")

  /** The value of the last header of that name, empty without one. */
  function LastValue(headers: seq<HpackTable.Header>, name: bytes): bytes {
    if headers == [] then []
    else
      var last := headers[|headers| - 1];
      if last.name == name then last.value else LastValue(headers[..|headers| - 1], name)
  }

  predicate IsField(h: HpackTable.Header) {
    h.name != [] && h.name[0] != COLON
  }

  /** The headers that are not pseudo-headers, in order. */
  function Fields(headers: seq<HpackTable.Header>): seq<Header> {
    if headers == [] then []
    else
      var last := headers[|headers| - 1];
      Fields(headers[..|headers| - 1]) + if IsField(last) then [Header(last.name, last.value)] else []
  }

  function Converted(headers: seq<HpackTable.Header>, body: bytes): Request {
    Request(LastValue(headers, METHOD), LastValue(headers, PATH), HTTP_1_1, Fields(headers), true, |body|, false, 0)
  }

  /** The loop over a ready stream's headers; the authority is read and not used. */
  method Convert(headers: seq<HpackTable.Header>, body: bytes) returns (req: Request)
    ensures req == Converted(headers, body)
  {
    var verb: bytes, path: bytes, authority: bytes, fields: seq<Header> := [], [], [], [];
    PseudoNames();
    for i := 0 to |headers|
      invariant verb == LastValue(headers[..i], METHOD) && path == LastValue(headers[..i], PATH)
      invariant authority == LastValue(headers[..i], AUTHORITY)
      invariant fields == Fields(headers[..i])
    {
      var h := headers[i];
      assert headers[..i + 1][..i] == headers[..i];
      if h.name == METHOD {
        verb := h.value;
      } else if h.name == PATH {
        path := h.value;
      } else if h.name == AUTHORITY {
        authority := h.value;
      } else if h.name != [] && h.name[0] != COLON {
        fields := fields + [Header(h.name, h.value)];
      }
    }
    assert headers[..|headers|] == headers;
    return Request(verb, path, HTTP_1_1, fields, true, |body|, false, 0);
  }

  lemma PseudoNames()
    ensures METHOD[0] == COLON && PATH[0] == COLON && AUTHORITY[0] == COLON
    ensures METHOD != PATH && METHOD != AUTHORITY && PATH != AUTHORITY
  {
    assert METHOD[1] == 109 && PATH[1] == 112 && AUTHORITY[1] == 97;
  }

  /** A repeated pseudo-header counts with its last value, a missing one as empty. */
  lemma {:induction false} LastValueIs(headers: seq<HpackTable.Header>, name: bytes, i: nat)
    requires i < |headers| && headers[i].name == name && forall j | i < j < |headers| :: headers[j].name != name
    ensures LastValue(headers, name) == headers[i].value
    decreases |headers|
  {
    if i < |headers| - 1 {
      LastValueIs(headers[..|headers| - 1], name, i);
    }
  }

  lemma {:induction false} MissingValue(headers: seq<HpackTable.Header>, name: bytes)
    requires forall j | 0 <= j < |headers| :: headers[j].name != name
    ensures LastValue(headers, name) == []
    decreases |headers|
  {
    if headers != [] {
      MissingValue(headers[..|headers| - 1], name);
    }
  }

  /** Every header field is kept, and nothing else. */
  lemma {:induction false} FieldsAre(headers: seq<HpackTable.Header>, f: Header)
    ensures f in Fields(headers) <==> exists i | 0 <= i < |headers| :: IsField(headers[i]) && f == Header(headers[i].name, headers[i].value)
    decreases |headers|
  {
    if headers != [] {
      var n := |headers| - 1;
      var front := headers[..n];
      FieldsAre(front, f);
      if i :| 0 <= i < |headers| && IsField(headers[i]) && f == Header(headers[i].name, headers[i].value) {
        if i < n {
          assert front[i] == headers[i];
        }
      }
      if i :| 0 <= i < n && IsField(front[i]) && f == Header(front[i].name, front[i].value) {
        assert headers[i] == front[i];
      }
    }
  }

  /** How many of the first n headers are fields: names that are not empty and do not start with a colon. */
  function FieldCount(headers: seq<HpackTable.Header>, n: nat): nat
    requires n <= |headers|
  {
    if n == 0 then 0
    else
      var name := headers[n - 1].name;
      FieldCount(headers, n - 1) + if name != [] && name[0] != 58 then 1 else 0
  }

  lemma {:induction false} FieldsUpTo(headers: seq<HpackTable.Header>, n: nat, i: nat)
    requires n <= |headers| && (i < n ==> IsField(headers[i]))
    ensures |Fields(headers[..n])| == FieldCount(headers, n)
    ensures i < n ==> FieldCount(headers, i) < FieldCount(headers, n) &&
                      Fields(headers[..n])[FieldCount(headers, i)] == Header(headers[i].name, headers[i].value)
    decreases n
  {
    if n > 0 {
      var m := n - 1;
      assert headers[..n][..m] == headers[..m] && headers[..n][m] == headers[m];
      FieldsUpTo(headers, m, if i < m then i else m);
    }
  }

  /** The header that is the k-th field becomes the k-th header, with its name and value, and there are no more. */
  lemma FieldsInOrder(headers: seq<HpackTable.Header>, body: bytes, i: nat)
    requires i < |headers| && headers[i].name != [] && headers[i].name[0] != 58
    ensures var hs := Converted(headers, body).headers;
            && |hs| == FieldCount(headers, |headers|) && FieldCount(headers, i) < |hs|
            && hs[FieldCount(headers, i)] == Header(headers[i].name, headers[i].value)
  {
    FieldsUpTo(headers, |headers|, i);
    assert headers[..|headers|] == headers;
  }

  /** The request goes out, is read back as it was meant, and its body is exactly what is taken behind it. */
  ghost predicate Arrives(req: Request, host: bytes, seen: Request, body: bytes, rest: bytes) {
    && WrittenRequest(req, host) == Some(RequestText(req, host)) && ReadBack(req, host, seen)
    && TakeMessage(RequestText(req, host) + body + rest) == Message(seen, body, rest)
  }

  /** Every Content-Length among the peer's headers is the length of the body it sent. */
  ghost predicate LengthsTrue(headers: seq<HpackTable.Header>, body: bytes) {
    forall f | f in Fields(headers) && IsLength(f) :: Number(10, f.value) == Some(|body|)
  }

  lemma LengthsSurvive(hs: seq<Header>, f: Header)
    requires IsLength(f)
    ensures f in Survivors(hs) <==> f in hs
  {
    SurvivorsAre(hs);
    NamesKept(f);
  }

  /**
   For any stream, whatever headers and body the peer sent on it: the next hop takes the request line, the headers meant for it and
   exactly the body if and only if the request is fit to be read back and every Content-Length the peer sent is true.
   */
  lemma StreamArrivesIff(headers: seq<HpackTable.Header>, body: bytes, host: bytes, rest: bytes)
    requires |body| < UINT64
    ensures (exists seen :: Arrives(Converted(headers, body), host, seen, body, rest)) <==>
            Faithful(Converted(headers, body), host) && LengthsTrue(headers, body)
  {
    var req := Converted(headers, body);
    if seen :| Arrives(req, host, seen, body, rest) {
      ReadBackIsFaithful(req, host, seen);
      StreamBoundaryIff(headers, body, host, seen, rest);
    }
    if Faithful(req, host) && LengthsTrue(headers, body) {
      var seen := FaithfulReadsBack(req, host);
      FaithfulIsWritten(req, host);
      StreamBoundaryIff(headers, body, host, seen, rest);
      assert Arrives(req, host, seen, body, rest);
    }
  }

  lemma StreamBoundaryIff(headers: seq<HpackTable.Header>, body: bytes, host: bytes, seen: Request, rest: bytes)
    requires |body| < UINT64 && ReadBack(Converted(headers, body), host, seen)
    ensures TakeMessage(RequestText(Converted(headers, body), host) + body + rest) == Message(seen, body, rest) <==>
            LengthsTrue(headers, body)
  {
    OwnLengthKeptIff(Converted(headers, body), host, seen, body, rest);
    forall f | IsLength(f)
      ensures f in Survivors(Fields(headers)) <==> f in Fields(headers)
    {
      LengthsSurvive(Fields(headers), f);
    }
  }

  /** What happens otherwise: the next hop believes the peer's length, and cuts the bytes behind the head there. */
  lemma LengthBelieved(headers: seq<HpackTable.Header>, body: bytes, host: bytes, seen: Request, rest: bytes, f: Header)
    requires ReadBack(Converted(headers, body), host, seen) && f in Fields(headers) && IsLength(f)
    ensures Number(10, f.value) == Some(seen.contentLength)
    ensures var n, after := seen.contentLength, body + rest;
            TakeMessage(RequestText(Converted(headers, body), host) + body + rest) ==
            if |after| < n then Waiting else Message(seen, after[..n], after[n..])
  {
    var req := Converted(headers, body);
    var out := RequestText(req, host);
    var _ := CompleteMeans(out, seen);
    LengthsSurvive(Fields(headers), f);
    KeptGoesOut(req, host);
    ReadBackWhole(req, host, seen);
    Assoc(out, body, rest);
    NextHopTakes(out, seen, body + rest);
  }

  /** A POST on a stream with content-length: 0. */
  ghost function ZeroLength(): seq<HpackTable.Header> {
    [HpackTable.Header(METHOD, POST, false), HpackTable.Header(PATH, ROOT, false),
     HpackTable.Header(CONTENT_LENGTH, Ascii("0"), false)]
  }

  lemma ZeroConverted(body: bytes)
    ensures Converted(ZeroLength(), body) ==
            Request(POST, ROOT, HTTP_1_1, [Header(CONTENT_LENGTH, Ascii("0"))], true, |body|, false, 0)
  {
    var hs := ZeroLength();
    PseudoNames();
    LastValueIs(hs, METHOD, 0);
    LastValueIs(hs, PATH, 1);
    assert hs[..2][..1] == hs[..1] && hs[..1][..0] == [];
    assert Fields(hs[..1]) == [];
    assert Fields(hs[..2]) == [];
  }

  lemma ZeroIsGood(f: Header)
    requires f == Header(CONTENT_LENGTH, Ascii("0"))
    ensures Good(f) && IsLength(f) && !IsDropped(f) && Number(10, f.value) == Some(0)
  {
    LowerOfLower(CONTENT_LENGTH);
    LettersAreToken("content-length");
    NamesKept(f);
  }

  /** A length the peer gets wrong: no body is taken, and all of it, whatever it is, is left in front of the next message. */
  lemma BodyLeftBehind(body: bytes, host: bytes, rest: bytes) returns (seen: Request)
    requires GoodHost(host)
    ensures ReadBack(Converted(ZeroLength(), body), host, seen)
    ensures TakeMessage(RequestText(Converted(ZeroLength(), body), host) + body + rest) == Message(seen, [], body + rest)
  {
    ZeroConverted(body);
    var req, f := Converted(ZeroLength(), body), Header(CONTENT_LENGTH, Ascii("0"));
    ZeroFaithful(req, host, f);
    seen := FaithfulReadsBack(req, host);
    ZeroIsGood(f);
    LengthBelieved(ZeroLength(), body, host, seen, rest, f);
    assert (body + rest)[..0] == [] && (body + rest)[0..] == body + rest;
  }

  lemma ZeroFaithful(req: Request, host: bytes, f: Header)
    requires GoodHost(host) && f == Header(CONTENT_LENGTH, Ascii("0"))
    requires req.verb == POST && req.target == ROOT && req.version == HTTP_1_1 && req.headers == [f]
    ensures Faithful(req, host)
  {
    PostIsStart(Start(POST, ROOT, HTTP_1_1));
    HostIsPlain(host);
    ViaIsPlain();
    ZeroIsGood(f);
    ZeroForwarded(req, host, f);
    ZeroFits(req, host, f);
  }

  lemma ZeroForwarded(req: Request, host: bytes, f: Header)
    requires req.headers == [f] && IsLength(f) && !IsDropped(f)
    ensures Forwarded(req, host) == [Header(HOST, host), f, Header(VIA, VIA_VALUE)]
  {
    SurvivorKept(req.headers);
    assert req.headers[1..] == [];
    assert Survivors(req.headers) == [f];
    assert AnyLength([f]) by {
      assert IsLength([f][0]);
    }
  }

  lemma ZeroFits(req: Request, host: bytes, f: Header)
    requires GoodHost(host) && req.verb == POST && req.target == ROOT && req.version == HTTP_1_1
    requires |f.name| <= 100 && |f.value| <= 100 && Forwarded(req, host) == [Header(HOST, host), f, Header(VIA, VIA_VALUE)]
    ensures |RequestText(req, host)| <= MAX_HEAD
  {
    var texts := HeaderTexts(Forwarded(req, host));
    FourLines(StartText(req), texts[0], texts[1], texts[2]);
    assert [StartText(req)] + texts == [StartText(req), texts[0], texts[1], texts[2]];
  }

  lemma FourLines(a: bytes, b: bytes, c: bytes, d: bytes)
    ensures |Unlines([a, b, c, d])| == |a| + |b| + |c| + |d| + 8
  {
    assert [a, b, c, d][1..] == [b, c, d];
    ThreeLines(b, c, d);
  }
}
