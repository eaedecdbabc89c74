/**
 HTTP/1.1 request heads (src/http1.cpp; sections 3, 5 and 6 of RFC 9112): what a byte string parses to, and the bytes a request
 is forwarded as. The parser is stated on the lines of the head; Http1Codec has the loops that compute it.
 */
module Http1 {
  import opened Bytes
  import opened Http1Text

  const MAX_METHOD := 16
  const MAX_TARGET := 8192
  const MAX_NAME := 256
  const MAX_VALUE := 8192
  const MAX_HEADERS := 100
  const MAX_HEAD := 65536

  datatype Header = Header(name: bytes, value: bytes)

  datatype Request = Request(
    verb: bytes, target: bytes, version: bytes, headers: seq<Header>,
    keepAlive: bool, contentLength: nat, chunked: bool, headerBytes: nat)

  datatype Parse = Complete(req: Request) | Incomplete | Error

  /** Letters, digits and the other characters a token may hold. */
  predicate IsTokenChar(b: byte) {
    48 <= b <= 57 || 65 <= b <= 90 || 97 <= b <= 122 || b in {33, 35, 36, 37, 38, 39, 42, 43, 45, 46, 94, 95, 96, 124, 126}
  }

  predicate AllToken(s: bytes) {
    forall i | 0 <= i < |s| :: IsTokenChar(s[i])
  }

  function LowerByte(b: byte): byte {
    if 65 <= b <= 90 then b + 32 else b
  }

  function Lower(s: bytes): (r: bytes)
    ensures |r| == |s|
  {
    seq(|s|, i requires 0 <= i < |s| => LowerByte(s[i]))
  }

  predicate IsValueByte(b: byte) {
    b >= 32 || b == HTAB
  }

  predicate ValidValue(s: bytes) {
    forall i | 0 <= i < |s| :: IsValueByte(s[i])
  }

  const HTTP_1_1: bytes := Ascii("HTTP/1.1")
  const HTTP_1_0: bytes := Ascii("HTTP/1.0")

  datatype Start = Start(verb: bytes, target: bytes, version: bytes)

  predicate ValidStart(s: Start) {
    && 0 < |s.verb| <= MAX_METHOD && AllToken(s.verb)
    && 0 < |s.target| <= MAX_TARGET
    && (s.version == HTTP_1_1 || s.version == HTTP_1_0)
  }

  /** Exactly two spaces, and three valid parts. */
  function StartLine(line: bytes): Option<Start> {
    var sp1 := Find(line, [SP], 0);
    if sp1 < 0 then None
    else
      var sp2 := Find(line, [SP], sp1 + 1);
      if sp2 < 0 || Find(line, [SP], sp2 + 1) >= 0 then None else Checked(Cut(line, sp1, sp2))
  }

  function Cut(line: bytes, sp1: nat, sp2: nat): Start
    requires sp1 < sp2 < |line|
  {
    Start(line[..sp1], line[sp1 + 1..sp2], line[sp2 + 1..])
  }

  function Checked(start: Start): Option<Start> {
    if ValidStart(start) then Some(start) else None
  }

  predicate ValidHeader(h: Header) {
    0 < |h.name| <= MAX_NAME && AllToken(h.name) && |h.value| <= MAX_VALUE && ValidValue(h.value)
  }

  function HeaderLine(line: bytes): Option<Header> {
    if line != [] && IsOws(line[0]) then None
    else
      var colon := Find(line, [COLON], 0);
      if colon <= 0 || IsOws(line[colon - 1]) then None
      else
        var h := Header(line[..colon], Trim(line[colon + 1..]));
        if ValidHeader(h) then Some(h) else None
  }

  const CONTENT_LENGTH: bytes := Ascii("content-length")
  const TRANSFER_ENCODING: bytes := Ascii("transfer-encoding")
  const CONNECTION: bytes := Ascii("connection")
  const CHUNKED: bytes := Ascii("chunked")
  const CLOSE: bytes := Ascii("close")

  predicate IsLength(h: Header) {
    Lower(h.name) == CONTENT_LENGTH
  }

  predicate IsChunked(h: Header) {
    Lower(h.name) == TRANSFER_ENCODING && Contains(Lower(h.value), CHUNKED)
  }

  predicate IsClose(h: Header) {
    Lower(h.name) == CONNECTION && Contains(Lower(h.value), CLOSE)
  }

  /** What the headers so far say. */
  datatype Acc = Acc(headers: seq<Header>, length: Option<nat>, chunked: bool, keepAlive: bool)

  /** One header more; fails on too many, on a bad length and on a length that differs from an earlier one. */
  function Take(a: Acc, h: Header): Option<Acc> {
    var n := Number(10, h.value);
    if |a.headers| >= MAX_HEADERS then None
    else if IsLength(h) && (n.None? || (a.length.Some? && a.length != n)) then None
    else
      Some(Acc(a.headers + [h], if IsLength(h) then n else a.length, a.chunked || IsChunked(h), a.keepAlive && !IsClose(h)))
  }

  function TakeAll(a: Acc, hs: seq<Header>): Option<Acc>
    decreases |hs|
  {
    if hs == [] then Some(a)
    else
      var r := Take(a, hs[0]);
      if r.None? then None else TakeAll(r.value, hs[1..])
  }

  /** The headers of the lines, or nothing if one of them is not a header. */
  function HeaderLines(lines: seq<bytes>): Option<seq<Header>> {
    if lines == [] then Some([])
    else
      var h, rest := HeaderLine(lines[0]), HeaderLines(lines[1..]);
      if h.None? || rest.None? then None else Some([h.value] + rest.value)
  }

  function NoHeaders(version: bytes): Acc {
    Acc([], None, false, version == HTTP_1_1)
  }

  /** A head given by its lines. */
  function ParseLines(lines: seq<bytes>, size: nat): Parse
    requires lines != []
  {
    var start, hs := StartLine(lines[0]), HeaderLines(lines[1..]);
    if start.None? || hs.None? then Error
    else
      var a := TakeAll(NoHeaders(start.value.version), hs.value);
      if a.None? || (a.value.chunked && a.value.length.Some?) then Error
      else Complete(Parsed(start.value, a.value, size))
  }

  function Parsed(s: Start, a: Acc, size: nat): Request {
    Request(s.verb, s.target, s.version, a.headers, a.keepAlive, if a.length.Some? then a.length.value else 0, a.chunked, size)
  }

  /** parse_headers for a request. */
  ghost function ParseHead(s: bytes): Parse {
    var end := Find(s, BLANK_LINE, 0);
    if end < 0 then if |s| > MAX_HEAD || LF in s then Error else Incomplete
    else if end + 4 > MAX_HEAD || !Paired(s[..end + 2]) then Error
    else
      BlockHasLines(s, end);
      ParseLines(Lines(s[..end + 2]), end + 4)
  }

  lemma BlockHasLines(s: bytes, end: nat)
    requires end == Find(s, BLANK_LINE, 0)
    ensures Lines(s[..end + 2]) != [] && Find(s[..end + 2], CRLF, 0) >= 0
  {
    FindFirst(s, BLANK_LINE, 0);
    AtBlank(s, end);
    AtCrlf(s, end);
    var block := s[..end + 2];
    AtCrlf(block, end);
    FindFirst(block, CRLF, 0);
  }

  /** What is looked at of a buffer: one byte more than a head may have. */
  function Window(s: bytes): bytes {
    s[..if |s| <= MAX_HEAD + 1 then |s| else MAX_HEAD + 1]
  }

  ghost function ParseRequest(s: bytes): Parse {
    ParseHead(Window(s))
  }

  const HOST: bytes := Ascii("Host")
  const VIA: bytes := Ascii("Via")
  const VIA_VALUE: bytes := Ascii("1.1 uproxy")
  const CONTENT_LENGTH_NAME: bytes := Ascii("Content-Length")

  const HOST_LOWER: bytes := Ascii("host")
  const KEEP_ALIVE: bytes := Ascii("keep-alive")
  const PROXY_AUTHENTICATE: bytes := Ascii("proxy-authenticate")
  const PROXY_AUTHORIZATION: bytes := Ascii("proxy-authorization")
  const TE: bytes := Ascii("te")
  const TRAILERS: bytes := Ascii("trailers")
  const UPGRADE: bytes := Ascii("upgrade")

  /** The headers that belong to one hop, and Host, which is replaced. */
  predicate IsDropped(h: Header) {
    var name := Lower(h.name);
    || name == HOST_LOWER || name == CONNECTION || name == KEEP_ALIVE || name == PROXY_AUTHENTICATE
    || name == PROXY_AUTHORIZATION || name == TE || name == TRAILERS || name == TRANSFER_ENCODING || name == UPGRADE
  }

  /** The others, in order. */
  function Survivors(hs: seq<Header>): (r: seq<Header>)
    ensures |r| <= |hs|
  {
    if hs == [] then [] else (if IsDropped(hs[0]) then [] else [hs[0]]) + Survivors(hs[1..])
  }

  predicate AnyLength(hs: seq<Header>) {
    exists i | 0 <= i < |hs| :: IsLength(hs[i])
  }

  predicate AllValid(hs: seq<Header>) {
    forall i | 0 <= i < |hs| :: ValidValue(hs[i].value)
  }

  function HeaderText(h: Header): bytes {
    h.name + [COLON, SP] + h.value
  }

  function HeaderTexts(hs: seq<Header>): (r: seq<bytes>)
    ensures |r| == |hs|
  {
    seq(|hs|, i requires 0 <= i < |hs| => HeaderText(hs[i]))
  }

  function StartText(req: Request): bytes {
    req.verb + [SP] + req.target + [SP] + req.version
  }

  /** The headers a request is forwarded with. */
  function Forwarded(req: Request, host: bytes): seq<Header> {
    var kept := Survivors(req.headers);
    [Header(HOST, host)] + kept
    + (if req.contentLength > 0 && !AnyLength(kept) then [Header(CONTENT_LENGTH_NAME, Printed(10, req.contentLength))] else [])
    + [Header(VIA, VIA_VALUE)]
  }

  function RequestText(req: Request, host: bytes): bytes {
    Unlines([StartText(req)] + HeaderTexts(Forwarded(req, host))) + CRLF
  }

  /** write_request: fails on a header value that would break the line. */
  function WrittenRequest(req: Request, host: bytes): Option<bytes> {
    if AllValid(Survivors(req.headers)) then Some(RequestText(req, host)) else None
  }

  /** parse_chunk_header: the size and the number of bytes it took, nothing where the source returns -1. */
  function ChunkHeader(s: bytes): Option<(nat, nat)> {
    var window := s[..if |s| <= 128 then |s| else 128];
    var crlf := Find(window, CRLF, 0);
    if crlf < 0 then None
    else
      var line := window[..crlf];
      var semi := Find(line, [SEMICOLON], 0);
      var n := Number(16, if semi < 0 then line else line[..semi]);
      if n.None? || n.value > 0x7fff_ffff_ffff_ffff then None else Some((n.value, crlf + 2))
  }

  function ChunkText(n: nat): bytes {
    Printed(16, n) + CRLF
  }
}
