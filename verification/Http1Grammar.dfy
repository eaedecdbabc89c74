/**
 The parser and write_request once more, in the words of RFC 9110 and RFC 9112 alone: characters, names and limits written out and
 letters compared in either case, with none of the definitions the parser is made of.
 */
module Http1Grammar {
  import opened Bytes
  import opened Http1Text
  import opened Http1
  import opened Http1Framing
  import opened Http1Forwarding

  predicate SameLetter(x: byte, y: byte) {
    x == y || (65 <= x <= 90 && y == x + 32) || (65 <= y <= 90 && x == y + 32)
  }

  /** Equal, in any letter case. */
  predicate SameLetters(a: bytes, b: bytes) {
    |a| == |b| && forall i | 0 <= i < |a| :: SameLetter(a[i], b[i])
  }

  predicate Called(h: Header, name: string) {
    SameLetters(h.name, Ascii(name))
  }

  /** The word, in any letter case, with something before and after it. */
  ghost predicate Mentions(value: bytes, word: string) {
    exists before: bytes, w: bytes, after: bytes :: value == before + w + after && SameLetters(w, Ascii(word))
  }

  predicate NoCapitals(w: string) {
    forall i | 0 <= i < |w| :: (w[i] as int) < 128 && !('A' <= w[i] <= 'Z')
  }

  lemma LowerIs(a: bytes, w: string)
    requires NoCapitals(w)
    ensures Lower(a) == Ascii(w) <==> SameLetters(a, Ascii(w))
  {
    var b := Ascii(w);
    assert forall i | 0 <= i < |b| :: b[i] == w[i] as int && !(65 <= b[i] <= 90);
    if SameLetters(a, b) {
      assert forall i | 0 <= i < |a| :: Lower(a)[i] == b[i];
    }
    if Lower(a) == b {
      assert forall i | 0 <= i < |a| :: LowerByte(a[i]) == b[i];
    }
  }

  lemma LowerSlice(s: bytes, i: nat, j: nat)
    requires i <= j <= |s|
    ensures Lower(s)[i..j] == Lower(s[i..j])
  {
  }

  lemma WordFound(value: bytes, word: string, i: nat, j: nat)
    requires NoCapitals(word) && j == i + |word| <= |value|
    ensures At(Lower(value), Ascii(word), i) <==> SameLetters(value[i..j], Ascii(word))
  {
    LowerSlice(value, i, j);
    LowerIs(value[i..j], word);
  }

  lemma MentionedAt(value: bytes, word: string, before: bytes, w: bytes, after: bytes)
    requires NoCapitals(word) && value == before + w + after && SameLetters(w, Ascii(word))
    ensures Contains(Lower(value), Ascii(word))
  {
    var i, j := |before|, |before| + |word|;
    assert value[i..j] == w;
    WordFound(value, word, i, j);
    FindFirst(Lower(value), Ascii(word), 0);
  }

  lemma MentionsIff(value: bytes, word: string)
    requires NoCapitals(word)
    ensures Contains(Lower(value), Ascii(word)) <==> Mentions(value, word)
  {
    if Contains(Lower(value), Ascii(word)) {
      FindFirst(Lower(value), Ascii(word), 0);
      var i := Find(Lower(value), Ascii(word), 0);
      var j := i + |word|;
      WordFound(value, word, i, j);
      assert value == value[..i] + value[i..j] + value[j..];
    }
    if before: bytes, w: bytes, after: bytes :| value == before + w + after && SameLetters(w, Ascii(word)) {
      MentionedAt(value, word, before, w, after);
    }
  }

  lemma LengthIs(h: Header)
    ensures IsLength(h) <==> Called(h, "content-length")
  {
    LowerIs(h.name, "content-length");
  }

  lemma ChunkedIs(h: Header)
    ensures IsChunked(h) <==> Called(h, "transfer-encoding") && Mentions(h.value, "chunked")
  {
    LowerIs(h.name, "transfer-encoding");
    MentionsIff(h.value, "chunked");
  }

  lemma CloseIs(h: Header)
    ensures IsClose(h) <==> Called(h, "connection") && Mentions(h.value, "close")
  {
    LowerIs(h.name, "connection");
    MentionsIff(h.value, "close");
  }

  /** tchar of section 5.6.2 of RFC 9110. */
  predicate TokenChar(b: byte) {
    var c := b as char;
    'a' <= c <= 'z' || 'A' <= c <= 'Z' || '0' <= c <= '9' || c in "!#$%&'*+-.^_`|~"
  }

  predicate Token(s: bytes) {
    s != [] && forall i | 0 <= i < |s| :: TokenChar(s[i])
  }

  predicate White(b: byte) {
    b == 32 || b == 9
  }

  /** Visible characters, spaces and tabs, and bytes above 126; not white at either end. */
  predicate FieldValue(s: bytes) {
    && (forall i | 0 <= i < |s| :: s[i] >= 32 || s[i] == 9)
    && (s != [] ==> !White(s[0]) && !White(s[|s| - 1]))
  }

  ghost predicate FieldLine(line: bytes, h: Header) {
    && Token(h.name) && |h.name| <= 256 && FieldValue(h.value) && |h.value| <= 8192
    && exists before: bytes, after: bytes ::
         && line == h.name + [58] + (before + h.value + after)
         && (forall b | b in before :: White(b)) && (forall b | b in after :: White(b))
  }

  predicate RequestLine(line: bytes, verb: bytes, target: bytes, version: bytes) {
    && line == verb + [32] + (target + [32] + version)
    && Token(verb) && |verb| <= 16 && 0 < |target| <= 8192 && 32 !in target
    && (version == Ascii("HTTP/1.1") || version == Ascii("HTTP/1.0"))
  }

  lemma TokenCharIs(b: byte)
    ensures IsTokenChar(b) <==> TokenChar(b)
  {
    var c := b as char;
    if c in "!#$%&'*+-.^_`|~" {
      assert b in {33, 35, 36, 37, 38, 39, 42, 43, 45, 46, 94, 95, 96, 124, 126};
    }
    if b in {33, 35, 36, 37, 38, 39, 42, 43, 45, 46, 94, 95, 96, 124, 126} {
      assert c in ['!', '#', '$', '%', '&', '\'', '*', '+', '-', '.', '^', '_', '`', '|', '~'];
      assert "!#$%&'*+-.^_`|~" == ['!', '#', '$', '%', '&', '\'', '*', '+', '-', '.', '^', '_', '`', '|', '~'];
    }
  }

  lemma TokenIs(s: bytes)
    ensures 0 < |s| && AllToken(s) <==> Token(s)
  {
    forall i | 0 <= i < |s|
      ensures IsTokenChar(s[i]) <==> TokenChar(s[i])
    {
      TokenCharIs(s[i]);
    }
  }

  lemma WhiteIs(s: bytes)
    ensures AllOws(s) <==> forall b | b in s :: White(b)
  {
    if forall b | b in s :: White(b) {
      forall i | 0 <= i < |s|
        ensures IsOws(s[i])
      {
        assert s[i] in s;
      }
    }
  }

  lemma FieldLineIs(line: bytes, h: Header)
    ensures IsField(line, h) <==> FieldLine(line, h)
  {
    TokenIs(h.name);
    if before, after :| Spells(line, h, before, after) {
      WhiteIs(before);
      WhiteIs(after);
    }
    if FieldLine(line, h) {
      var before: bytes, after: bytes :|
        && line == h.name + [58] + (before + h.value + after)
        && (forall b | b in before :: White(b)) && (forall b | b in after :: White(b));
      WhiteIs(before);
      WhiteIs(after);
      assert Spells(line, h, before, after);
    }
  }

  lemma RequestLineIs(line: bytes, st: Start)
    ensures IsStart(line, st) <==> RequestLine(line, st.verb, st.target, st.version)
  {
    TokenIs(st.verb);
  }

  /** What the headers of a request say of its length, its coding and its connection. */
  ghost predicate Says(req: Request) {
    var hs := req.headers;
    && (forall h | h in hs && Called(h, "content-length") :: Number(10, h.value) == Some(req.contentLength))
    && ((forall h | h in hs :: !Called(h, "content-length")) ==> req.contentLength == 0)
    && (req.chunked <==> exists h | h in hs :: Called(h, "transfer-encoding") && Mentions(h.value, "chunked"))
    && (req.chunked ==> forall h | h in hs :: !Called(h, "content-length"))
    && (req.keepAlive <==>
          req.version == Ascii("HTTP/1.1") && !exists h | h in hs :: Called(h, "connection") && Mentions(h.value, "close"))
  }

  lemma SomeIndex(hs: seq<Header>)
    ensures AnyLength(hs) <==> exists h | h in hs :: IsLength(h)
    ensures (exists i | 0 <= i < |hs| :: IsChunked(hs[i])) <==> exists h | h in hs :: IsChunked(h)
    ensures (exists i | 0 <= i < |hs| :: IsClose(hs[i])) <==> exists h | h in hs :: IsClose(h)
  {
    assert forall i | 0 <= i < |hs| :: hs[i] in hs;
  }

  lemma SaysIs(req: Request)
    ensures Agrees(req) <==> Says(req) && |req.headers| <= 100
  {
    SomeIndex(req.headers);
    forall h | h in req.headers
      ensures IsLength(h) <==> Called(h, "content-length")
      ensures IsChunked(h) <==> Called(h, "transfer-encoding") && Mentions(h.value, "chunked")
      ensures IsClose(h) <==> Called(h, "connection") && Mentions(h.value, "close")
    {
      LengthIs(h);
      ChunkedIs(h);
      CloseIs(h);
    }
  }

  /** The lines of a request at the front of the input: a request line, then a field line for each header, in order. */
  ghost predicate Opens(lines: seq<bytes>, s: bytes, req: Request) {
    && |lines| == 1 + |req.headers| <= 101
    && (forall i | 0 <= i < |lines| :: lines[i] != [] && 10 !in lines[i])
    && RequestLine(lines[0], req.verb, req.target, req.version)
    && (forall i | 0 <= i < |req.headers| :: FieldLine(lines[i + 1], req.headers[i]))
    && Unlines(lines) + [13, 10] <= s && req.headerBytes == |Unlines(lines)| + 2 <= 65536
    && Says(req)
  }

  lemma OpensIs(lines: seq<bytes>, s: bytes, req: Request)
    ensures Denotes(lines, s, req) <==> Opens(lines, s, req)
  {
    SaysIs(req);
    if |lines| == 1 + |req.headers| {
      RequestLineIs(lines[0], Start(req.verb, req.target, req.version));
      forall i | 0 <= i < |req.headers|
        ensures IsField(lines[i + 1], req.headers[i]) <==> FieldLine(lines[i + 1], req.headers[i])
      {
        FieldLineIs(lines[i + 1], req.headers[i]);
      }
    }
  }

  /** The parser returns a request exactly if the grammar gives it. */
  lemma ParsedIff(s: bytes, req: Request)
    ensures ParseRequest(s) == Complete(req) <==> exists lines :: Opens(lines, s, req)
  {
    CompleteIff(s, req);
    if lines :| Denotes(lines, s, req) {
      OpensIs(lines, s, req);
    }
    if lines :| Opens(lines, s, req) {
      OpensIs(lines, s, req);
    }
  }

  /** It waits for more exactly while there is no line feed and no more than a head may have. */
  lemma WaitsIff(s: bytes)
    ensures ParseRequest(s) == Incomplete <==> |s| <= 65536 && 10 !in s
  {
    var w := Window(s);
    FindFirst(w, BLANK_LINE, 0);
    var end := Find(w, BLANK_LINE, 0);
    if end >= 0 {
      AtBlank(w, end);
      AtCrlf(w, end);
      assert w[end + 1] == s[end + 1];
    }
    if |s| <= 65536 {
      assert w == s;
    }
  }

  /** The nine names that concern one hop, Host among them because it is replaced. */
  predicate OneHop(h: Header) {
    || Called(h, "host") || Called(h, "connection") || Called(h, "keep-alive")
    || Called(h, "proxy-authenticate") || Called(h, "proxy-authorization")
    || Called(h, "te") || Called(h, "trailers") || Called(h, "transfer-encoding") || Called(h, "upgrade")
  }

  lemma OneHopIs(h: Header)
    ensures IsDropped(h) <==> OneHop(h)
  {
    LowerIs(h.name, "host");
    LowerIs(h.name, "connection");
    LowerIs(h.name, "keep-alive");
    LowerIs(h.name, "proxy-authenticate");
    LowerIs(h.name, "proxy-authorization");
    LowerIs(h.name, "te");
    LowerIs(h.name, "trailers");
    LowerIs(h.name, "transfer-encoding");
    LowerIs(h.name, "upgrade");
  }

  /** The headers with other names, in order and as often as they are there. */
  function Passed(hs: seq<Header>): seq<Header> {
    if hs == [] then [] else (if OneHop(hs[0]) then [] else [hs[0]]) + Passed(hs[1..])
  }

  lemma {:induction false} PassedIs(hs: seq<Header>)
    ensures Survivors(hs) == Passed(hs)
  {
    if hs != [] {
      OneHopIs(hs[0]);
      PassedIs(hs[1..]);
    }
  }

  /** What write_request is to send for any request: Host, the headers that pass, a length if there is a body and none yet, Via. */
  lemma ForwardedIsPassed(req: Request, host: bytes)
    ensures Forwarded(req, host) ==
            [Header(Ascii("Host"), host)] + Passed(req.headers)
            + (if req.contentLength > 0 && (forall h | h in Passed(req.headers) :: !Called(h, "content-length"))
               then [Header(Ascii("Content-Length"), Printed(10, req.contentLength))] else [])
            + [Header(Ascii("Via"), Ascii("1.1 uproxy"))]
  {
    PassedIs(req.headers);
    SomeIndex(Survivors(req.headers));
    forall h | h in Survivors(req.headers)
      ensures IsLength(h) <==> Called(h, "content-length")
    {
      LengthIs(h);
    }
  }

  /** write_request fails exactly if a header that passes holds a control character other than a tab. */
  lemma WrittenIff(req: Request, host: bytes)
    ensures WrittenRequest(req, host).Some? <==> forall h | h in Passed(req.headers) :: forall b | b in h.value :: b >= 32 || b == 9
  {
    var passed := Passed(req.headers);
    PassedIs(req.headers);
    if AllValid(passed) {
      forall h, b | h in passed && b in h.value
        ensures b >= 32 || b == 9
      {
        var i :| 0 <= i < |passed| && passed[i] == h;
        assert ValidValue(passed[i].value);
      }
    }
    if forall h | h in passed :: forall b | b in h.value :: b >= 32 || b == 9 {
      forall i | 0 <= i < |passed|
        ensures ValidValue(passed[i].value)
      {
        assert passed[i] in passed;
        assert forall j | 0 <= j < |passed[i].value| :: passed[i].value[j] in passed[i].value;
      }
    }
  }

  /**
   Over the written bytes, for every parsed request: the next hop reads the same request line, the Host it was given, every header
   that concerns more than one hop, in order and as often as it was sent, then Via, and nothing else; or it refuses the head, exactly
   if that has become too long or too many.
   */
  lemma HeadersPassOn(s: bytes, req: Request, host: bytes)
    requires ParseRequest(s) == Complete(req) && GoodHost(host)
    ensures WrittenRequest(req, host).Some?
    ensures
      var out, passed := WrittenRequest(req, host).value, Passed(req.headers);
      var r := ParseRequest(out);
      if |out| <= 65536 && |passed| + 2 <= 100 then
        && r.Complete? && r.req.verb == req.verb && r.req.target == req.target && r.req.version == req.version
        && r.req.headers == [Header(Ascii("Host"), host)] + passed + [Header(Ascii("Via"), Ascii("1.1 uproxy"))]
        && r.req.contentLength == req.contentLength && !r.req.chunked
      else r == Error
  {
    ForwardingRoundTrip(s, req, host);
    PassedIs(req.headers);
  }

  /** Digits and their values. */
  lemma DigitsAre(b: byte)
    ensures IsDigit(10, b) <==> b as char in "0123456789"
    ensures IsDigit(16, b) <==> b as char in "0123456789abcdefABCDEF"
  {
    DigitRows(b);
  }

  lemma DigitRows(b: byte)
    ensures 48 <= b <= 57 ==> "0123456789"[b - 48] == b as char && "0123456789abcdefABCDEF"[b - 48] == b as char
    ensures 97 <= b <= 102 ==> "0123456789abcdefABCDEF"[b - 87] == b as char
    ensures 65 <= b <= 70 ==> "0123456789abcdefABCDEF"[b - 49] == b as char
  {
  }

  lemma DigitValues(d: nat, b: byte)
    requires d < 16 && (b as char == "0123456789abcdef"[d] || b as char == "0123456789ABCDEF"[d])
    ensures DigitValue(b) == d
  {
  }

  /**
   A chunk header in either letter case, with or without an extension, of which at most 128 bytes are looked at: its size if that is a
   hexadecimal number that fits int64, and exactly its bytes.
   */
  lemma ChunkWithExtension(hex: bytes, extension: bytes, rest: bytes)
    requires 59 !in hex && 10 !in hex && 10 !in extension && (extension == [] || extension[0] == 59)
    ensures var n := Number(16, hex);
            ChunkHeader(hex + extension + [13, 10] + rest) ==
            if |hex| + |extension| + 2 <= 128 && n.Some? && n.value <= 0x7fff_ffff_ffff_ffff
            then Some((n.value, |hex| + |extension| + 2)) else None
  {
    var line := hex + extension;
    var s := line + CRLF + rest;
    var k := if |s| <= 128 then |s| else 128;
    if |line| + 2 <= 128 {
      var more := s[..k][|line| + 2..];
      assert s[..k] == line + CRLF + more;
      FirstLine(line, more);
      if extension == [] {
        assert line == hex;
        FindByteNone(hex, SEMICOLON);
      } else {
        assert line == hex + [SEMICOLON] + extension[1..];
        FindByteAfter(hex, SEMICOLON, extension[1..]);
      }
    } else {
      LineTooLong(line, s, k);
    }
  }

  lemma LineTooLong(line: bytes, s: bytes, k: nat)
    requires 10 !in line && k == 128 && line + CRLF <= s && |line| + 2 > 128
    ensures Find(s[..k], CRLF, 0) < 0
  {
    FindFirst(s[..k], CRLF, 0);
    var i := Find(s[..k], CRLF, 0);
    if i >= 0 {
      AtCrlf(s[..k], i);
    }
  }
}
