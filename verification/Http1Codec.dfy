/** The parser and the serializer as they run, on ring buffers and with loops, each proved against what Http1 says. */
module Http1Codec {
  import opened Bytes
  import opened Buffer
  import opened Http1Text
  import opened Http1
  import opened Http1Framing
  import opened Http1Forwarding

  method TrimOws(s: bytes) returns (r: bytes)
    ensures r == Trim(s) && Trimmed(r)
  {
    var i := 0;
    while i < |s| && IsOws(s[i])
      invariant 0 <= i <= |s| && TrimLeft(s) == TrimLeft(s[i..])
    {
      TrimLeftStep(s, i, i + 1);
      i := i + 1;
    }
    var t := s[i..];
    assert TrimLeft(s) == t;
    var j := |t|;
    assert t[..j] == t;
    while j > 0 && IsOws(t[j - 1])
      invariant 0 <= j <= |t| && TrimRight(t) == TrimRight(t[..j])
    {
      TrimRightStep(t, j - 1, j);
      j := j - 1;
    }
    r := t[..j];
    var _, _ := TrimCuts(s);
  }

  lemma TrimLeftStep(s: bytes, i: nat, j: nat)
    requires j == i + 1 <= |s| && IsOws(s[i])
    ensures TrimLeft(s[i..]) == TrimLeft(s[j..])
  {
    assert s[i..][1..] == s[j..];
  }

  lemma TrimRightStep(s: bytes, i: nat, j: nat)
    requires j == i + 1 <= |s| && IsOws(s[i])
    ensures TrimRight(s[..j]) == TrimRight(s[..i])
  {
    assert s[..j][..i] == s[..i];
  }

  method ValidHeaderValue(value: bytes) returns (ok: bool)
    ensures ok == ValidValue(value)
  {
    for i := 0 to |value|
      invariant forall j | 0 <= j < i :: IsValueByte(value[j])
    {
      var c := value[i];
      if c == CR || c == LF {
        return false;
      }
      if c < 32 && c != HTAB {
        return false;
      }
    }
    return true;
  }

  method AllTokenChars(s: bytes) returns (ok: bool)
    ensures ok == AllToken(s)
  {
    for i := 0 to |s|
      invariant forall j | 0 <= j < i :: IsTokenChar(s[j])
    {
      if !IsTokenChar(s[i]) {
        return false;
      }
    }
    return true;
  }

  /** Whether every line feed follows a carriage return. */
  method CheckLineFeeds(block: bytes) returns (ok: bool)
    ensures ok == Paired(block)
  {
    for i := 0 to |block|
      invariant forall j | 0 <= j < i :: LfAfterCr(block, j)
    {
      if block[i] == LF && (i == 0 || block[i - 1] != CR) {
        assert !LfAfterCr(block, i);
        return false;
      }
    }
    return true;
  }

  method ParseStartLine(start: bytes) returns (r: Option<Start>)
    ensures r == StartLine(start)
  {
    var sp1 := Find(start, [SP], 0);
    if sp1 < 0 {
      return None;
    }
    var sp2 := Find(start, [SP], sp1 + 1);
    if sp2 < 0 || Find(start, [SP], sp2 + 1) >= 0 {
      return None;
    }
    var verb, target, version := start[..sp1], start[sp1 + 1..sp2], start[sp2 + 1..];
    var token := AllTokenChars(verb);
    if verb == [] || |verb| > MAX_METHOD || !token {
      return None;
    }
    if target == [] || |target| > MAX_TARGET || (version != HTTP_1_1 && version != HTTP_1_0) {
      return None;
    }
    return Some(Start(verb, target, version));
  }

  method ParseHeaderLine(line: bytes) returns (r: Option<Header>)
    ensures r == HeaderLine(line)
  {
    if line != [] && (line[0] == SP || line[0] == HTAB) {
      return None;
    }
    var colon := Find(line, [COLON], 0);
    if colon < 0 || colon == 0 {
      return None;
    }
    if line[colon - 1] == SP || line[colon - 1] == HTAB {
      return None;
    }
    var name := line[..colon];
    var token := AllTokenChars(name);
    if |name| > MAX_NAME || !token {
      return None;
    }
    var value := TrimOws(line[colon + 1..]);
    var valid := ValidHeaderValue(value);
    if |value| > MAX_VALUE || !valid {
      return None;
    }
    return Some(Header(name, value));
  }

  /** What the header loop has still to find. */
  ghost function TakeLines(a: Acc, lines: seq<bytes>): Option<Acc> {
    var hs := HeaderLines(lines);
    if hs.None? then None else TakeAll(a, hs.value)
  }

  lemma TakeLine(a: Acc, lines: seq<bytes>)
    requires lines != []
    ensures
      var h := HeaderLine(lines[0]);
      TakeLines(a, lines) ==
      if h.None? || Take(a, h.value).None? then None else TakeLines(Take(a, h.value).value, lines[1..])
  {
    var h, rest := HeaderLine(lines[0]), HeaderLines(lines[1..]);
    if h.Some? && rest.Some? {
      var hs := [h.value] + rest.value;
      assert hs[0] == h.value && hs[1..] == rest.value;
    }
  }

  lemma FindDrop(s: bytes, p: bytes, from: nat, r: nat)
    requires from <= |s| && Find(s[from..], p, 0) == r
    ensures Find(s, p, from) == from + r
  {
    var head, tail, at := s[..from], s[from..], from + r;
    assert s == head + tail;
    FindFirst(tail, p, 0);
    AtSuffix(head, tail, p, r);
    forall i | from <= i < at
      ensures !At(s, p, i)
    {
      AtSuffix(head, tail, p, i - from);
    }
    FindIs(s, p, from, at);
  }

  /** Where the header loop stands: just after a line end, with whole lines to go and no empty one. */
  ghost predicate AtLine(block: bytes, pos: nat) {
    && 2 <= pos <= |block| && At(block, CRLF, pos - 2) && NoneIn(block, BLANK_LINE, 0, |block|)
    && Ended(block[pos..]) && Paired(block[pos..])
  }

  lemma NextLine(block: bytes, pos: nat) returns (next: nat)
    requires AtLine(block, pos) && pos < |block|
    ensures next == Find(block, CRLF, pos) && pos < next && next + 2 <= |block| && AtLine(block, next + 2)
    ensures Lines(block[pos..]) == [block[pos..next]] + Lines(block[next + 2..])
  {
    var rest := block[pos..];
    BlockStep(rest);
    var e := Find(rest, CRLF, 0);
    next := pos + e;
    FindDrop(block, CRLF, pos, e);
    assert rest[..e] == block[pos..next] && rest[e + 2..] == block[next + 2..];
    FindFirst(block, CRLF, pos);
    var before := pos - 2;
    AtBlank(block, before);
    assert before + 2 == pos;
  }

  lemma FirstLineOf(block: bytes) returns (e: nat)
    requires block != [] && Ended(block) && Paired(block) && NoneIn(block, BLANK_LINE, 0, |block|)
    ensures e == Find(block, CRLF, 0) && e + 2 <= |block| && AtLine(block, e + 2)
    ensures Lines(block) == [block[..e]] + Lines(block[e + 2..])
  {
    BlockStep(block);
    e := Find(block, CRLF, 0);
    FindFirst(block, CRLF, 0);
    var pos := e + 2;
    assert pos - 2 == e;
  }

  /** One turn of the header loop takes one line. */
  lemma OneTurn(block: bytes, pos: nat, a: Acc) returns (next: nat, after: nat)
    requires AtLine(block, pos) && pos < |block|
    ensures next == Find(block, CRLF, pos) && pos < next && after == next + 2 <= |block| && AtLine(block, after)
    ensures
      var h := HeaderLine(block[pos..next]);
      TakeLines(a, Lines(block[pos..])) ==
      if h.None? || Take(a, h.value).None? then None else TakeLines(Take(a, h.value).value, Lines(block[after..]))
  {
    next := NextLine(block, pos);
    after := next + 2;
    var lines := Lines(block[pos..]);
    assert lines[0] == block[pos..next] && lines[1..] == Lines(block[after..]);
    TakeLine(a, lines);
  }

  /** What one header adds. */
  method Absorb(a: Acc, h: Header) returns (r: Option<Acc>)
    ensures r == Take(a, h)
  {
    if |a.headers| >= MAX_HEADERS {
      return None;
    }
    var length, chunked, keepAlive := a.length, a.chunked, a.keepAlive;
    var name := Lower(h.name);
    if name == CONTENT_LENGTH {
      var parsed := Number(10, h.value);
      if parsed.None? || (length.Some? && parsed != length) {
        return None;
      }
      length := parsed;
    } else if name == TRANSFER_ENCODING && Contains(Lower(h.value), CHUNKED) {
      chunked := true;
    } else if name == CONNECTION {
      if Contains(Lower(h.value), CLOSE) {
        keepAlive := false;
      }
    }
    return Some(Acc(a.headers + [h], length, chunked, keepAlive));
  }

  /** The header loop. Its early exits, on a line that does not end or is empty, cannot be taken. */
  method ParseHeaderBlock(block: bytes, start: nat, a0: Acc) returns (r: Option<Acc>)
    requires AtLine(block, start)
    ensures r == TakeLines(a0, Lines(block[start..]))
  {
    var a, pos := a0, start;
    while pos < |block|
      invariant AtLine(block, pos)
      invariant TakeLines(a0, Lines(block[start..])) == TakeLines(a, Lines(block[pos..]))
    {
      ghost var next', after := OneTurn(block, pos, a);
      var next := Find(block, CRLF, pos);
      if next < 0 || next == pos {
        assert false;
        break;
      }
      var line := block[pos..next];
      pos := next + 2;
      assert pos == after;
      var h := ParseHeaderLine(line);
      if h.None? {
        return None;
      }
      var a' := Absorb(a, h.value);
      if a'.None? {
        return None;
      }
      a := a'.value;
    }
    assert block[pos..] == [];
    return Some(a);
  }

  /** The part of a head before its blank line. */
  method ParseBlock(block: bytes, size: nat) returns (r: Parse)
    requires block != [] && Ended(block) && Paired(block) && NoneIn(block, BLANK_LINE, 0, |block|)
    ensures Lines(block) != [] && r == ParseLines(Lines(block), size)
  {
    ghost var lines := Lines(block);
    ghost var e := FirstLineOf(block);
    var lineEnd := Find(block, CRLF, 0);
    var start := ParseStartLine(block[..lineEnd]);
    assert lines[0] == block[..lineEnd] && lines[1..] == Lines(block[lineEnd + 2..]);
    if start.None? {
      return Error;
    }
    var a := ParseHeaderBlock(block, lineEnd + 2, NoHeaders(start.value.version));
    if a.None? || (a.value.chunked && a.value.length.Some?) {
      return Error;
    }
    return Complete(Parsed(start.value, a.value, size));
  }

  method ParseHeaders(s: bytes) returns (r: Parse)
    ensures r == ParseHead(s)
  {
    var end := Find(s, BLANK_LINE, 0);
    if end < 0 {
      return if |s| > MAX_HEAD || LF in s then Error else Incomplete;
    }
    if end + 4 > MAX_HEAD {
      return Error;
    }
    var block := s[..end + 2];
    var ok := CheckLineFeeds(block);
    if !ok {
      return Error;
    }
    FindFirst(s, BLANK_LINE, 0);
    BlockIsWhole(s, end);
    r := ParseBlock(block, end + 4);
  }

  method ReadRequest(buf: RingBuffer) returns (r: Parse)
    requires buf.Valid()
    ensures r == ParseRequest(buf.Contents())
  {
    var s := buf.Peek(Min(buf.Readable(), MAX_HEAD + 1));
    assert s == Window(buf.Contents());
    r := ParseHeaders(s);
  }

  lemma {:induction false} UnlinesLast(lines: seq<bytes>, line: bytes)
    ensures Unlines(lines + [line]) == Unlines(lines) + line + CRLF
    decreases |lines|
  {
    if lines == [] {
      assert [line][1..] == [];
    } else {
      UnlinesLast(lines[1..], line);
      assert (lines + [line])[1..] == lines[1..] + [line];
    }
  }

  lemma {:induction false} SurvivorsConcat(xs: seq<Header>, ys: seq<Header>)
    ensures Survivors(xs + ys) == Survivors(xs) + Survivors(ys)
    decreases |xs|
  {
    if xs == [] {
      assert xs + ys == ys;
    } else {
      SurvivorsConcat(xs[1..], ys);
      assert (xs + ys)[1..] == xs[1..] + ys;
    }
  }

  lemma TextsLast(hs: seq<Header>, h: Header)
    ensures HeaderTexts(hs + [h]) == HeaderTexts(hs) + [HeaderText(h)]
  {
  }

  /** A request head written so far: the start line and some headers. */
  ghost function Head(req: Request, hs: seq<Header>): bytes {
    Unlines([StartText(req)] + HeaderTexts(hs))
  }

  lemma HeadGrows(req: Request, hs: seq<Header>, h: Header)
    ensures Head(req, hs + [h]) == Head(req, hs) + HeaderText(h) + CRLF
  {
    TextsLast(hs, h);
    var lines := [StartText(req)] + HeaderTexts(hs);
    assert [StartText(req)] + HeaderTexts(hs + [h]) == lines + [HeaderText(h)];
    UnlinesLast(lines, HeaderText(h));
  }

  lemma HeadStarts(req: Request)
    ensures Head(req, []) == StartText(req) + CRLF
  {
    assert [StartText(req)] + HeaderTexts([]) == [] + [StartText(req)];
    UnlinesLast([], StartText(req));
  }

  /** The headers of a request that go on, after what was written. */
  method WriteSurvivors(req: Request, os0: bytes, ghost first: seq<Header>) returns (ok: bool, os: bytes, sawContentLength: bool)
    requires os0 == Head(req, first)
    ensures ok == AllValid(Survivors(req.headers))
    ensures ok ==> os == Head(req, first + Survivors(req.headers)) && sawContentLength == AnyLength(Survivors(req.headers))
  {
    ok, os, sawContentLength := true, os0, false;
    ghost var kept: seq<Header> := [];
    assert first + kept == first;
    for i := 0 to |req.headers|
      invariant kept == Survivors(req.headers[..i]) && AllValid(kept)
      invariant os == Head(req, first + kept) && sawContentLength == AnyLength(kept)
    {
      var h := req.headers[i];
      KeptNext(req.headers, i, kept);
      if IsDropped(h) {
        continue;
      }
      if Lower(h.name) == CONTENT_LENGTH {
        sawContentLength := true;
      }
      var valid := ValidHeaderValue(h.value);
      if !valid {
        StillInvalid(req.headers, i, kept, h);
        return false, os, sawContentLength;
      }
      os := os + (h.name + [COLON, SP] + h.value) + CRLF;
      HeadGrows(req, first + kept, h);
      OneMore(first, kept, h);
      kept := kept + [h];
    }
    assert req.headers[..|req.headers|] == req.headers;
  }

  lemma KeptNext(hs: seq<Header>, i: nat, kept: seq<Header>)
    requires i < |hs| && kept == Survivors(hs[..i])
    ensures Survivors(hs[..i + 1]) == kept + if IsDropped(hs[i]) then [] else [hs[i]]
  {
    assert hs[..i + 1] == hs[..i] + [hs[i]];
    SurvivorsConcat(hs[..i], [hs[i]]);
  }

  lemma OneMore(first: seq<Header>, kept: seq<Header>, h: Header)
    ensures first + kept + [h] == first + (kept + [h])
    ensures AnyLength(kept + [h]) <==> AnyLength(kept) || IsLength(h)
    ensures AllValid(kept + [h]) <==> AllValid(kept) && ValidValue(h.value)
  {
    assert (kept + [h])[|kept|] == h;
    assert forall i | 0 <= i < |kept| :: (kept + [h])[i] == kept[i];
  }

  lemma StillInvalid(hs: seq<Header>, i: nat, kept: seq<Header>, h: Header)
    requires i < |hs| && Survivors(hs[..i + 1]) == kept + [h] && !ValidValue(h.value)
    ensures !AllValid(Survivors(hs))
  {
    assert hs == hs[..i + 1] + hs[i + 1..];
    SurvivorsConcat(hs[..i + 1], hs[i + 1..]);
    assert Survivors(hs)[|kept|] == h;
  }

  /** write_request: the whole head, or an error and nothing written. */
  method WriteRequest(buf: RingBuffer, req: Request, host: bytes) returns (ok: bool)
    requires buf.Valid()
    modifies buf, buf.data
    ensures buf.Valid() && (buf.data == old(buf.data) || fresh(buf.data))
    ensures ok == WrittenRequest(req, host).Some?
    ensures buf.Contents() == old(buf.Contents()) + if ok then WrittenRequest(req, host).value else []
  {
    var os := req.verb + [SP] + req.target + [SP] + req.version + CRLF;
    HeadStarts(req);
    ghost var first := [Header(HOST, host)];
    HeadGrows(req, [], first[0]);
    assert [] + first == first;
    os := os + (HOST + [COLON, SP] + host) + CRLF;
    var sawContentLength;
    ok, os, sawContentLength := WriteSurvivors(req, os, first);
    if !ok {
      return;
    }
    ghost var hs := first + Survivors(req.headers);
    if req.contentLength > 0 && !sawContentLength {
      var text := Printed(10, req.contentLength);
      os := os + (CONTENT_LENGTH_NAME + [COLON, SP] + text) + CRLF;
      HeadGrows(req, hs, Header(CONTENT_LENGTH_NAME, text));
      hs := hs + [Header(CONTENT_LENGTH_NAME, text)];
    }
    HeadGrows(req, hs, Header(VIA, VIA_VALUE));
    assert hs + [Header(VIA, VIA_VALUE)] == Forwarded(req, host);
    os := os + (VIA + [COLON, SP] + VIA_VALUE) + CRLF + CRLF;
    buf.Append(os);
  }

  /** parse_chunk_header: consumes the header and returns the size, or returns -1 and consumes nothing. */
  method ParseChunkHeader(buf: RingBuffer) returns (n: int)
    requires buf.Valid()
    modifies buf
    ensures buf.Valid() && buf.data == old(buf.data)
    ensures
      var r := ChunkHeader(old(buf.Contents()));
      if r.None? then n == -1 && buf.Contents() == old(buf.Contents())
      else n == r.value.0 && r.value.1 <= |old(buf.Contents())| && buf.Contents() == old(buf.Contents())[r.value.1..]
  {
    var sv := buf.Peek(Min(buf.Readable(), 128));
    var crlf := Find(sv, CRLF, 0);
    if crlf < 0 {
      return -1;
    }
    var hex := sv[..crlf];
    var semi := Find(hex, [SEMICOLON], 0);
    if semi >= 0 {
      hex := hex[..semi];
    }
    var size := Number(16, hex);
    if size.None? || size.value > 0x7fff_ffff_ffff_ffff {
      return -1;
    }
    buf.CommitRead(crlf + 2);
    return size.value;
  }

  /** write_chunk_header: 32 bytes always hold the text of a 64-bit size. */
  method WriteChunkHeader(buf: RingBuffer, size: nat) returns (ok: bool)
    requires buf.Valid() && size < UINT64
    modifies buf, buf.data
    ensures buf.Valid() && (buf.data == old(buf.data) || fresh(buf.data))
    ensures ok && buf.Contents() == old(buf.Contents()) + ChunkText(size)
  {
    var text := ChunkText(size);
    ChunkRoundTrip(size, []);
    if |text| >= 32 {
      assert false;
      return false;
    }
    buf.Append(text);
    return true;
  }
}
