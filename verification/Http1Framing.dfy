/** Parser and printer agree on where a request ends and what it says. */
module Http1Framing {
  import opened Bytes
  import opened Http1Text
  import opened Http1

  lemma WindowGrows(s: bytes, t: bytes) returns (more: bytes)
    ensures Window(s + t) == Window(s) + more
  {
    var w, w' := Window(s), Window(s + t);
    more := w'[|w|..];
    assert w'[..|w|] == w;
  }

  lemma HeadIsStable(s: bytes, t: bytes)
    requires Find(s, BLANK_LINE, 0) >= 0
    ensures ParseHead(s + t) == ParseHead(s)
  {
    FindStable(s, t, BLANK_LINE);
    var end := Find(s, BLANK_LINE, 0);
    assert (s + t)[..end + 2] == s[..end + 2];
  }

  /** Bytes that arrive after a complete head change nothing. */
  lemma CompleteIsStable(s: bytes, t: bytes)
    requires ParseRequest(s).Complete?
    ensures ParseRequest(s + t) == ParseRequest(s)
  {
    var more := WindowGrows(s, t);
    HeadIsStable(Window(s), more);
  }

  lemma {:induction false} TrimLeftOws(a: bytes, s: bytes)
    requires AllOws(a)
    ensures TrimLeft(a + s) == TrimLeft(s)
    decreases |a|
  {
    if a == [] {
      assert a + s == s;
    } else {
      assert (a + s)[1..] == a[1..] + s;
      TrimLeftOws(a[1..], s);
    }
  }

  lemma {:induction false} TrimRightOws(s: bytes, b: bytes)
    requires AllOws(b)
    ensures TrimRight(s + b) == TrimRight(s)
    decreases |b|
  {
    if b == [] {
      assert s + b == s;
    } else {
      assert (s + b)[..|s + b| - 1] == s + b[..|b| - 1];
      TrimRightOws(s, b[..|b| - 1]);
    }
  }

  /** White space around a trimmed text is all that trimming removes. */
  lemma TrimAround(a: bytes, v: bytes, b: bytes)
    requires AllOws(a) && AllOws(b) && Trimmed(v)
    ensures Trim(a + v + b) == v
  {
    assert a + v + b == a + (v + b);
    TrimLeftOws(a, v + b);
    if v == [] {
      assert v + b == b + [];
      TrimLeftOws(b, []);
    } else {
      assert TrimLeft(v + b) == v + b;
      TrimRightOws(v, b);
    }
  }

  /** name ":" OWS value OWS, section 5 of RFC 9112. */
  ghost predicate Spells(line: bytes, h: Header, before: bytes, after: bytes) {
    && line == h.name + [COLON] + (before + h.value + after)
    && ValidHeader(h) && Trimmed(h.value) && AllOws(before) && AllOws(after)
  }

  ghost predicate IsField(line: bytes, h: Header) {
    exists before, after :: Spells(line, h, before, after)
  }

  lemma TokenExcludes(s: bytes)
    requires AllToken(s)
    ensures COLON !in s && SP !in s && HTAB !in s && LF !in s && CR !in s
  {
  }

  lemma ValueExcludes(s: bytes)
    requires ValidValue(s)
    ensures LF !in s && CR !in s
  {
  }

  lemma SpelledIsHeader(line: bytes, h: Header, before: bytes, after: bytes)
    requires Spells(line, h, before, after)
    ensures HeaderLine(line) == Some(h)
  {
    TokenExcludes(h.name);
    var rest := before + h.value + after;
    FindByteAfter(h.name, COLON, rest);
    var colon := |h.name|;
    assert line[..colon] == h.name && line[colon + 1..] == rest;
    assert line[0] == h.name[0] && line[colon - 1] == h.name[colon - 1];
    TrimAround(before, h.value, after);
  }

  lemma HeaderIsSpelled(line: bytes, h: Header) returns (before: bytes, after: bytes)
    requires HeaderLine(line) == Some(h)
    ensures Spells(line, h, before, after)
  {
    var colon := Find(line, [COLON], 0);
    ByteFound(line, COLON, 0);
    var rest := line[colon + 1..];
    var i, j := TrimCuts(rest);
    before, after := rest[..i], rest[j..];
    CutThree(rest, i, j, h.value);
    CutOnce(line, colon, rest);
  }

  lemma CutThree(s: bytes, i: nat, j: nat, mid: bytes)
    requires i <= j <= |s| && mid == s[i..j]
    ensures s == s[..i] + mid + s[j..]
  {
  }

  lemma CutOnce(line: bytes, i: nat, rest: bytes)
    requires i < |line| && line[i] == COLON && rest == line[i + 1..]
    ensures line == line[..i] + [COLON] + rest
  {
  }

  /** A line is a header exactly if the grammar gives it. */
  lemma HeaderLineMeans(line: bytes, h: Header)
    ensures HeaderLine(line) == Some(h) <==> IsField(line, h)
  {
    if HeaderLine(line) == Some(h) {
      var before, after := HeaderIsSpelled(line, h);
      assert Spells(line, h, before, after);
    }
    if IsField(line, h) {
      var before, after :| Spells(line, h, before, after);
      SpelledIsHeader(line, h, before, after);
    }
  }

  lemma ByteFinds(s: bytes, b: byte, from: nat, r: nat)
    requires from <= r < |s| && s[r] == b && forall i | from <= i < r :: s[i] != b
    ensures Find(s, [b], from) == r
  {
    AtByte(s, b, r);
    forall i | from <= i < r
      ensures !At(s, [b], i)
    {
      AtByte(s, b, i);
    }
    FindIs(s, [b], from, r);
  }

  lemma ByteFound(s: bytes, b: byte, from: nat)
    ensures
      var r := Find(s, [b], from);
      if r < 0 then forall i | from <= i < |s| :: s[i] != b
      else r < |s| && s[r] == b && forall i | from <= i < r :: s[i] != b
  {
    var r := Find(s, [b], from);
    FindFirst(s, [b], from);
    AtByte(s, b, r);
    forall i | from <= i < (if r < 0 then |s| else r)
      ensures s[i] != b
    {
      AtByte(s, b, i);
    }
  }

  /** method SP request-target SP HTTP-version, section 3 of RFC 9112, where only the target may hold unusual bytes. */
  ghost predicate IsStart(line: bytes, st: Start) {
    ValidStart(st) && SP !in st.target && line == st.verb + [SP] + (st.target + [SP] + st.version)
  }

  /** A line is a start line exactly if the grammar gives it. */
  lemma StartLineMeans(line: bytes, st: Start)
    ensures StartLine(line) == Some(st) <==> IsStart(line, st)
  {
    if StartLine(line) == Some(st) {
      StartIsSpelled(line, st);
    }
    if IsStart(line, st) {
      SpelledIsStart(line, st);
    }
  }

  lemma SpacesOf(line: bytes, st: Start)
    requires ValidStart(st) && SP !in st.target && line == st.verb + [SP] + (st.target + [SP] + st.version)
    ensures
      var sp1, sp2 := |st.verb|, |st.verb| + 1 + |st.target|;
      && sp2 < |line| && forall i | 0 <= i < |line| :: line[i] == SP <==> i == sp1 || i == sp2
  {
    TokenExcludes(st.verb);
    assert SP !in st.version;
  }

  lemma PartsOf(a: bytes, b: bytes, c: bytes, line: bytes, i: nat, j: nat)
    requires line == a + [SP] + (b + [SP] + c) && i == |a| && j == i + 1 + |b|
    ensures line[..i] == a && line[i + 1..j] == b && line[j + 1..] == c
  {
  }

  lemma SpelledIsStart(line: bytes, st: Start)
    requires ValidStart(st) && SP !in st.target && line == st.verb + [SP] + (st.target + [SP] + st.version)
    ensures StartLine(line) == Some(st)
  {
    var sp1, sp2 := |st.verb|, |st.verb| + 1 + |st.target|;
    var p1, p2 := sp1 + 1, sp2 + 1;
    SpacesFound(line, st, sp1, sp2, p1, p2);
    StartLineIs(line, sp1, sp2, p1, p2);
    PartsOf(st.verb, st.target, st.version, line, sp1, sp2);
  }

  lemma StartLineIs(line: bytes, sp1: nat, sp2: nat, p1: nat, p2: nat)
    requires Find(line, [SP], 0) == sp1 && Find(line, [SP], p1) == sp2 && Find(line, [SP], p2) < 0
    requires p1 == sp1 + 1 && p2 == sp2 + 1 && sp1 < sp2 < |line|
    ensures StartLine(line) == Checked(Cut(line, sp1, sp2))
  {
    assert p1 == Find(line, [SP], 0) + 1 && p2 == Find(line, [SP], p1) + 1;
  }

  lemma StartLineFound(line: bytes) returns (sp1: nat, sp2: nat)
    requires StartLine(line).Some?
    ensures sp1 < sp2 < |line| && StartLine(line) == Checked(Cut(line, sp1, sp2))
    ensures line[sp1] == SP && line[sp2] == SP && forall k | sp1 < k < sp2 :: line[k] != SP
  {
    sp1 := Find(line, [SP], 0);
    var from := sp1 + 1;
    sp2 := Find(line, [SP], from);
    ByteFound(line, SP, 0);
    ByteFound(line, SP, from);
  }

  lemma SpacesFound(line: bytes, st: Start, sp1: nat, sp2: nat, p1: nat, p2: nat)
    requires ValidStart(st) && SP !in st.target && line == st.verb + [SP] + (st.target + [SP] + st.version)
    requires sp1 == |st.verb| && sp2 == |st.verb| + 1 + |st.target| && p1 == sp1 + 1 && p2 == sp2 + 1
    ensures Find(line, [SP], 0) == sp1 && Find(line, [SP], p1) == sp2 && Find(line, [SP], p2) < 0
  {
    SpacesOf(line, st);
    ByteFinds(line, SP, 0, sp1);
    ByteFinds(line, SP, p1, sp2);
    ByteFound(line, SP, p2);
  }

  lemma StartIsSpelled(line: bytes, st: Start)
    requires StartLine(line) == Some(st)
    ensures ValidStart(st) && SP !in st.target && line == st.verb + [SP] + (st.target + [SP] + st.version)
  {
    var sp1, sp2 := StartLineFound(line);
    CutTwice(line, sp1, sp2);
  }

  lemma CutTwice(line: bytes, i: nat, j: nat)
    requires i < j < |line| && line[i] == SP && line[j] == SP && forall k | i < k < j :: line[k] != SP
    ensures line == line[..i] + [SP] + (line[i + 1..j] + [SP] + line[j + 1..]) && SP !in line[i + 1..j]
  {
  }

  /** A head written as lines parses as those lines. */
  lemma ParseOfLines(lines: seq<bytes>, s: bytes)
    requires lines != [] && Plain(lines) && NonEmpty(lines) && s == Unlines(lines) + CRLF && |s| <= MAX_HEAD
    ensures ParseRequest(s) == ParseLines(lines, |s|)
  {
    var block, end := Unlines(lines), Find(s, BLANK_LINE, 0);
    BlankAfterLines(lines);
    UnlinesPaired(lines);
    LinesOfUnlines(lines);
    assert s[..end + 2] == block;
    assert Window(s) == s;
    assert end + 4 == |s|;
  }

  lemma EmptyStart()
    ensures StartLine([]).None?
  {
  }

  /** The lines of a complete head, up to the first blank line. */
  lemma HeadLines(s: bytes) returns (lines: seq<bytes>)
    requires ParseHead(s).Complete?
    ensures lines != [] && Plain(lines) && NonEmpty(lines)
    ensures
      var n := Find(s, BLANK_LINE, 0) + 4;
      n >= 4 && s[..n] == Unlines(lines) + CRLF && ParseHead(s) == ParseLines(lines, n)
  {
    var end := Find(s, BLANK_LINE, 0);
    FindFirst(s, BLANK_LINE, 0);
    var block := s[..end + 2];
    lines := Lines(block);
    BlockHasLines(s, end);
    BlockIsWhole(s, end);
    UnlinesOfLines(block);
    NoEmptyLines(block);
    EmptyStart();
    BlockAndBlank(s, end, block);
  }

  lemma BlockAndBlank(s: bytes, end: nat, block: bytes)
    requires At(s, BLANK_LINE, end) && block == s[..end + 2]
    ensures s[..end + 4] == block + CRLF
  {
    AtBlank(s, end);
    AtCrlf(s, end + 2);
  }

  lemma BlockIsWhole(s: bytes, end: nat)
    requires At(s, BLANK_LINE, end) && NoneIn(s, BLANK_LINE, 0, end)
    ensures Ended(s[..end + 2]) && NoneIn(s[..end + 2], BLANK_LINE, 0, end + 2)
  {
    var block, rest := s[..end + 2], s[end + 2..];
    assert s == block + rest;
    AtBlank(s, end);
    AtPrefix(block, rest, CRLF, end);
    forall i | 0 <= i < end + 2
      ensures !At(block, BLANK_LINE, i)
    {
      if i + 4 <= end + 2 {
        AtPrefix(block, rest, BLANK_LINE, i);
      }
    }
  }

  lemma {:induction false} LinesGive(lines: seq<bytes>, hs: seq<Header>)
    requires |lines| == |hs| && forall i | 0 <= i < |hs| :: HeaderLine(lines[i]) == Some(hs[i])
    ensures HeaderLines(lines) == Some(hs)
    decreases |lines|
  {
    if lines != [] {
      LinesGive(lines[1..], hs[1..]);
      assert hs == [hs[0]] + hs[1..];
    }
  }

  lemma {:induction false} HeaderLinesEach(lines: seq<bytes>, hs: seq<Header>)
    requires HeaderLines(lines) == Some(hs)
    ensures |hs| == |lines| && forall i | 0 <= i < |hs| :: HeaderLine(lines[i]) == Some(hs[i])
    decreases |lines|
  {
    if lines != [] {
      HeaderLinesEach(lines[1..], hs[1..]);
      forall i | 0 <= i < |hs|
        ensures HeaderLine(lines[i]) == Some(hs[i])
      {
        if i > 0 {
          assert lines[1..][i - 1] == lines[i] && hs[1..][i - 1] == hs[i];
        }
      }
    }
  }

  /** What the headers say, taken together: all lengths are one number, and the flags are what any header says. */
  ghost predicate Sums(a: Acc, hs: seq<Header>, b: Acc) {
    && b.headers == a.headers + hs && (|a.headers| <= MAX_HEADERS ==> |b.headers| <= MAX_HEADERS)
    && (forall i | 0 <= i < |hs| && IsLength(hs[i]) :: Number(10, hs[i].value) == b.length && b.length.Some?)
    && (a.length.Some? ==> b.length == a.length)
    && (!AnyLength(hs) ==> b.length == a.length)
    && (b.chunked <==> a.chunked || exists i | 0 <= i < |hs| :: IsChunked(hs[i]))
    && (b.keepAlive <==> a.keepAlive && !exists i | 0 <= i < |hs| :: IsClose(hs[i]))
  }

  lemma {:induction false} TakeAllSums(a: Acc, hs: seq<Header>, b: Acc)
    requires TakeAll(a, hs) == Some(b)
    ensures Sums(a, hs, b)
    decreases |hs|
  {
    if hs != [] {
      var a' := Take(a, hs[0]).value;
      TakeAllSums(a', hs[1..], b);
      SumsStep(a, a', hs, b);
    }
  }

  lemma SumsStep(a: Acc, a': Acc, hs: seq<Header>, b: Acc)
    requires hs != [] && Take(a, hs[0]) == Some(a') && Sums(a', hs[1..], b)
    ensures Sums(a, hs, b)
  {
    var tail := hs[1..];
    assert a.headers + hs == a.headers + [hs[0]] + tail;
    assert forall i | 0 < i < |hs| :: hs[i] == tail[i - 1];
    FlagsStep(hs);
  }

  lemma FlagsStep(hs: seq<Header>)
    requires hs != []
    ensures AnyLength(hs) <==> IsLength(hs[0]) || AnyLength(hs[1..])
    ensures (exists i | 0 <= i < |hs| :: IsChunked(hs[i])) <==>
            IsChunked(hs[0]) || exists i | 0 <= i < |hs[1..]| :: IsChunked(hs[1..][i])
    ensures (exists i | 0 <= i < |hs| :: IsClose(hs[i])) <==>
            IsClose(hs[0]) || exists i | 0 <= i < |hs[1..]| :: IsClose(hs[1..][i])
  {
    var tail := hs[1..];
    assert forall i | 0 < i < |hs| :: hs[i] == tail[i - 1];
    assert forall i | 0 <= i < |tail| :: tail[i] == hs[i + 1];
  }

  /** What is known of a request that came out of the parser. */
  ghost predicate WellFormed(req: Request) {
    && ValidStart(Start(req.verb, req.target, req.version)) && SP !in req.target && LF !in req.target
    && (forall h | h in req.headers :: ValidHeader(h) && Trimmed(h.value))
    && exists a ::
         && TakeAll(NoHeaders(req.version), req.headers) == Some(a)
         && !(a.chunked && a.length.Some?)
         && req == Parsed(Start(req.verb, req.target, req.version), a, req.headerBytes)
  }

  /** All Content-Length values are the request's length, zero without one; a chunked request has none; close ends keep-alive. */
  ghost predicate Agrees(req: Request) {
    && (forall h | h in req.headers && IsLength(h) :: Number(10, h.value) == Some(req.contentLength))
    && (!AnyLength(req.headers) ==> req.contentLength == 0)
    && (req.chunked <==> exists i | 0 <= i < |req.headers| :: IsChunked(req.headers[i]))
    && !(req.chunked && AnyLength(req.headers))
    && (req.keepAlive <==> req.version == HTTP_1_1 && !exists i | 0 <= i < |req.headers| :: IsClose(req.headers[i]))
    && |req.headers| <= MAX_HEADERS
  }

  lemma ParsedAgrees(start: Start, hs: seq<Header>, a: Acc, size: nat)
    requires TakeAll(NoHeaders(start.version), hs) == Some(a) && !(a.chunked && a.length.Some?)
    ensures Agrees(Parsed(start, a, size)) && a.headers == hs
  {
    TakeAllSums(NoHeaders(start.version), hs, a);
    assert [] + hs == hs;
    assert a.headers == hs;
    forall h | h in hs && IsLength(h)
      ensures a.length.Some? && Number(10, h.value) == a.length
    {
      var i :| 0 <= i < |hs| && hs[i] == h;
    }
    if AnyLength(hs) {
      var i :| 0 <= i < |hs| && IsLength(hs[i]);
      assert hs[i] in hs;
    }
  }

  /** The lines of a request in the grammar of RFC 9112: a start line, and one line for each header, in order. */
  ghost predicate IsHead(lines: seq<bytes>, req: Request) {
    && Plain(lines) && NonEmpty(lines)
    && |lines| == 1 + |req.headers| && IsStart(lines[0], Start(req.verb, req.target, req.version))
    && forall i | 0 <= i < |req.headers| :: IsField(lines[i + 1], req.headers[i])
  }

  lemma LinesMean(lines: seq<bytes>, size: nat, req: Request)
    requires lines != [] && Plain(lines) && NonEmpty(lines) && ParseLines(lines, size) == Complete(req)
    ensures req.headerBytes == size && IsHead(lines, req) && Agrees(req) && WellFormed(req)
  {
    var start, hs := StartLine(lines[0]).value, HeaderLines(lines[1..]).value;
    var a := TakeAll(NoHeaders(start.version), hs).value;
    ParsedAgrees(start, hs, a, size);
    HeaderLinesEach(lines[1..], hs);
    StartIsSpelled(lines[0], start);
    HeadersGood(lines[1..], hs);
    FieldsRead(lines, hs);
    assert req == Parsed(start, a, size);
  }

  lemma FieldsRead(lines: seq<bytes>, hs: seq<Header>)
    requires |lines| == 1 + |hs|
    ensures (forall i | 0 <= i < |hs| :: HeaderLine(lines[1..][i]) == Some(hs[i])) <==>
            (forall i | 0 <= i < |hs| :: IsField(lines[i + 1], hs[i]))
  {
    forall i | 0 <= i < |hs|
      ensures HeaderLine(lines[1..][i]) == Some(hs[i]) <==> IsField(lines[i + 1], hs[i])
    {
      HeaderLineMeans(lines[i + 1], hs[i]);
    }
    if forall i | 0 <= i < |hs| :: IsField(lines[i + 1], hs[i]) {
      forall i | 0 <= i < |hs|
        ensures HeaderLine(lines[1..][i]) == Some(hs[i])
      {
        assert IsField(lines[i + 1], hs[i]);
      }
    }
  }

  lemma HeadersGood(lines: seq<bytes>, hs: seq<Header>)
    requires |lines| == |hs| && forall i | 0 <= i < |hs| :: HeaderLine(lines[i]) == Some(hs[i])
    ensures forall h | h in hs :: ValidHeader(h) && Trimmed(h.value)
  {
    forall h | h in hs
      ensures ValidHeader(h) && Trimmed(h.value)
    {
      var i :| 0 <= i < |hs| && hs[i] == h;
      var _, _ := HeaderIsSpelled(lines[i], h);
    }
  }

  /**
   A complete head ends at the first blank line and is nothing but its lines: a start line and one line for each header, in
   order. Every Content-Length is the request's length, which is zero without one, and a chunked request has none.
   */
  lemma CompleteMeans(s: bytes, req: Request) returns (lines: seq<bytes>)
    requires ParseRequest(s) == Complete(req)
    ensures 4 <= req.headerBytes <= |s| && req.headerBytes == Find(s, BLANK_LINE, 0) + 4
    ensures s[..req.headerBytes] == Unlines(lines) + CRLF
    ensures IsHead(lines, req) && Agrees(req) && WellFormed(req)
  {
    var w := Window(s);
    lines := HeadLines(w);
    var n := Find(w, BLANK_LINE, 0) + 4;
    LinesMean(lines, n, req);
    FoundInWindow(s, w, n);
  }

  lemma FoundInWindow(s: bytes, w: bytes, n: nat)
    requires w == Window(s) && n >= 4 && n == Find(w, BLANK_LINE, 0) + 4
    ensures n <= |s| && Find(s, BLANK_LINE, 0) + 4 == n && s[..n] == w[..n]
  {
    assert s == w + s[|w|..];
    FindStable(w, s[|w|..], BLANK_LINE);
  }

  /** Headers whose lengths are all n are taken, up to the limit on their number. */
  lemma {:induction false} AgreeingTaken(a: Acc, hs: seq<Header>, n: nat)
    requires |a.headers| + |hs| <= MAX_HEADERS && (a.length.Some? ==> a.length == Some(n))
    requires forall i | 0 <= i < |hs| && IsLength(hs[i]) :: Number(10, hs[i].value) == Some(n)
    ensures TakeAll(a, hs).Some?
    decreases |hs|
  {
    if hs != [] {
      AgreeingTaken(Take(a, hs[0]).value, hs[1..], n);
    }
  }

  /** The lines of a request at the front of the input. */
  ghost predicate Denotes(lines: seq<bytes>, s: bytes, req: Request) {
    && IsHead(lines, req) && Agrees(req)
    && Unlines(lines) + CRLF <= s && req.headerBytes == |Unlines(lines)| + 2 <= MAX_HEAD
  }

  lemma DenotedIsParsed(lines: seq<bytes>, s: bytes, req: Request)
    requires Denotes(lines, s, req)
    ensures ParseRequest(s) == Complete(req)
  {
    var head := Unlines(lines) + CRLF;
    var st := Start(req.verb, req.target, req.version);
    DenotedLines(lines, req, st);
    ParseOfLines(lines, head);
    var rest := Behind(head, s);
    CompleteIsStable(head, rest);
  }

  lemma Behind(head: bytes, s: bytes) returns (rest: bytes)
    requires head <= s
    ensures s == head + rest
  {
    rest := s[|head|..];
  }

  lemma DenotedLines(lines: seq<bytes>, req: Request, st: Start)
    requires IsHead(lines, req) && Agrees(req) && st == Start(req.verb, req.target, req.version)
    ensures ParseLines(lines, req.headerBytes) == Complete(req)
  {
    StartLineMeans(lines[0], st);
    FieldsRead(lines, req.headers);
    LinesGive(lines[1..], req.headers);
    AgreesIsParsed(req, st);
  }

  lemma AgreesIsParsed(req: Request, st: Start)
    requires Agrees(req) && st == Start(req.verb, req.target, req.version)
    ensures
      var a := TakeAll(NoHeaders(st.version), req.headers);
      a.Some? && !(a.value.chunked && a.value.length.Some?) && req == Parsed(st, a.value, req.headerBytes)
  {
    var hs := req.headers;
    AgreeingTaken(NoHeaders(st.version), hs, req.contentLength);
    var a := TakeAll(NoHeaders(st.version), hs).value;
    TakeAllSums(NoHeaders(st.version), hs, a);
    if AnyLength(hs) {
      var i :| 0 <= i < |hs| && IsLength(hs[i]);
      assert Number(10, hs[i].value) == a.length;
    }
    assert [] + hs == hs;
  }

  lemma WithinLimit(s: bytes, req: Request)
    requires ParseRequest(s) == Complete(req)
    ensures req.headerBytes <= MAX_HEAD
  {
  }

  /** The parser accepts exactly the heads the grammar gives, and returns exactly the request they spell. */
  lemma CompleteIff(s: bytes, req: Request)
    ensures ParseRequest(s) == Complete(req) <==> exists lines :: Denotes(lines, s, req)
  {
    if ParseRequest(s) == Complete(req) {
      var lines := CompleteMeans(s, req);
      WithinLimit(s, req);
      assert Denotes(lines, s, req);
    }
    if exists lines :: Denotes(lines, s, req) {
      var lines :| Denotes(lines, s, req);
      DenotedIsParsed(lines, s, req);
    }
  }

  /**
   What a head that has not arrived whole parses as: it is refused as soon as its first line end has arrived, and only then
   asked to wait.
   */
  lemma PartOfComplete(s: bytes, req: Request, k: nat)
    requires ParseRequest(s) == Complete(req) && k < req.headerBytes
    ensures k <= |s| && ParseRequest(s[..k]) == if LF in s[..k] then Error else Incomplete
  {
    var _ := CompleteMeans(s, req);
    var part := s[..k];
    assert s == part + s[k..];
    if Find(part, BLANK_LINE, 0) >= 0 {
      FindStable(part, s[k..], BLANK_LINE);
    }
    assert Window(part) == part;
  }

  /** A start line alone is a request. */
  lemma BareRequest(st: Start, line: bytes, s: bytes)
    requires StartLine(line) == Some(st) && LF !in line && 0 < |line| < MAX_HEAD - 4 && s == line + CRLF + CRLF
    ensures ParseRequest(s).Complete? && ParseRequest(s).req.headerBytes == |line| + 4
  {
    var lines := [line];
    assert Unlines(lines) == line + CRLF by {
      assert lines[1..] == [];
    }
    assert HeaderLines(lines[1..]) == Some([]);
    ParseOfLines(lines, s);
  }

  /** So cutting a good request in two can make the parser refuse it. */
  lemma CutRequestRefused()
    ensures
      var s := Ascii("GET") + [SP] + (Ascii("/") + [SP] + HTTP_1_1) + CRLF + CRLF;
      ParseRequest(s).Complete? && ParseRequest(s[..16]) == Error
  {
    var st := Start(Ascii("GET"), Ascii("/"), HTTP_1_1);
    var line := st.verb + [SP] + (st.target + [SP] + st.version);
    var s := line + CRLF + CRLF;
    SmallStart(st, line);
    SpelledIsStart(line, st);
    BareRequest(st, line, s);
    PartOfComplete(s, ParseRequest(s).req, 16);
    assert s[..16][15] == LF;
  }

  lemma SmallStart(st: Start, line: bytes)
    requires st == Start(Ascii("GET"), Ascii("/"), HTTP_1_1) && line == st.verb + [SP] + (st.target + [SP] + st.version)
    ensures ValidStart(st) && SP !in st.target && LF !in line && |line| == 14
  {
    TokenExcludes(st.verb);
    assert LF !in st.target && LF !in st.version;
  }
}
