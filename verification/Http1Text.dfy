/** Searching, trimming, splitting into lines and reading numbers: the text operations src/http1.cpp is made of. */
module Http1Text {
  import opened Bytes

  const CR: byte := 13
  const LF: byte := 10
  const SP: byte := 32
  const HTAB: byte := 9
  const COLON: byte := 58
  const SEMICOLON: byte := 59
  const CRLF: bytes := [13, 10]
  const BLANK_LINE: bytes := [13, 10, 13, 10]

  predicate At(s: bytes, p: bytes, i: int) {
    0 <= i && i + |p| <= |s| && s[i..i + |p|] == p
  }

  ghost predicate NoneIn(s: bytes, p: bytes, from: int, to: int) {
    forall i | from <= i < to :: !At(s, p, i)
  }

  /** The first place of p at or after from, -1 for none. */
  function Find(s: bytes, p: bytes, from: nat): (r: int)
    ensures r == -1 || from <= r <= |s| - |p|
    decreases |s| - from
  {
    if from + |p| > |s| then -1
    else if At(s, p, from) then from
    else if from == |s| then -1
    else Find(s, p, from + 1)
  }

  predicate Contains(s: bytes, p: bytes) {
    Find(s, p, 0) >= 0
  }

  lemma {:induction false} FindFirst(s: bytes, p: bytes, from: nat)
    ensures
      var r := Find(s, p, from);
      if r < 0 then NoneIn(s, p, from, |s| + 1) else At(s, p, r) && NoneIn(s, p, from, r)
    decreases |s| - from
  {
    if from + |p| <= |s| && !At(s, p, from) && from < |s| {
      FindFirst(s, p, from + 1);
    }
  }

  lemma {:induction false} FindIs(s: bytes, p: bytes, from: nat, r: nat)
    requires from <= r && At(s, p, r) && NoneIn(s, p, from, r)
    ensures Find(s, p, from) == r
    decreases r - from
  {
    if from < r {
      assert !At(s, p, from);
      FindIs(s, p, from + 1, r);
    }
  }

  /** A find that succeeds is not changed by what follows. */
  lemma FindStable(s: bytes, t: bytes, p: bytes)
    requires Find(s, p, 0) >= 0
    ensures Find(s + t, p, 0) == Find(s, p, 0)
  {
    var r := Find(s, p, 0);
    FindFirst(s, p, 0);
    AtPrefix(s, t, p, r);
    forall i | 0 <= i < r
      ensures !At(s + t, p, i)
    {
      AtPrefix(s, t, p, i);
    }
    FindIs(s + t, p, 0, r);
  }

  lemma AtPrefix(s: bytes, t: bytes, p: bytes, i: int)
    requires 0 <= i && i + |p| <= |s|
    ensures At(s + t, p, i) <==> At(s, p, i)
  {
    assert (s + t)[i..i + |p|] == s[i..i + |p|];
  }

  lemma AtSuffix(s: bytes, t: bytes, p: bytes, i: int)
    requires 0 <= i
    ensures At(s + t, p, |s| + i) <==> At(t, p, i)
  {
    if i + |p| <= |t| {
      assert (s + t)[|s| + i..|s| + i + |p|] == t[i..i + |p|];
    }
  }

  /** Where nothing starts in s, the search in s + t is the search in t. */
  lemma FindLater(s: bytes, t: bytes, p: bytes)
    requires NoneIn(s + t, p, 0, |s|)
    ensures Find(s + t, p, 0) == if Find(t, p, 0) < 0 then -1 else |s| + Find(t, p, 0)
  {
    var r := Find(t, p, 0);
    FindFirst(t, p, 0);
    if r >= 0 {
      FoundLater(s, t, p, r);
    } else {
      FindFirst(s + t, p, 0);
      var r' := Find(s + t, p, 0);
      if r' >= 0 {
        AtSuffix(s, t, p, r' - |s|);
      }
    }
  }

  lemma FoundLater(s: bytes, t: bytes, p: bytes, r: nat)
    requires NoneIn(s + t, p, 0, |s|) && At(t, p, r) && NoneIn(t, p, 0, r)
    ensures Find(s + t, p, 0) == |s| + r
  {
    var all, at := s + t, |s| + r;
    AtSuffix(s, t, p, r);
    forall i | 0 <= i < at
      ensures !At(all, p, i)
    {
      if i >= |s| {
        AtSuffix(s, t, p, i - |s|);
      }
    }
    FindIs(all, p, 0, at);
  }

  lemma AtCrlf(s: bytes, i: int)
    ensures At(s, CRLF, i) <==> 0 <= i && i + 1 < |s| && s[i] == CR && s[i + 1] == LF
  {
    if 0 <= i && i + 1 < |s| {
      assert s[i..i + 2] == [s[i], s[i + 1]];
    }
  }

  lemma AtByte(s: bytes, b: byte, i: int)
    ensures At(s, [b], i) <==> 0 <= i < |s| && s[i] == b
  {
    if 0 <= i < |s| {
      assert s[i..i + 1] == [s[i]];
    }
  }

  lemma AtBlank(s: bytes, i: int)
    ensures At(s, BLANK_LINE, i) <==> At(s, CRLF, i) && At(s, CRLF, i + 2)
  {
    AtCrlf(s, i);
    AtCrlf(s, i + 2);
    if 0 <= i && i + 3 < |s| {
      assert s[i..i + 4] == [s[i], s[i + 1], s[i + 2], s[i + 3]];
    }
  }

  /** The first b after text without b. */
  lemma FindByteAfter(s: bytes, b: byte, t: bytes)
    requires b !in s
    ensures Find(s + [b] + t, [b], 0) == |s|
  {
    var all := s + [b] + t;
    forall i | 0 <= i < |s|
      ensures !At(all, [b], i)
    {
      AtByte(all, b, i);
    }
    AtByte(all, b, |s|);
    FindIs(all, [b], 0, |s|);
  }

  lemma FindByteNone(s: bytes, b: byte)
    ensures Find(s, [b], 0) < 0 <==> b !in s
  {
    FindFirst(s, [b], 0);
    if Find(s, [b], 0) >= 0 {
      AtByte(s, b, Find(s, [b], 0));
    } else if b in s {
      var i :| 0 <= i < |s| && s[i] == b;
      AtByte(s, b, i);
    }
  }

  /** Lines, each followed by CRLF. */
  function Unlines(lines: seq<bytes>): bytes {
    if lines == [] then [] else lines[0] + CRLF + Unlines(lines[1..])
  }

  /** The lines of a block; what follows its last CRLF is not a line. */
  function Lines(s: bytes): seq<bytes>
    decreases |s|
  {
    var e := Find(s, CRLF, 0);
    if e < 0 then [] else [s[..e]] + Lines(s[e + 2..])
  }

  /** No line holds a line feed, so none holds the separator. */
  ghost predicate Plain(lines: seq<bytes>) {
    forall i | 0 <= i < |lines| :: LF !in lines[i]
  }

  ghost predicate NonEmpty(lines: seq<bytes>) {
    forall i | 0 <= i < |lines| :: lines[i] != []
  }

  lemma FirstLine(line: bytes, rest: bytes)
    requires LF !in line
    ensures Find(line + CRLF + rest, CRLF, 0) == |line|
    ensures (line + CRLF + rest)[..|line|] == line && (line + CRLF + rest)[|line| + 2..] == rest
  {
    var s := line + CRLF + rest;
    forall i | 0 <= i < |line|
      ensures !At(s, CRLF, i)
    {
      AtCrlf(s, i);
      assert s[i + 1] == if i + 1 < |line| then line[i + 1] else CR;
    }
    AtCrlf(s, |line|);
    FindIs(s, CRLF, 0, |line|);
  }

  /** Splitting undoes joining. */
  lemma {:induction false} LinesOfUnlines(lines: seq<bytes>)
    requires Plain(lines)
    ensures Lines(Unlines(lines)) == lines
    decreases |lines|
  {
    if lines != [] {
      FirstLine(lines[0], Unlines(lines[1..]));
      LinesOfUnlines(lines[1..]);
      assert lines == [lines[0]] + lines[1..];
    }
  }

  predicate LfAfterCr(s: bytes, i: nat)
    requires i < |s|
  {
    s[i] == LF ==> i > 0 && s[i - 1] == CR
  }

  /** Every line feed follows a carriage return. */
  ghost predicate Paired(s: bytes) {
    forall i | 0 <= i < |s| :: LfAfterCr(s, i)
  }

  ghost predicate Ended(s: bytes) {
    s == [] || At(s, CRLF, |s| - 2)
  }

  /** One line off the front of a block. */
  lemma BlockStep(s: bytes)
    requires s != [] && Ended(s) && Paired(s)
    ensures
      var e := Find(s, CRLF, 0);
      && e >= 0 && LF !in s[..e] && s == s[..e] + CRLF + s[e + 2..] && Paired(s[e + 2..]) && Ended(s[e + 2..])
  {
    FindFirst(s, CRLF, 0);
    var e := Find(s, CRLF, 0);
    AtCrlf(s, e);
    AtCrlf(s, |s| - 2);
    forall j | 0 <= j < e
      ensures s[j] != LF
    {
      assert LfAfterCr(s, j);
      AtCrlf(s, j - 1);
    }
    BlockRest(s, e + 2, s[e + 2..]);
  }

  lemma BlockRest(s: bytes, k: nat, rest: bytes)
    requires 0 < k <= |s| && rest == s[k..] && s[k - 1] == LF && Paired(s) && At(s, CRLF, |s| - 2)
    ensures Paired(rest) && Ended(rest)
  {
    AtCrlf(s, |s| - 2);
    forall i | 0 <= i < |rest|
      ensures LfAfterCr(rest, i)
    {
      assert LfAfterCr(s, k + i);
    }
    if rest != [] {
      AtCrlf(rest, |rest| - 2);
      assert LfAfterCr(rest, 0);
    }
  }

  /** Joining undoes splitting, for a block of paired line ends. */
  lemma {:induction false} UnlinesOfLines(s: bytes)
    requires Ended(s) && Paired(s)
    ensures Unlines(Lines(s)) == s && Plain(Lines(s))
    decreases |s|
  {
    if s != [] {
      BlockStep(s);
      var e := Find(s, CRLF, 0);
      UnlinesOfLines(s[e + 2..]);
    }
  }

  /** A block without an empty line inside gives lines of which only the first may be empty. */
  lemma {:induction false} NoEmptyLines(s: bytes)
    requires Ended(s) && Paired(s) && NoneIn(s, BLANK_LINE, 0, |s|)
    ensures forall i | 0 <= i < |Lines(s)| :: Lines(s)[i] != [] || (i == 0 && At(s, CRLF, 0))
    decreases |s|
  {
    if s != [] {
      BlockStep(s);
      var e := Find(s, CRLF, 0);
      var rest := s[e + 2..];
      var head := s[..e] + CRLF;
      assert s == head + rest;
      forall i | 0 <= i < |rest|
        ensures !At(rest, BLANK_LINE, i)
      {
        AtSuffix(head, rest, BLANK_LINE, i);
      }
      NoEmptyLines(rest);
      FindFirst(s, CRLF, 0);
      AtBlank(s, e);
      AtSuffix(head, rest, CRLF, 0);
    }
  }

  lemma {:induction false} UnlinesPaired(lines: seq<bytes>)
    requires Plain(lines)
    ensures Paired(Unlines(lines)) && Ended(Unlines(lines)) && |Unlines(lines)| >= 2 * |lines|
    decreases |lines|
  {
    if lines != [] {
      UnlinesPaired(lines[1..]);
      PairedJoin(lines[0], Unlines(lines[1..]));
    }
  }

  lemma PairedJoin(line: bytes, rest: bytes)
    requires LF !in line && Paired(rest) && Ended(rest)
    ensures Paired(line + CRLF + rest) && Ended(line + CRLF + rest)
  {
    var s := line + CRLF + rest;
    forall i | 0 <= i < |s|
      ensures LfAfterCr(s, i)
    {
      if i >= |line| + 2 {
        assert LfAfterCr(rest, i - |line| - 2);
      }
    }
    AtCrlf(s, |s| - 2);
    AtCrlf(rest, |rest| - 2);
  }

  /** The blank line after plain, non-empty lines is found at their end and nowhere before. */
  lemma {:induction false} BlankAfterLines(lines: seq<bytes>)
    requires lines != [] && Plain(lines) && NonEmpty(lines)
    ensures |Unlines(lines)| >= 2 && Find(Unlines(lines) + CRLF, BLANK_LINE, 0) == |Unlines(lines)| - 2
    decreases |lines|
  {
    var line, rest := lines[0], Unlines(lines[1..]) + CRLF;
    var s := Unlines(lines) + CRLF;
    assert s == line + CRLF + rest;
    if |lines| == 1 {
      assert rest == CRLF;
      NoBlankBefore(line, rest, |line|);
      assert s[|line|..|line| + 4] == BLANK_LINE;
      FindIs(s, BLANK_LINE, 0, |line|);
    } else {
      BlankAfterLines(lines[1..]);
      assert rest[1] != LF by {
        var next := lines[1..][0];
        assert rest == next + CRLF + (Unlines(lines[1..][1..]) + CRLF);
        assert |next| > 0 && LF !in next;
      }
      NoBlankBefore(line, rest, |line| + 2);
      FindLater(line + CRLF, rest, BLANK_LINE);
    }
  }

  lemma NoBlankBefore(line: bytes, rest: bytes, n: nat)
    requires LF !in line && |rest| > 1
    requires n == |line| || (n == |line| + 2 && rest[1] != LF)
    ensures NoneIn(line + CRLF + rest, BLANK_LINE, 0, n)
  {
    var s := line + CRLF + rest;
    forall i | 0 <= i < n
      ensures !At(s, BLANK_LINE, i)
    {
      AtBlank(s, i);
      AtCrlf(s, i);
      AtCrlf(s, i + 2);
      if i < |line| {
        assert s[i + 1] == if i + 1 < |line| then line[i + 1] else CR;
      } else {
        assert s[|line| + 1] == LF && s[|line| + 3] == rest[1];
      }
    }
  }

  predicate IsOws(b: byte) {
    b == SP || b == HTAB
  }

  function TrimLeft(s: bytes): (r: bytes)
    ensures |r| <= |s|
    decreases |s|
  {
    if s != [] && IsOws(s[0]) then TrimLeft(s[1..]) else s
  }

  function TrimRight(s: bytes): (r: bytes)
    ensures |r| <= |s|
    decreases |s|
  {
    if s != [] && IsOws(s[|s| - 1]) then TrimRight(s[..|s| - 1]) else s
  }

  function Trim(s: bytes): bytes {
    TrimRight(TrimLeft(s))
  }

  ghost predicate Trimmed(s: bytes) {
    s == [] || (!IsOws(s[0]) && !IsOws(s[|s| - 1]))
  }

  ghost predicate AllOws(s: bytes) {
    forall i | 0 <= i < |s| :: IsOws(s[i])
  }

  lemma {:induction false} TrimLeftDrops(s: bytes) returns (n: nat)
    ensures n <= |s| && TrimLeft(s) == s[n..] && AllOws(s[..n]) && (n < |s| ==> !IsOws(s[n]))
    decreases |s|
  {
    if s != [] && IsOws(s[0]) {
      var m := TrimLeftDrops(s[1..]);
      n := m + 1;
      assert s[1..][m..] == s[n..];
      assert s[..n] == [s[0]] + s[1..][..m];
    } else {
      n := 0;
    }
  }

  lemma {:induction false} TrimRightDrops(s: bytes) returns (n: nat)
    ensures n <= |s| && TrimRight(s) == s[..n] && AllOws(s[n..]) && (n > 0 ==> !IsOws(s[n - 1]))
    decreases |s|
  {
    if s != [] && IsOws(s[|s| - 1]) {
      n := TrimRightDrops(s[..|s| - 1]);
      assert s[..|s| - 1][..n] == s[..n];
      assert s[n..] == s[..|s| - 1][n..] + [s[|s| - 1]];
    } else {
      n := |s|;
    }
  }

  /** Trimming cuts white space off both ends and leaves none there. */
  lemma TrimCuts(s: bytes) returns (i: nat, j: nat)
    ensures i <= j <= |s| && Trim(s) == s[i..j] && AllOws(s[..i]) && AllOws(s[j..]) && Trimmed(Trim(s))
  {
    i := TrimLeftDrops(s);
    var t := s[i..];
    var n := TrimRightDrops(t);
    j := i + n;
    assert t[..n] == s[i..j] && t[n..] == s[j..];
  }

  predicate IsDigit(base: nat, b: byte) {
    48 <= b <= 57 || (base == 16 && (97 <= b <= 102 || 65 <= b <= 70))
  }

  function DigitValue(b: byte): nat {
    if 48 <= b <= 57 then b - 48 else if 97 <= b <= 102 then b - 87 else if 65 <= b <= 70 then b - 55 else 0
  }

  predicate AllDigits(base: nat, s: bytes) {
    forall i | 0 <= i < |s| :: IsDigit(base, s[i])
  }

  function Numeral(base: nat, s: bytes): nat {
    if s == [] then 0 else Numeral(base, s[..|s| - 1]) * base + DigitValue(s[|s| - 1])
  }

  /** std::from_chars into 64 bits when it must take the whole text: digits only, at least one, and no overflow. */
  function Number(base: nat, s: bytes): Option<nat> {
    if s != [] && AllDigits(base, s) && Numeral(base, s) < UINT64 then Some(Numeral(base, s)) else None
  }

  function DigitOf(d: nat): (b: byte)
    requires d < 16
    ensures DigitValue(b) == d && IsDigit(16, b) && (d < 10 ==> IsDigit(10, b))
  {
    if d < 10 then 48 + d else 87 + d
  }

  /** A number in lower-case digits without leading zeros. */
  function Printed(base: nat, n: nat): (s: bytes)
    requires base == 10 || base == 16
    ensures s != []
    decreases n
  {
    if n < base then [DigitOf(n)] else Printed(base, n / base) + [DigitOf(n % base)]
  }

  /** Reading undoes printing. */
  lemma {:induction false} NumberOfPrinted(base: nat, n: nat)
    requires base == 10 || base == 16
    ensures AllDigits(base, Printed(base, n)) && Numeral(base, Printed(base, n)) == n
    ensures Number(base, Printed(base, n)) == if n < UINT64 then Some(n) else None
    decreases n
  {
    var s := Printed(base, n);
    if n < base {
      assert s[..|s| - 1] == [];
      assert Numeral(base, []) == 0;
    } else {
      NumberOfPrinted(base, n / base);
      assert s[..|s| - 1] == Printed(base, n / base);
    }
  }

  lemma {:induction false} PrintedLength(n: nat, limit: nat, k: nat)
    requires k > 0 && limit == Power16(k) && n < limit
    ensures |Printed(16, n)| <= k
    decreases k
  {
    if n >= 16 {
      if k == 1 {
        assert false;
      } else {
        PrintedLength(n / 16, Power16(k - 1), k - 1);
      }
    }
  }

  function Power16(k: nat): nat {
    if k == 0 then 1 else 16 * Power16(k - 1)
  }
}
