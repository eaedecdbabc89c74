/** Where the decoder departs from RFC 7541: the standard's own reading of first bytes and indices, and exactly where they differ. */
module HpackStandard {
  import opened Bytes
  import opened Bits
  import opened HpackInt
  import opened HpackString
  import opened HpackTable
  import opened HpackStatic
  import opened Hpack
  import opened HuffmanCode
  import opened Huffman

  /** Section 6 of RFC 7541: which representation the first byte announces. */
  function RfcKind(b: byte): Kind {
    if b >= 128 then IndexedKind
    else if b >= 64 then LiteralKind(true, false)
    else if b >= 32 then ResizeKind
    else LiteralKind(false, b >= 16)
  }

  /** The code reads the first byte as the standard does exactly outside 0101xxxx, 0110xxxx and 0111xxxx. */
  lemma KindIsRfcKind(b: byte)
    ensures KindOf(b) == RfcKind(b) <==> !(0x50 <= b < 0x80)
    ensures 0x50 <= b < 0x60 ==> KindOf(b) == LiteralKind(true, true)
    ensures 0x60 <= b < 0x80 ==> KindOf(b) == ResizeKind
  {
    assert b == 64 * (b / 64) + 32 * (b / 32 % 2) + 16 * (b / 16 % 2) + b % 16;
  }

  /** Section 2.3.3 of RFC 7541: dynamic entries follow the static ones directly. */
  function RfcLookup(t: Table, index: nat): Option<Header> {
    if index == 0 then None
    else if index < STATIC_SIZE then Some(StaticEntry(index))
    else if index - STATIC_SIZE < |t.entries| then Some(t.entries[index - STATIC_SIZE])
    else None
  }

  /**
   The code's index is the standard's plus one in the dynamic table. The two agree on static indices and beyond both ranges,
   and in the dynamic table only where two neighbouring entries are equal.
   */
  lemma LookupIsRfcLookup(t: Table, index: nat)
    ensures index >= STATIC_SIZE ==> Lookup(t, index + 1) == RfcLookup(t, index)
    ensures Lookup(t, index) == RfcLookup(t, index) <==>
            var dyn := index - STATIC_SIZE;
            || dyn < 0 || dyn > |t.entries| || t.entries == []
            || (0 < dyn < |t.entries| && t.entries[dyn - 1] == t.entries[dyn])
  {
  }

  /** A value below the mask is in the first byte alone. */
  lemma ShortInt(b: byte, prefixBits: nat, rest: bytes)
    requires 5 <= prefixBits <= 6 && b % Pow2(prefixBits) < Pow2(prefixBits) - 1
    ensures DecodedInt([b] + rest, prefixBits) == IntOk(b % Pow2(prefixBits), rest)
  {
    assert ([b] + rest)[1..] == rest;
  }

  lemma SmallPowers()
    ensures Pow2(5) == 32 && Pow2(6) == 64
  {
    assert Pow2(3) == 8;
  }

  /**
   Misread, 0x50 to 0x5f: a literal to be indexed, with its name at index 16 to 31, is stored as announced but comes out marked as
   never to be indexed.
   */
  lemma MarkedSensitive(t: Table, index: nat, h: Header, value: bytes, rest: bytes)
    requires 16 <= index <= 31 && Lookup(t, index) == Some(h) && !HasUppercase(h.name)
    requires value != [] && CodedLength(value) <= MAX_STRING
    ensures RfcKind(0x40 + index) == LiteralKind(true, false)
    ensures ReadField(t, [(0x40 + index) as byte] + (StringBytes(value) + rest)) ==
            FieldOk(Literal(Header(h.name, value, true), true), rest)
  {
    var b: byte := 0x40 + index;
    var tail := StringBytes(value) + rest;
    var data := [b] + tail;
    assert data[0] == b;
    KindIsRfcKind(b);
    NameIndex(b, index, tail);
    NameByIndex(t, data, index, h, tail);
    StringRoundTrip(value, rest);
    LiteralOf(t, data, h.name, tail, value, rest);
  }

  lemma NameIndex(b: byte, index: nat, tail: bytes)
    requires 16 <= index <= 31 && b == 0x40 + index
    ensures DecodedInt([b] + tail, 6) == IntOk(index, tail)
  {
    SmallPowers();
    ShortInt(b, 6, tail);
  }

  lemma NameByIndex(t: Table, data: bytes, index: nat, h: Header, tail: bytes)
    requires DecodedInt(data, 6) == IntOk(index, tail) && Lookup(t, index) == Some(h)
    ensures ReadName(t, data, 6) == StringOk(h.name, tail)
  {
  }

  lemma LiteralOf(t: Table, data: bytes, name: bytes, tail: bytes, value: bytes, rest: bytes)
    requires data != [] && KindOf(data[0]) == LiteralKind(true, true) && !HasUppercase(name)
    requires ReadName(t, data, 6) == StringOk(name, tail) && DecodedString(tail) == StringOk(value, rest)
    ensures ReadField(t, data) == FieldOk(Literal(Header(name, value, true), true), rest)
  {
  }

  /** For instance accept-encoding, at index 16. */
  lemma AcceptEncodingMarked(t: Table, value: bytes, rest: bytes)
    requires value != [] && CodedLength(value) <= MAX_STRING
    ensures ReadField(t, [0x50] + (StringBytes(value) + rest)) ==
            FieldOk(Literal(Header(Ascii("accept-encoding"), value, true), true), rest)
  {
    var h := Entry("accept-encoding", "gzip, deflate");
    AcceptEncoding(t, h);
    MarkedSensitive(t, 16, h, value, rest);
  }

  lemma AcceptEncoding(t: Table, h: Header)
    requires h == Entry("accept-encoding", "gzip, deflate")
    ensures Lookup(t, 16) == Some(h) && !HasUppercase(h.name)
  {
  }

  /** Misread, 0x60 to 0x7e: a literal to be indexed, with its name at index 32 to 62, is taken for a change of the table's limit. */
  lemma TakenForResize(t: Table, index: nat, rest: bytes)
    requires 32 <= index <= 62
    ensures RfcKind(0x40 + index) == LiteralKind(true, false)
    ensures ReadField(t, [(0x40 + index) as byte] + rest) ==
            if index - 32 > t.limit then FieldErr(SizeUpdateTooLarge) else FieldOk(Resize(index - 32), rest)
  {
    var b: byte := 0x40 + index;
    KindIsRfcKind(b);
    SmallPowers();
    ShortInt(b, 5, rest);
    assert ([b] + rest)[0] == b;
  }

  /** One byte that is well formed up to there empties the dynamic table. */
  lemma TableEmptied(t: Table)
    requires t.entries != [] && Consistent(t)
    ensures Decode(t, [0x60], []) == Decoded(Table([], 0, 0), [], None)
  {
    TakenForResize(t, 32, []);
    assert [0x60] + [] == [0x60];
    DecodeStep(t, [0x60], []);
    FitAll(t.entries, t.limit);
    SetLimitKeepsFit(t, t.entries, 0);
    assert [] + Emitted(Resize(0)) == [];
  }

  /** Section 5.2 of RFC 7541: the codes of the string, padded with fewer than eight one-bits. */
  ghost predicate RfcString(data: bytes, s: bytes) {
    exists n: nat | n < 8 :: BytesToBits(data) == Encoded(Codes(), s) + Ones(n)
  }

  /** What is left of the bits behind the codes of the string, an unfinished code. */
  ghost predicate LeftOver(data: bytes, s: bytes, rest: bits) {
    BytesToBits(data) == Encoded(Codes(), s) + rest && Unled(Codes(), rest)
  }

  lemma LeftOverExists(data: bytes, s: bytes) returns (rest: bits)
    requires HuffmanDecoded(data) == Some(s)
    ensures LeftOver(data, s, rest)
  {
    TableIsCode();
    var syms;
    syms, rest := ParseMeaning(Codes(), BytesToBits(data));
  }

  /** A string the standard accepts is decoded as the standard says. */
  lemma RfcStringDecoded(data: bytes, s: bytes)
    requires RfcString(data, s)
    ensures HuffmanDecoded(data) == Some(s)
  {
    var n: nat :| n < 8 && BytesToBits(data) == Encoded(Codes(), s) + Ones(n);
    TableIsCode();
    EosIsOnes();
    OnesUnled(Codes(), n);
    ParseEncoded(Codes(), s, Ones(n));
  }

  /** A string the code accepts is one of the standard's exactly if what is left over is fewer than eight one-bits. */
  lemma RfcStringIff(data: bytes, s: bytes, rest: bits)
    requires HuffmanDecoded(data) == Some(s) && LeftOver(data, s, rest)
    ensures (exists t :: RfcString(data, t)) <==> |rest| < 8 && rest == Ones(|rest|)
  {
    var spelled := Encoded(Codes(), s);
    if t :| RfcString(data, t) {
      RfcStringDecoded(data, t);
      var n: nat :| n < 8 && BytesToBits(data) == spelled + Ones(n);
      SameTail(spelled, rest, Ones(n));
    }
    if |rest| < 8 && rest == Ones(|rest|) {
      assert RfcString(data, s);
    }
  }

  lemma SameTail(a: bits, b: bits, c: bits)
    requires a + b == a + c
    ensures b == c
  {
    assert (a + b)[|a|..] == b && (a + c)[|a|..] == c;
  }

  /** Three bytes of padding: the code takes them for an empty string, the standard refuses them. */
  lemma LongPaddingAccepted()
    ensures HuffmanDecoded([255, 255, 255]) == Some([])
    ensures !exists t :: RfcString([255, 255, 255], t)
  {
    var data: bytes, none: bytes := [255, 255, 255], [];
    ThreeOnes(data);
    TableIsCode();
    EosIsOnes();
    OnesUnled(Codes(), 24);
    assert [] + Ones(24) == Ones(24);
    ParseEncoded(Codes(), none, Ones(24));
    RfcStringIff(data, none, Ones(24));
  }

  lemma ThreeOnes(data: bytes)
    requires data == [255, 255, 255]
    ensures BytesToBits(data) == Ones(24)
  {
    OnesOf(8);
    assert Pow2(8) == 256;
    assert data[1..] == [255, 255] && data[2..] == [255] && data[1..][1..] == data[2..] && data[2..][1..] == [];
    assert BytesToBits(data[2..]) == Ones(8);
    assert BytesToBits(data[1..]) == Ones(16);
  }
}
