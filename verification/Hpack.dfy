/**
 Header blocks: what HpackEncoder and HpackDecoder of src/hpack.cpp compute, as state machines over the dynamic table, and the
 round trip between the two.
 */
module Hpack {
  import opened Bytes
  import opened HpackInt
  import opened HpackString
  import opened HpackTable
  import opened HpackStatic

  predicate HasUppercase(s: bytes) {
    exists i | 0 <= i < |s| :: 65 <= s[i] <= 90
  }

  /** lookup: static entries below 62, dynamic ones from 63 on, newest first. */
  function Lookup(t: Table, index: nat): Option<Header> {
    if index == 0 then None
    else if index < STATIC_SIZE then Some(StaticEntry(index))
    else
      var dyn := index - STATIC_SIZE;
      if dyn == 0 || dyn > |t.entries| then None else Some(t.entries[dyn - 1])
  }

  /** One representation of a header block. */
  datatype Field =
    | Indexed(header: Header)
    | Resize(limit: nat)
    | Literal(header: Header, stored: bool)

  datatype Kind = IndexedKind | ResizeKind | LiteralKind(stored: bool, never: bool)

  /** The first byte tells the representation: bit 0x80, then 0x20, then 0x40 and 0x10. */
  function KindOf(b: byte): Kind {
    if b >= 128 then IndexedKind
    else if b / 32 % 2 == 1 then ResizeKind
    else LiteralKind(b / 64 % 2 == 1, b / 16 % 2 == 1)
  }

  datatype FieldResult = FieldOk(field: Field, rest: bytes) | FieldErr(error: HpackError)

  ghost function ReadIndexed(t: Table, data: bytes): FieldResult {
    match DecodedInt(data, 7)
    case IntErr(e) => FieldErr(e)
    case IntOk(index, rest) =>
      match Lookup(t, index)
      case None => FieldErr(BadIndex)
      case Some(h) => FieldOk(Indexed(h), rest)
  }

  ghost function ReadResize(t: Table, data: bytes): FieldResult {
    match DecodedInt(data, 5)
    case IntErr(e) => FieldErr(e)
    case IntOk(n, rest) => if n > t.limit then FieldErr(SizeUpdateTooLarge) else FieldOk(Resize(n), rest)
  }

  /** The name of a literal: spelled out after index 0, taken from the tables otherwise. */
  ghost function ReadName(t: Table, data: bytes, prefixBits: nat): StringResult {
    match DecodedInt(data, prefixBits)
    case IntErr(e) => StringErr(e)
    case IntOk(index, rest) =>
      if index == 0 then DecodedString(rest)
      else
        match Lookup(t, index)
        case None => StringErr(BadNameIndex)
        case Some(h) => StringOk(h.name, rest)
  }

  ghost function ReadLiteral(t: Table, data: bytes, stored: bool, never: bool): FieldResult {
    match ReadName(t, data, if stored then 6 else 4)
    case StringErr(e) => FieldErr(e)
    case StringOk(name, rest) =>
      match DecodedString(rest)
      case StringErr(e) => FieldErr(e)
      case StringOk(value, rest') =>
        if HasUppercase(name) then FieldErr(UppercaseName) else FieldOk(Literal(Header(name, value, never), stored), rest')
  }

  ghost function ReadField(t: Table, data: bytes): (r: FieldResult)
    requires data != []
    ensures r.FieldOk? ==> |r.rest| < |data|
  {
    IntShrinks(data, 7);
    IntShrinks(data, 5);
    IntShrinks(data, 6);
    IntShrinks(data, 4);
    match KindOf(data[0])
    case IndexedKind => ReadIndexed(t, data)
    case ResizeKind => ReadResize(t, data)
    case LiteralKind(stored, never) => ReadLiteral(t, data, stored, never)
  }

  function Apply(t: Table, f: Field): Table {
    match f
    case Indexed(_) => t
    case Resize(n) => SetLimit(t, n)
    case Literal(h, stored) => if stored then Add(t, h) else t
  }

  function Emitted(f: Field): seq<Header> {
    if f.Resize? then [] else [f.header]
  }

  /** Table, headers output and error, if any, after a call of decode. */
  datatype Decoded = Decoded(table: Table, out: seq<Header>, error: Option<HpackError>)

  ghost function Decode(t: Table, data: bytes, out: seq<Header>): Decoded
    decreases |data|
  {
    if data == [] then Decoded(t, out, None)
    else
      match ReadField(t, data)
      case FieldErr(e) => Decoded(t, out, Some(e))
      case FieldOk(f, rest) => Decode(Apply(t, f), rest, out + Emitted(f))
  }

  /** What the encoder decides about a header. */
  predicate Sensitive(h: Header) {
    || h.sensitive || h.name == Ascii("authorization") || h.name == Ascii("cookie")
    || h.name == Ascii("proxy-authorization")
  }

  function Sent(h: Header): Header {
    Header(h.name, h.value, Sensitive(h))
  }

  function SentAll(headers: seq<Header>): seq<Header> {
    if headers == [] then [] else [Sent(headers[0])] + SentAll(headers[1..])
  }

  ghost function HeaderBytes(h: Header): (r: bytes)
    ensures r != []
  {
    Prefixes();
    (if Sensitive(h) then IntBytes(0, 4, 0x10) else IntBytes(0, 6, 0x40)) + StringBytes(h.name) + StringBytes(h.value)
  }

  function Remember(t: Table, h: Header): Table {
    if Sensitive(h) then t else Add(t, h)
  }

  /** Table, bytes output and error, if any, after a call of encode. */
  datatype Block = Block(table: Table, data: bytes, error: Option<HpackError>)

  ghost function Encode(t: Table, headers: seq<Header>): Block
    decreases |headers|
  {
    if headers == [] then Block(t, [], None)
    else if HasUppercase(headers[0].name) then Block(t, [], Some(UppercaseName))
    else
      var rest := Encode(Remember(t, headers[0]), headers[1..]);
      Block(rest.table, HeaderBytes(headers[0]) + rest.data, rest.error)
  }

  /** Headers the decoder can read back: both strings non-empty and not too long, the name in lower case. */
  predicate Readable(h: Header) {
    && !HasUppercase(h.name)
    && h.name != [] && CodedLength(h.name) <= MAX_STRING
    && h.value != [] && CodedLength(h.value) <= MAX_STRING
  }

  predicate AllReadable(headers: seq<Header>) {
    forall i | 0 <= i < |headers| :: Readable(headers[i])
  }

  /** The headers before the first one that cannot be read. */
  function ReadableFront(headers: seq<Header>): seq<Header> {
    if headers == [] || !Readable(headers[0]) then [] else [headers[0]] + ReadableFront(headers[1..])
  }

  function FirstByte(stored: bool): byte {
    if stored then 0x40 else 0x10
  }

  lemma IndexZeroReadBack(stored: bool, tail: bytes)
    ensures DecodedInt([FirstByte(stored)] + tail, if stored then 6 else 4) == IntOk(0, tail)
  {
    Prefixes();
    if stored {
      IntRoundTrip(0, 6, 0x40, tail);
    } else {
      IntRoundTrip(0, 4, 0x10, tail);
    }
  }

  /** The two first bytes the encoder uses announce a literal with a spelled-out name. */
  lemma LiteralAnnounced(t: Table, stored: bool, tail: bytes)
    ensures ReadField(t, [FirstByte(stored)] + tail) == ReadLiteral(t, [FirstByte(stored)] + tail, stored, !stored)
  {
    assert ([FirstByte(stored)] + tail)[0] == FirstByte(stored);
    assert KindOf(FirstByte(stored)) == LiteralKind(stored, !stored);
  }

  lemma NameAnnounced(t: Table, stored: bool, tail: bytes)
    ensures ReadName(t, [FirstByte(stored)] + tail, if stored then 6 else 4) == DecodedString(tail)
  {
    IndexZeroReadBack(stored, tail);
  }

  lemma HeaderLayout(h: Header, rest: bytes)
    ensures HeaderBytes(h) + rest ==
            [FirstByte(!Sensitive(h))] + (StringBytes(h.name) + (StringBytes(h.value) + rest))
  {
    Prefixes();
    Assoc4([FirstByte(!Sensitive(h))], StringBytes(h.name), StringBytes(h.value), rest);
  }

  lemma Assoc4(a: bytes, b: bytes, c: bytes, d: bytes)
    ensures a + b + c + d == a + (b + (c + d))
  {
  }

  lemma HeaderRoundTrip(t: Table, h: Header, rest: bytes)
    requires !HasUppercase(h.name)
    ensures if Readable(h) then ReadField(t, HeaderBytes(h) + rest) == FieldOk(Literal(Sent(h), !Sensitive(h)), rest)
            else ReadField(t, HeaderBytes(h) + rest).FieldErr?
  {
    var tail := StringBytes(h.value) + rest;
    HeaderLayout(h, rest);
    LiteralAnnounced(t, !Sensitive(h), StringBytes(h.name) + tail);
    NameAnnounced(t, !Sensitive(h), StringBytes(h.name) + tail);
    StringRoundTrip(h.name, tail);
    StringRoundTrip(h.value, rest);
  }

  lemma ShortHeader(h: Header)
    requires |h.name| < 127 && |h.value| < 127
    ensures |HeaderBytes(h)| <= 3 + |h.name| + |h.value|
    ensures h.name != [] && h.value != [] && !HasUppercase(h.name) ==> Readable(h)
  {
    Prefixes();
    ShortString(h.name);
    ShortString(h.value);
  }

  lemma DecodeStep(t: Table, data: bytes, out: seq<Header>)
    requires data != []
    ensures var r := ReadField(t, data);
            Decode(t, data, out) ==
            if r.FieldErr? then Decoded(t, out, Some(r.error))
            else Decode(Apply(t, r.field), r.rest, out + Emitted(r.field))
  {
  }

  /** What a table becomes when every header of a list that is not sensitive enters it. */
  function RememberAll(t: Table, headers: seq<Header>): Table
    decreases |headers|
  {
    if headers == [] then t else RememberAll(Remember(t, headers[0]), headers[1..])
  }

  /** The headers before the first name with a capital letter: all that encode looks at. */
  function Lowercase(headers: seq<Header>): seq<Header> {
    if headers == [] || HasUppercase(headers[0].name) then [] else [headers[0]] + Lowercase(headers[1..])
  }

  predicate AllLowercase(headers: seq<Header>) {
    forall i | 0 <= i < |headers| :: !HasUppercase(headers[i].name)
  }

  /** encode remembers every header before the first bad name, and fails exactly if there is a bad name. */
  lemma {:induction false} EncodeRemembers(t: Table, headers: seq<Header>)
    ensures Encode(t, headers).table == RememberAll(t, Lowercase(headers))
    ensures Encode(t, headers).error.None? <==> AllLowercase(headers)
    ensures AllLowercase(headers) ==> Lowercase(headers) == headers
    decreases |headers|
  {
    if headers != [] {
      var rest := headers[1..];
      assert headers == [headers[0]] + rest;
      if !HasUppercase(headers[0].name) {
        EncodeRemembers(Remember(t, headers[0]), rest);
        assert ([headers[0]] + Lowercase(rest))[1..] == Lowercase(rest);
      }
      assert forall i | 0 < i < |headers| :: headers[i] == rest[i - 1];
      assert forall i | 0 <= i < |rest| :: rest[i] == headers[i + 1];
    }
  }

  /**
   One block, encoder to decoder, whatever their two tables hold. The decoder accepts it exactly when every header is readable.
   Up to the first header that is not, it outputs the same names and values in order, each marked with the encoder's decision,
   and its table takes in what the encoder's took in.
   */
  lemma {:induction false} BlockRoundTrip(te: Table, td: Table, headers: seq<Header>, out: seq<Header>)
    requires Encode(te, headers).error == None
    ensures var d, read := Decode(td, Encode(te, headers).data, out), ReadableFront(headers);
            && (d.error == None <==> AllReadable(headers))
            && d.table == RememberAll(td, read) && d.out == out + SentAll(read)
            && (AllReadable(headers) ==> read == headers)
    decreases |headers|
  {
    if headers == [] {
      assert out + [] == out;
    } else {
      var h := headers[0];
      var te', td' := Remember(te, h), Remember(td, h);
      var tail := Encode(te', headers[1..]).data;
      HeaderRoundTrip(td, h, tail);
      DecodeStep(td, HeaderBytes(h) + tail, out);
      FirstReadable(headers);
      if Readable(h) {
        BlockRoundTrip(te', td', headers[1..], out + [Sent(h)]);
        FrontFirst(headers);
        SentFirst(ReadableFront(headers), out);
        StoredAsKept(td, h);
      } else {
        assert out + [] == out;
      }
    }
  }

  lemma FrontFirst(headers: seq<Header>)
    requires headers != [] && Readable(headers[0])
    ensures ReadableFront(headers) != [] && ReadableFront(headers)[0] == headers[0]
    ensures ReadableFront(headers)[1..] == ReadableFront(headers[1..])
    ensures ReadableFront(headers[1..]) == headers[1..] ==> ReadableFront(headers) == headers
  {
  }

  lemma FirstReadable(headers: seq<Header>)
    requires headers != []
    ensures AllReadable(headers) <==> Readable(headers[0]) && AllReadable(headers[1..])
  {
    assert forall i | 0 <= i < |headers[1..]| :: headers[1..][i] == headers[i + 1];
    assert forall i | 0 < i < |headers| :: headers[i] == headers[1..][i - 1];
  }

  lemma SentFirst(headers: seq<Header>, out: seq<Header>)
    requires headers != []
    ensures out + [Sent(headers[0])] + SentAll(headers[1..]) == out + SentAll(headers)
  {
  }

  /** The decoder stores the header the encoder stored. */
  lemma StoredAsKept(t: Table, h: Header)
    ensures Apply(t, Literal(Sent(h), !Sensitive(h))) == Remember(t, h)
  {
    assert !Sensitive(h) ==> Sent(h) == h;
  }

  /** One call of encode after the other, and one call of decode after the other. */
  ghost function EncodeBlocks(t: Table, blocks: seq<seq<Header>>): (r: seq<Block>)
    ensures |r| == |blocks|
    decreases |blocks|
  {
    if blocks == [] then []
    else
      var b := Encode(t, blocks[0]);
      [b] + EncodeBlocks(b.table, blocks[1..])
  }

  ghost function DecodeBlocks(t: Table, blocks: seq<Block>): (r: seq<Decoded>)
    ensures |r| == |blocks|
    decreases |blocks|
  {
    if blocks == [] then []
    else
      var d := Decode(t, blocks[0].data, []);
      [d] + DecodeBlocks(d.table, blocks[1..])
  }

  lemma {:induction false} ReadableEncodes(t: Table, headers: seq<Header>)
    requires AllReadable(headers)
    ensures Encode(t, headers).error == None
    decreases |headers|
  {
    if headers != [] {
      FirstReadable(headers);
      ReadableEncodes(Remember(t, headers[0]), headers[1..]);
    }
  }

  /** A whole connection's header blocks: every block reads back, and after each the two tables agree. */
  lemma {:induction false} BlocksRoundTrip(t: Table, blocks: seq<seq<Header>>, k: nat)
    requires k < |blocks| && forall j | 0 <= j < |blocks| :: AllReadable(blocks[j])
    ensures DecodeBlocks(t, EncodeBlocks(t, blocks))[k] ==
            Decoded(EncodeBlocks(t, blocks)[k].table, SentAll(blocks[k]), None)
    decreases k
  {
    ReadableEncodes(t, blocks[0]);
    EncodeRemembers(t, blocks[0]);
    BlockRoundTrip(t, t, blocks[0], []);
    assert [] + SentAll(blocks[0]) == SentAll(blocks[0]);
    var rest := EncodeBlocks(t, blocks)[1..];
    assert rest == EncodeBlocks(Encode(t, blocks[0]).table, blocks[1..]);
    if k > 0 {
      BlocksRoundTrip(Encode(t, blocks[0]).table, blocks[1..], k - 1);
    }
  }

  /** The headers a call of decode inserts, newest first, whether or not it ends in an error. */
  ghost function Inserted(t: Table, data: bytes): seq<Header>
    decreases |data|
  {
    if data == [] then []
    else
      match ReadField(t, data)
      case FieldErr(_) => []
      case FieldOk(f, rest) => Inserted(Apply(t, f), rest) + if f.Literal? && f.stored then [f.header] else []
  }

  lemma ApplyKeepsFit(t: Table, history: seq<Header>, f: Field) returns (history': seq<Header>)
    requires Consistent(t) && t.entries == Fit(history, t.limit)
    requires f.Resize? ==> f.limit <= t.limit
    ensures history' == (if f.Literal? && f.stored then [f.header] else []) + history
    ensures var t' := Apply(t, f); Consistent(t') && t'.limit <= t.limit && t'.entries == Fit(history', t'.limit)
  {
    history' := (if f.Literal? && f.stored then [f.header] else []) + history;
    assert [] + history == history;
    match f
    case Indexed(_) =>
    case Resize(n) => SetLimitKeepsFit(t, history, n);
    case Literal(h, stored) =>
      if stored {
        AddKeepsFit(t, history, h);
      }
  }

  lemma ResizeWithinLimit(t: Table, data: bytes)
    requires data != []
    ensures var r := ReadField(t, data); r.FieldOk? && r.field.Resize? ==> r.field.limit <= t.limit
  {
  }

  /**
   Whatever decode is fed, its table size is the sum of the entry sizes, the limit never grows, and the table is the
   longest part of the insertion history that fits.
   */
  lemma {:induction false} DecodeKeepsFit(t: Table, history: seq<Header>, data: bytes, out: seq<Header>)
    requires Consistent(t) && t.entries == Fit(history, t.limit)
    ensures var t' := Decode(t, data, out).table;
            && Consistent(t') && t'.limit <= t.limit
            && t'.entries == Fit(Inserted(t, data) + history, t'.limit)
    decreases |data|
  {
    assert [] + history == history;
    if data != [] {
      DecodeStep(t, data, out);
      var r := ReadField(t, data);
      if r.FieldOk? {
        ResizeWithinLimit(t, data);
        var history' := ApplyKeepsFit(t, history, r.field);
        DecodeKeepsFit(Apply(t, r.field), history', r.rest, out + Emitted(r.field));
        var fresh' := if r.field.Literal? && r.field.stored then [r.field.header] else [];
        assert Inserted(t, data) + history == Inserted(Apply(t, r.field), r.rest) + (fresh' + history);
      }
    }
  }

  ghost function TableAfter(t: Table, inputs: seq<bytes>): Table
    decreases |inputs|
  {
    if inputs == [] then t else TableAfter(Decode(t, inputs[0], []).table, inputs[1..])
  }

  ghost function InsertedBy(t: Table, inputs: seq<bytes>): seq<Header>
    decreases |inputs|
  {
    if inputs == [] then []
    else InsertedBy(Decode(t, inputs[0], []).table, inputs[1..]) + Inserted(t, inputs[0])
  }

  /** The same over any sequence of calls, accepted or not. */
  lemma {:induction false} RunKeepsFit(t: Table, history: seq<Header>, inputs: seq<bytes>)
    requires Consistent(t) && t.entries == Fit(history, t.limit)
    ensures var t' := TableAfter(t, inputs);
            && Consistent(t') && t'.limit <= t.limit
            && t'.entries == Fit(InsertedBy(t, inputs) + history, t'.limit)
    decreases |inputs|
  {
    assert [] + history == history;
    if inputs != [] {
      DecodeKeepsFit(t, history, inputs[0], []);
      var t' := Decode(t, inputs[0], []).table;
      RunKeepsFit(t', Inserted(t, inputs[0]) + history, inputs[1..]);
      assert InsertedBy(t, inputs) + history == InsertedBy(t', inputs[1..]) + (Inserted(t, inputs[0]) + history);
    }
  }

  /** Index 63 + k names the k-th newest insertion for as long as it fits; 62 and 0 name nothing. */
  lemma IndexIsHistory(t: Table, history: seq<Header>, k: nat)
    requires Consistent(t) && t.entries == Fit(history, t.limit)
    ensures Lookup(t, 0) == None && Lookup(t, 62) == None
    ensures |Fit(history, t.limit)| <= |history|
    ensures Lookup(t, 63 + k) == if k < |Fit(history, t.limit)| then Some(history[k]) else None
  {
    FitIsLongest(history, t.limit);
  }

  /** The headers of a list that enter the table, newest first. */
  function Stored(headers: seq<Header>): seq<Header> {
    if headers == [] then [] else Stored(headers[1..]) + if Sensitive(headers[0]) then [] else [headers[0]]
  }

  /** The table after a list is the longest fitting part of what was stored, on top of the history before. */
  lemma {:induction false} RememberAllFits(t: Table, history: seq<Header>, headers: seq<Header>)
    requires Consistent(t) && t.entries == Fit(history, t.limit)
    ensures var t' := RememberAll(t, headers);
            Consistent(t') && t'.limit == t.limit && t'.entries == Fit(Stored(headers) + history, t.limit)
    decreases |headers|
  {
    if headers == [] {
      assert [] + history == history;
    } else {
      var h, rest := headers[0], headers[1..];
      if Sensitive(h) {
        RememberAllFits(t, history, rest);
        assert Stored(rest) + [] == Stored(rest);
      } else {
        AddKeepsFit(t, history, h);
        RememberAllFits(Add(t, h), [h] + history, rest);
        assert Stored(rest) + [h] + history == Stored(rest) + ([h] + history);
      }
    }
  }

  lemma {:induction false} RememberAllConcat(t: Table, a: seq<Header>, b: seq<Header>)
    ensures RememberAll(t, a + b) == RememberAll(RememberAll(t, a), b)
    decreases |a|
  {
    if a == [] {
      assert a + b == b;
    } else {
      RememberAllConcat(Remember(t, a[0]), a[1..], b);
      assert (a + b)[1..] == a[1..] + b;
    }
  }

  /**
   Headers leave a table as it was exactly if none is stored, or if those stored repeat the table: on top of it they start as it
   does, and the next entry would not fit.
   */
  ghost predicate Unnoticed(t: Table, headers: seq<Header>) {
    var all := Stored(headers) + t.entries;
    Stored(headers) == [] || (t.entries <= all && SizeOf(all[..|t.entries| + 1]) > t.limit)
  }

  lemma UnnoticedIff(t: Table, headers: seq<Header>)
    requires Consistent(t)
    ensures RememberAll(t, headers) == t <==> Unnoticed(t, headers)
  {
    var all := Stored(headers) + t.entries;
    FitAll(t.entries, t.limit);
    RememberAllFits(t, t.entries, headers);
    FitIs(all, t.limit, t.entries);
    if Stored(headers) == [] {
      assert all == t.entries;
    }
  }
}
