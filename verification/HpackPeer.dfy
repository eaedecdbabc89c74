/**
 What the decoder makes of any peer's header block, not only of what this encoder writes: fields named by index, literals with their
 name at an index or spelled out, in all three modes and both string forms, and changes of the table's limit. The reference is a
 peer that remembers everything it ever inserted.
 */
module HpackPeer {
  import opened Bytes
  import opened Bits
  import opened HpackInt
  import opened HpackString
  import opened HpackTable
  import opened HpackStatic
  import opened Hpack
  import opened Huffman

  /** A string and the form it is sent in. */
  datatype Text = Text(s: bytes, huffman: bool)

  /** Literals with incremental indexing, without indexing and never indexed (section 6.2 of RFC 7541). */
  datatype Mode = Indexing | Without | Never

  datatype Item =
    | ByIndex(index: nat)
    | Named(mode: Mode, index: nat, value: Text)
    | Spelled(mode: Mode, name: Text, value: Text)
    | NewLimit(limit: nat)

  function TextLength(t: Text): nat {
    if t.huffman then HuffmanLength(t.s) else |t.s|
  }

  ghost function TextBytes(t: Text): bytes {
    Prefixes();
    if t.huffman then IntBytes(HuffmanLength(t.s), 7, 0x80) + HuffmanBytes(t.s) else IntBytes(|t.s|, 7, 0) + t.s
  }

  predicate TextFits(t: Text) {
    0 < TextLength(t) <= 65535
  }

  lemma TextRead(t: Text, rest: bytes)
    ensures if TextFits(t) then DecodedString(TextBytes(t) + rest) == StringOk(t.s, rest)
            else DecodedString(TextBytes(t) + rest).StringErr?
  {
    Prefixes();
    if t.huffman {
      Payload(HuffmanLength(t.s), 0x80, HuffmanBytes(t.s), rest);
      HuffmanRoundTrip(t.s);
    } else {
      Payload(|t.s|, 0, t.s, rest);
    }
  }

  function PrefixBits(m: Mode): nat {
    if m.Indexing? then 6 else 4
  }

  function Prefix(m: Mode): byte {
    match m
    case Indexing => 0x40
    case Without => 0x00
    case Never => 0x10
  }

  lemma AllPrefixes(m: Mode)
    ensures FreePrefix(PrefixBits(m), Prefix(m)) && FreePrefix(7, 0x80) && FreePrefix(5, 0x20)
    ensures Pow2(4) == 16 && Pow2(5) == 32 && Pow2(6) == 64 && Pow2(7) == 128
  {
    assert Pow2(4) == 16;
    assert Pow2(6) == 4 * Pow2(4);
  }

  /** The bytes of a representation (section 6 of RFC 7541). */
  ghost function ItemBytes(item: Item): bytes {
    AllPrefixes(if item.Named? || item.Spelled? then item.mode else Never);
    match item
    case ByIndex(i) => IntBytes(i, 7, 0x80)
    case Named(m, i, value) => IntBytes(i, PrefixBits(m), Prefix(m)) + TextBytes(value)
    case Spelled(m, name, value) => IntBytes(0, PrefixBits(m), Prefix(m)) + (TextBytes(name) + TextBytes(value))
    case NewLimit(n) => IntBytes(n, 5, 0x20)
  }

  ghost function BlockBytes(items: seq<Item>): bytes {
    if items == [] then [] else ItemBytes(items[0]) + BlockBytes(items[1..])
  }

  /** A peer's insertions, newest first, and its limit. */
  datatype Peer = Peer(history: seq<Header>, limit: nat)

  /** Octets of the first n insertions, each with an overhead of 32 (section 4.1 of RFC 7541). */
  function Octets(history: seq<Header>, n: nat): nat
    decreases n
  {
    if n == 0 || history == [] then 0 else |history[0].name| + |history[0].value| + 32 + Octets(history[1..], n - 1)
  }

  predicate Held(p: Peer, k: nat) {
    k < |p.history| && Octets(p.history, k + 1) <= p.limit
  }

  /** What an index stands for: a static entry, or an insertion that still fits with all newer ones. */
  function EntryOf(p: Peer, i: nat): Option<Header> {
    if 1 <= i <= 61 then Some(StaticEntry(i))
    else if i >= 63 && Held(p, i - 63) then Some(p.history[i - 63])
    else None
  }

  predicate FitsInt(v: nat, bits: nat) {
    v - (Pow2(bits) - 1) < 0x8000_0000_0000_0000
  }

  datatype Meaning = Gives(header: Header) | Limits(limit: nat) | Nothing

  function Literally(name: bytes, value: bytes, marked: bool): Meaning {
    if HasUppercase(name) then Nothing else Gives(Header(name, value, marked))
  }

  function MeaningOf(p: Peer, item: Item): Meaning {
    match item
    case ByIndex(i) => if FitsInt(i, 7) && EntryOf(p, i).Some? then Gives(EntryOf(p, i).value) else Nothing
    case Named(m, i, value) =>
      if FitsInt(i, PrefixBits(m)) && EntryOf(p, i).Some? && TextFits(value)
      then Literally(EntryOf(p, i).value.name, value.s, m.Never? || (m.Indexing? && i >= 16))
      else Nothing
    case Spelled(m, name, value) => if TextFits(name) && TextFits(value) then Literally(name.s, value.s, m.Never?) else Nothing
    case NewLimit(n) => if FitsInt(n, 5) && n <= p.limit then Limits(n) else Nothing
  }

  /** The peer after an item that means something. */
  function Later(p: Peer, item: Item): Peer {
    match MeaningOf(p, item)
    case Gives(h) => if !item.ByIndex? && item.mode.Indexing? then p.(history := [h] + p.history) else p
    case Limits(n) => p.(limit := n)
    case Nothing => p
  }

  /** Representations read as what they are: a name by its index, and in a literal to be indexed one below 32. */
  predicate Announced(item: Item) {
    item.Named? ==> item.index > 0 && (item.mode.Indexing? ==> item.index < 32)
  }

  /** The decoder's table is what fits of the peer's insertions. */
  ghost predicate Tracks(t: Table, p: Peer) {
    Consistent(t) && t.limit == p.limit && t.entries == Fit(p.history, p.limit)
  }

  lemma {:induction false} FitCounts(history: seq<Header>, room: int, k: nat)
    ensures k < |Fit(history, room)| <==> k < |history| && Octets(history, k + 1) <= room
    ensures Fit(history, room) <= history
    decreases |history|
  {
    if history != [] {
      var size := EntrySize(history[0]);
      if size <= room {
        if k > 0 {
          FitCounts(history[1..], room - size, k - 1);
        } else {
          FitCounts(history[1..], room - size, 0);
          assert Octets(history[1..], 0) == 0;
        }
      }
    }
  }

  /** The decoder finds at an index exactly what the peer means by it. */
  lemma LookupIsEntry(t: Table, p: Peer, i: nat)
    requires Tracks(t, p)
    ensures Lookup(t, i) == EntryOf(p, i)
  {
    if i >= 63 {
      FitCounts(p.history, p.limit, i - 63);
    }
  }

  lemma FirstByteOf(v: nat, bits: nat, prefix: byte, rest: bytes)
    requires FreePrefix(bits, prefix)
    ensures var data, mask := IntBytes(v, bits, prefix) + rest, Pow2(bits) - 1;
            data != [] && data[0] == prefix + if v < mask then v else mask
  {
  }

  /** An integer at the front of a representation. */
  lemma NumberRead(v: nat, bits: nat, prefix: byte, rest: bytes)
    requires FreePrefix(bits, prefix)
    ensures var r := DecodedInt(IntBytes(v, bits, prefix) + rest, bits);
            if FitsInt(v, bits) && !(v == 0 && bits == 7) then r == IntOk(v, rest) else r.IntErr?
  {
    IntRoundTrip(v, bits, prefix, rest);
  }

  lemma IndexedRead(t: Table, i: nat, rest: bytes)
    requires FreePrefix(7, 0x80) && Pow2(7) == 128
    ensures var r := ReadField(t, IntBytes(i, 7, 0x80) + rest);
            if i > 0 && FitsInt(i, 7) && Lookup(t, i).Some? then r == FieldOk(Indexed(Lookup(t, i).value), rest) else r.FieldErr?
  {
    FirstByteOf(i, 7, 0x80, rest);
    NumberRead(i, 7, 0x80, rest);
  }

  lemma LimitRead(t: Table, n: nat, rest: bytes)
    requires FreePrefix(5, 0x20) && Pow2(5) == 32
    ensures var r := ReadField(t, IntBytes(n, 5, 0x20) + rest);
            if FitsInt(n, 5) && n <= t.limit then r == FieldOk(Resize(n), rest) else r.FieldErr?
  {
    FirstByteOf(n, 5, 0x20, rest);
    NumberRead(n, 5, 0x20, rest);
    var b := (IntBytes(n, 5, 0x20) + rest)[0];
    assert 32 <= b < 64 && b / 32 % 2 == 1;
  }

  /** The first byte of a literal. */
  lemma LiteralByte(m: Mode, i: nat, b: byte)
    requires m.Indexing? ==> i < 32
    requires m.Indexing? ==> b == 0x40 + i
    requires !m.Indexing? ==> b == Prefix(m) + if i < 15 then i else 15
    ensures KindOf(b) == LiteralKind(m.Indexing?, m.Never? || (m.Indexing? && i >= 16))
  {
    if m.Indexing? {
      assert b / 32 % 2 == 0 && b / 64 % 2 == 1 && (b / 16 % 2 == 1 <==> i >= 16);
    } else {
      assert b / 32 % 2 == 0 && b / 64 % 2 == 0 && (b / 16 % 2 == 1 <==> m.Never?);
    }
  }

  lemma LiteralKindOf(t: Table, m: Mode, i: nat, rest: bytes)
    requires FreePrefix(PrefixBits(m), Prefix(m)) && (m.Indexing? ==> i < 32)
    ensures var data := IntBytes(i, PrefixBits(m), Prefix(m)) + rest;
            data != [] && ReadField(t, data) == ReadLiteral(t, data, m.Indexing?, m.Never? || (m.Indexing? && i >= 16))
  {
    AllPrefixes(m);
    FirstByteOf(i, PrefixBits(m), Prefix(m), rest);
    LiteralByte(m, i, (IntBytes(i, PrefixBits(m), Prefix(m)) + rest)[0]);
  }

  lemma NamedName(t: Table, m: Mode, i: nat, rest: bytes)
    requires FreePrefix(PrefixBits(m), Prefix(m)) && i > 0
    ensures var r := ReadName(t, IntBytes(i, PrefixBits(m), Prefix(m)) + rest, PrefixBits(m));
            if FitsInt(i, PrefixBits(m)) && Lookup(t, i).Some? then r == StringOk(Lookup(t, i).value.name, rest) else r.StringErr?
  {
    NumberRead(i, PrefixBits(m), Prefix(m), rest);
  }

  lemma SpelledName(t: Table, m: Mode, name: Text, rest: bytes)
    requires FreePrefix(PrefixBits(m), Prefix(m))
    ensures var r := ReadName(t, IntBytes(0, PrefixBits(m), Prefix(m)) + (TextBytes(name) + rest), PrefixBits(m));
            if TextFits(name) then r == StringOk(name.s, rest) else r.StringErr?
  {
    NumberRead(0, PrefixBits(m), Prefix(m), TextBytes(name) + rest);
    TextRead(name, rest);
  }

  /** What a representation reads as. */
  ghost predicate ReadsAs(r: FieldResult, item: Item, meaning: Meaning, rest: bytes) {
    match meaning
    case Gives(h) =>
      r == FieldOk(if item.ByIndex? then Indexed(h) else Literal(h, !item.NewLimit? && item.mode.Indexing?), rest)
    case Limits(n) => r == FieldOk(Resize(n), rest)
    case Nothing => r.FieldErr?
  }

  lemma NamedRead(t: Table, p: Peer, item: Item, rest: bytes)
    requires Tracks(t, p) && Announced(item) && item.Named?
    ensures ReadsAs(ReadField(t, ItemBytes(item) + rest), item, MeaningOf(p, item), rest)
  {
    var m, i, tail := item.mode, item.index, TextBytes(item.value) + rest;
    AllPrefixes(m);
    Assoc(IntBytes(i, PrefixBits(m), Prefix(m)), TextBytes(item.value), rest);
    LiteralKindOf(t, m, i, tail);
    NamedName(t, m, i, tail);
    LookupIsEntry(t, p, i);
    TextRead(item.value, rest);
  }

  lemma SpelledRead(t: Table, p: Peer, item: Item, rest: bytes)
    requires item.Spelled?
    ensures ReadsAs(ReadField(t, ItemBytes(item) + rest), item, MeaningOf(p, item), rest)
  {
    var m, tail := item.mode, TextBytes(item.value) + rest;
    AllPrefixes(m);
    Assoc(IntBytes(0, PrefixBits(m), Prefix(m)), TextBytes(item.name) + TextBytes(item.value), rest);
    Assoc(TextBytes(item.name), TextBytes(item.value), rest);
    LiteralKindOf(t, m, 0, TextBytes(item.name) + tail);
    SpelledName(t, m, item.name, tail);
    TextRead(item.value, rest);
  }

  lemma ItemRead(t: Table, p: Peer, item: Item, rest: bytes)
    requires Tracks(t, p) && Announced(item)
    ensures ItemBytes(item) + rest != []
    ensures ReadsAs(ReadField(t, ItemBytes(item) + rest), item, MeaningOf(p, item), rest)
  {
    AllPrefixes(Never);
    match item
    case ByIndex(i) =>
      IndexedRead(t, i, rest);
      LookupIsEntry(t, p, i);
    case Named(_, _, _) => NamedRead(t, p, item, rest);
    case Spelled(_, _, _) => SpelledRead(t, p, item, rest);
    case NewLimit(n) => LimitRead(t, n, rest);
  }

  function Spoken(meaning: Meaning): seq<Header> {
    if meaning.Gives? then [meaning.header] else []
  }

  lemma InsertTracked(t: Table, p: Peer, h: Header)
    requires Tracks(t, p)
    ensures Tracks(Add(t, h), p.(history := [h] + p.history))
  {
    AddKeepsFit(t, p.history, h);
  }

  lemma LimitTracked(t: Table, p: Peer, n: nat)
    requires Tracks(t, p) && n <= p.limit
    ensures Tracks(SetLimit(t, n), p.(limit := n))
  {
    SetLimitKeepsFit(t, p.history, n);
  }

  /**
   One representation, whatever was decoded before it: the header it means is put out and the table keeps up with the peer; a
   representation that means nothing is an error that leaves output and table alone.
   */
  lemma ItemDecoded(t: Table, p: Peer, item: Item, rest: bytes, out: seq<Header>) returns (t': Table)
    requires Tracks(t, p) && Announced(item)
    ensures var d := Decode(t, ItemBytes(item) + rest, out);
            if MeaningOf(p, item).Nothing? then t' == t && d.error.Some? && d.table == t && d.out == out
            else d == Decode(t', rest, out + Spoken(MeaningOf(p, item)))
    ensures Tracks(t', Later(p, item))
  {
    var data, meaning := ItemBytes(item) + rest, MeaningOf(p, item);
    ItemRead(t, p, item, rest);
    DecodeStep(t, data, out);
    match meaning
    case Nothing => t' := t;
    case Limits(n) =>
      t' := SetLimit(t, n);
      LimitTracked(t, p, n);
    case Gives(h) =>
      if !item.ByIndex? && item.mode.Indexing? {
        t' := Add(t, h);
        InsertTracked(t, p, h);
      } else {
        t' := t;
      }
  }

  /** The headers a peer means by a list of items, up to the first that means nothing; and the peer after them. */
  function Meant(p: Peer, items: seq<Item>): seq<Header>
    decreases |items|
  {
    if items == [] || MeaningOf(p, items[0]).Nothing? then []
    else Spoken(MeaningOf(p, items[0])) + Meant(Later(p, items[0]), items[1..])
  }

  function LaterAll(p: Peer, items: seq<Item>): Peer
    decreases |items|
  {
    if items == [] || MeaningOf(p, items[0]).Nothing? then p else LaterAll(Later(p, items[0]), items[1..])
  }

  predicate Sensible(p: Peer, items: seq<Item>)
    decreases |items|
  {
    items == [] || (!MeaningOf(p, items[0]).Nothing? && Sensible(Later(p, items[0]), items[1..]))
  }

  /**
   A whole block of any peer, in any mix of representations: the decoder puts out exactly the headers the peer means, in order, and
   its table keeps up with the peer, up to the first item that means nothing; it fails exactly if there is one.
   */
  lemma {:induction false} PeerBlockDecoded(t: Table, p: Peer, items: seq<Item>, out: seq<Header>)
    requires Tracks(t, p) && forall i | 0 <= i < |items| :: Announced(items[i])
    ensures var d := Decode(t, BlockBytes(items), out);
            && d.out == out + Meant(p, items) && Tracks(d.table, LaterAll(p, items))
            && (d.error.None? <==> Sensible(p, items))
    decreases |items|
  {
    if items == [] {
      assert out + [] == out;
    } else {
      var rest := items[1..];
      var spoken := Spoken(MeaningOf(p, items[0]));
      var t' := ItemDecoded(t, p, items[0], BlockBytes(rest), out);
      if MeaningOf(p, items[0]).Nothing? {
        assert out + [] == out;
      } else {
        PeerBlockDecoded(t', Later(p, items[0]), rest, out + spoken);
        Assoc(out, spoken, Meant(Later(p, items[0]), rest));
      }
    }
  }

  lemma NewPeerTracked()
    ensures Tracks(EMPTY_TABLE, Peer([], 4096))
  {
  }

  /** An indexed field at any index but zero, with any table that is what fits of a history. */
  lemma IndexedDecoded(t: Table, history: seq<Header>, i: nat, rest: bytes, out: seq<Header>)
    requires i > 0 && Consistent(t) && t.entries == Fit(history, t.limit)
    ensures var d, p := Decode(t, ItemBytes(ByIndex(i)) + rest, out), Peer(history, t.limit);
            if 1 <= i <= 61 then d == Decode(t, rest, out + [StaticEntry(i)])
            else if FitsInt(i, 7) && i >= 63 && Held(p, i - 63) then d == Decode(t, rest, out + [history[i - 63]])
            else d.error.Some? && d.table == t && d.out == out
  {
    var t' := ItemDecoded(t, Peer(history, t.limit), ByIndex(i), rest, out);
  }

  /** For instance the one byte that names the second static entry. */
  lemma MethodGet(t: Table)
    requires Consistent(t)
    ensures Decode(t, [0x82], []) == Decoded(t, [Header(Ascii(":method"), Ascii("GET"), false)], None)
  {
    AllPrefixes(Never);
    FitAll(t.entries, t.limit);
    assert ItemBytes(ByIndex(2)) + [] == [0x82];
    IndexedDecoded(t, t.entries, 2, [], []);
    assert [] + [StaticEntry(2)] == [StaticEntry(2)];
  }

  /** The one representation left out: a literal to be indexed under name index 32 or more is taken for a limit 32 below that index. */
  lemma TakenForLimit(t: Table, i: nat, rest: bytes)
    requires i >= 32 && FreePrefix(6, 0x40)
    ensures var r := ReadField(t, IntBytes(i, 6, 0x40) + rest);
            if FitsInt(i, 6) && i - 32 <= t.limit then r == FieldOk(Resize(i - 32), rest) else r.FieldErr?
  {
    AllPrefixes(Indexing);
    FirstByteOf(i, 6, 0x40, rest);
    var data := IntBytes(i, 6, 0x40) + rest;
    var b := data[0];
    assert 96 <= b < 128 && b / 32 % 2 == 1;
    if i < 63 {
      assert data[1..] == rest;
    } else {
      var more := i - 63;
      assert data[1..] == Continuation(more) + rest;
      FullPrefix(more, 5, rest);
    }
  }

  /** The form the encoder sends a string in. */
  function Shorter(s: bytes): Text {
    Text(s, HuffmanLength(s) < |s|)
  }

  /** Headers the encoder keeps out of every table, by request or by name. */
  predicate Secret(h: Header) {
    h.sensitive || h.name in [Ascii("authorization"), Ascii("cookie"), Ascii("proxy-authorization")]
  }

  /** The encoder spells every header out; secret ones are sent as never indexed and not remembered, all others are. */
  lemma EncoderSpells(t: Table, h: Header)
    ensures Hpack.HeaderBytes(h) == ItemBytes(Spelled(if Secret(h) then Never else Indexing, Shorter(h.name), Shorter(h.value)))
    ensures Remember(t, h) == if Secret(h) then t else Add(t, h)
  {
    AllPrefixes(Indexing);
    AllPrefixes(Never);
    Prefixes();
    Assoc(IntBytes(0, 4, 0x10), StringBytes(h.name), StringBytes(h.value));
    Assoc(IntBytes(0, 6, 0x40), StringBytes(h.name), StringBytes(h.value));
  }
}
