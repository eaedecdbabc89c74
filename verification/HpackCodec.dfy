/** HpackEncoder and HpackDecoder: the objects whose methods realise the state machines of module Hpack. */
module HpackCodec {
  import opened Bytes
  import opened Buffer
  import opened HpackInt
  import opened HpackString
  import opened HpackTable
  import opened Hpack

  class DynamicTable {
    var entries: seq<Header>
    var size: int
    var limit: nat

    function State(): Table
      reads this
    {
      Table(entries, size, limit)
    }

    constructor ()
      ensures State() == EMPTY_TABLE && Consistent(State())
    {
      entries, size, limit := [], 0, 4096;
    }

    /** The eviction loop that follows every insertion and every change of the limit; the size never underflows. */
    method EvictExcess()
      requires size == SizeOf(entries)
      modifies this
      ensures State() == Evict(old(State())) && Consistent(State())
    {
      EvictIsFit(State());
      while size > limit && entries != []
        invariant size == SizeOf(entries) && size >= 0
        invariant Evict(State()) == Evict(old(State()))
        decreases |entries|
      {
        var last := |entries| - 1;
        assert entries == entries[..last] + [entries[last]];
        SizeOfSnoc(entries[..last], entries[last]);
        size := size - EntrySize(entries[last]);
        entries := entries[..last];
      }
      assert Evict(State()) == State();
    }

    method Insert(h: Header)
      requires Consistent(State())
      modifies this
      ensures State() == Add(old(State()), h) && Consistent(State())
    {
      assert ([h] + entries)[1..] == entries;
      size := size + EntrySize(h);
      entries := [h] + entries;
      EvictExcess();
    }

    method SetMaxTableSize(n: nat)
      requires Consistent(State())
      modifies this
      ensures State() == SetLimit(old(State()), n) && Consistent(State())
    {
      limit := n;
      EvictExcess();
    }
  }

  method AnyUppercase(s: bytes) returns (b: bool)
    ensures b == HasUppercase(s)
  {
    for i := 0 to |s|
      invariant forall j | 0 <= j < i :: !(65 <= s[j] <= 90)
    {
      if 65 <= s[i] <= 90 {
        return true;
      }
    }
    b := false;
  }

  class HpackEncoder {
    const table: DynamicTable

    constructor ()
      ensures fresh(table) && table.State() == EMPTY_TABLE && Consistent(table.State())
    {
      table := new DynamicTable();
    }

    method EncodeHeader(h: Header, out: RingBuffer)
      requires Consistent(table.State()) && out.Valid()
      modifies table, out, out.data
      ensures Consistent(table.State()) && table.State() == Remember(old(table.State()), h)
      ensures out.Valid() && (out.data == old(out.data) || fresh(out.data))
      ensures out.Contents() == old(out.Contents()) + HeaderBytes(h)
    {
      var sensitive := Sensitive(h);
      ghost var start := out.Contents();
      Prefixes();
      EncodeInt(0, if sensitive then 4 else 6, FirstByte(!sensitive), out);
      assert out.Contents() == start + [FirstByte(!sensitive)];
      EncodeString(h.name, out);
      EncodeString(h.value, out);
      Assoc4(start, [FirstByte(!sensitive)], StringBytes(h.name), StringBytes(h.value));
      HeaderLayout(h, []);
      assert HeaderBytes(h) + [] == HeaderBytes(h) && StringBytes(h.value) + [] == StringBytes(h.value);
      if !sensitive {
        table.Insert(h);
      }
    }

    method Encode(headers: seq<Header>, out: RingBuffer) returns (error: Option<HpackError>)
      requires Consistent(table.State()) && out.Valid()
      modifies table, out, out.data
      ensures var b := Hpack.Encode(old(table.State()), headers);
              && error == b.error && table.State() == b.table
              && out.Valid() && (out.data == old(out.data) || fresh(out.data))
              && out.Contents() == old(out.Contents()) + b.data
      ensures Consistent(table.State())
    {
      ghost var whole := Hpack.Encode(table.State(), headers);
      ghost var start := out.Contents();
      ghost var written: bytes := [];
      assert start + written == start && written + whole.data == whole.data;
      for i := 0 to |headers|
        invariant Consistent(table.State())
        invariant out.Valid() && (out.data == old(out.data) || fresh(out.data))
        invariant out.Contents() == start + written
        invariant var b := Hpack.Encode(table.State(), headers[i..]);
                  whole.table == b.table && whole.error == b.error && whole.data == written + b.data
      {
        ghost var t := table.State();
        var upper := AnyUppercase(headers[i].name);
        EncodeStep(t, headers, i, written, start);
        if upper {
          return Some(UppercaseName);
        }
        EncodeHeader(headers[i], out);
        written := written + HeaderBytes(headers[i]);
      }
      assert headers[|headers|..] == [];
      assert written + [] == written;
      error := None;
    }

    /** Encodes into a buffer of its own, as send_response does before anything reaches the output. */
    method EncodeBlock(headers: seq<Header>) returns (block: bytes, failed: bool)
      requires Consistent(table.State())
      modifies table
      ensures Consistent(table.State())
      ensures var b := Hpack.Encode(old(table.State()), headers);
              table.State() == b.table && failed == b.error.Some? && block == b.data
    {
      var encoded := new RingBuffer(4096);
      var error := Encode(headers, encoded);
      block := encoded.Peek(encoded.Readable());
      WholePeek(block, encoded.Contents(), Hpack.Encode(old(table.State()), headers).data);
      failed := error.Some?;
    }
  }

  lemma WholePeek(block: bytes, contents: bytes, data: bytes)
    requires contents == [] + data && block == contents[..|contents|]
    ensures block == data
  {
  }

  lemma EncodeStep(t: Table, headers: seq<Header>, i: nat, written: bytes, start: bytes)
    requires i < |headers|
    ensures var b := Hpack.Encode(t, headers[i..]);
            if HasUppercase(headers[i].name) then b == Block(t, [], Some(UppercaseName)) && written + [] == written
            else
              var rest := Hpack.Encode(Remember(t, headers[i]), headers[i + 1..]);
              && b.table == rest.table && b.error == rest.error
              && written + b.data == (written + HeaderBytes(headers[i])) + rest.data
              && start + written + HeaderBytes(headers[i]) == start + (written + HeaderBytes(headers[i]))
  {
    assert headers[i..][0] == headers[i] && headers[i..][1..] == headers[i + 1..];
  }

  class HpackDecoder {
    const table: DynamicTable
    var tree: LazyTrie

    ghost predicate Valid()
      reads table
    {
      Consistent(table.State())
    }

    constructor ()
      ensures Valid() && fresh(table) && table.State() == EMPTY_TABLE
    {
      table := new DynamicTable();
      tree := [];
    }

    /** The name of a literal representation. */
    method ReadNameField(data: bytes, prefixBits: nat) returns (r: StringResult)
      requires Valid()
      modifies this`tree
      ensures Valid() && r == ReadName(table.State(), data, prefixBits)
    {
      var index := DecodeInt(data, prefixBits);
      if index.IntErr? {
        return StringErr(index.error);
      }
      if index.value == 0 {
        r, tree := DecodeString(index.rest, tree);
        return;
      }
      var h := Lookup(table.State(), index.value);
      r := if h.None? then StringErr(BadNameIndex) else StringOk(h.value.name, index.rest);
    }

    method ReadLiteralField(data: bytes, stored: bool, never: bool) returns (r: FieldResult)
      requires Valid()
      modifies this`tree
      ensures Valid() && r == ReadLiteral(table.State(), data, stored, never)
    {
      var name := ReadNameField(data, if stored then 6 else 4);
      if name.StringErr? {
        return FieldErr(name.error);
      }
      var value;
      value, tree := DecodeString(name.rest, tree);
      if value.StringErr? {
        return FieldErr(value.error);
      }
      var upper := AnyUppercase(name.value);
      if upper {
        return FieldErr(UppercaseName);
      }
      r := FieldOk(Literal(Header(name.value, value.value, never), stored), value.rest);
    }

    method ReadNext(data: bytes) returns (r: FieldResult)
      requires Valid() && data != []
      modifies this`tree
      ensures Valid() && r == ReadField(table.State(), data)
    {
      match KindOf(data[0])
      case IndexedKind =>
        var index := DecodeInt(data, 7);
        if index.IntErr? {
          return FieldErr(index.error);
        }
        var h := Lookup(table.State(), index.value);
        r := if h.None? then FieldErr(BadIndex) else FieldOk(Indexed(h.value), index.rest);
      case ResizeKind =>
        var n := DecodeInt(data, 5);
        if n.IntErr? {
          return FieldErr(n.error);
        }
        r := if n.value > table.limit then FieldErr(SizeUpdateTooLarge) else FieldOk(Resize(n.value), n.rest);
      case LiteralKind(stored, never) =>
        r := ReadLiteralField(data, stored, never);
    }

    /** What a representation does once it is read. */
    method Act(f: Field, out: seq<Header>) returns (out': seq<Header>)
      requires Valid()
      modifies table
      ensures Valid() && table.State() == Apply(old(table.State()), f) && out' == out + Emitted(f)
    {
      out' := out;
      match f
      case Indexed(h) => out' := out + [h];
      case Resize(n) => table.SetMaxTableSize(n);
      case Literal(h, stored) =>
        out' := out + [h];
        if stored {
          table.Insert(h);
        }
    }

    /** Appends the decoded headers to those already in out, keeping what was read before an error. */
    method Decode(data: bytes, out: seq<Header>) returns (out': seq<Header>, error: Option<HpackError>)
      requires Valid()
      modifies this`tree, table
      ensures Valid()
      ensures Decoded(table.State(), out', error) == Hpack.Decode(old(table.State()), data, out)
    {
      var rest := data;
      out' := out;
      while rest != []
        invariant Valid()
        invariant Hpack.Decode(table.State(), rest, out') == Hpack.Decode(old(table.State()), data, out)
        decreases |rest|
      {
        DecodeStep(table.State(), rest, out');
        var r := ReadNext(rest);
        if r.FieldErr? {
          return out', Some(r.error);
        }
        out' := Act(r.field, out');
        rest := r.rest;
      }
      error := None;
    }
  }
}
