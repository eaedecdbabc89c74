/** String literals (section 5.2 of RFC 7541): Huffman coded when that is shorter, raw otherwise. */
module HpackString {
  import opened Bytes
  import opened Bits
  import opened Buffer
  import opened HuffmanTable
  import opened HuffmanCode
  import opened HuffmanTrie
  import opened Huffman
  import opened HpackInt

  datatype StringResult = StringOk(value: bytes, rest: bytes) | StringErr(error: HpackError)

  const MAX_STRING := 65535

  lemma Prefixes()
    ensures FreePrefix(7, 0x80) && FreePrefix(7, 0) && FreePrefix(6, 0x40) && FreePrefix(4, 0x10)
    ensures Pow2(7) == 128 && Pow2(6) == 64 && Pow2(4) == 16
  {
  }

  function HuffmanLength(s: bytes): nat {
    (CodedBits(s) + 7) / 8
  }

  /** How many bytes follow the length. */
  function CodedLength(s: bytes): nat {
    if HuffmanLength(s) < |s| then HuffmanLength(s) else |s|
  }

  ghost function StringBytes(s: bytes): (r: bytes)
    ensures |r| > 0
  {
    Prefixes();
    if HuffmanLength(s) < |s| then IntBytes(HuffmanLength(s), 7, 0x80) + HuffmanBytes(s)
    else IntBytes(|s|, 7, 0) + s
  }

  method CountBits(s: bytes) returns (n: nat)
    ensures n == CodedBits(s)
  {
    n := 0;
    for i := 0 to |s|
      invariant CodedBits(s) == n + CodedBits(s[i..])
    {
      assert s[i..][1..] == s[i + 1..];
      n := n + Nbits(s[i]);
    }
  }

  method EncodeString(s: bytes, out: RingBuffer)
    requires out.Valid()
    modifies out, out.data
    ensures out.Valid() && (out.data == old(out.data) || fresh(out.data))
    ensures out.Contents() == old(out.Contents()) + StringBytes(s)
  {
    ghost var start := out.Contents();
    var length, flag, payload := ChooseForm(s);
    EncodeInt(length, 7, flag, out);
    out.Append(payload);
    Assoc(start, IntBytes(length, 7, flag), payload);
  }

  /** Huffman form if it is strictly shorter, the raw bytes otherwise. */
  method ChooseForm(s: bytes) returns (length: nat, flag: byte, payload: bytes)
    ensures FreePrefix(7, flag)
    ensures StringBytes(s) == IntBytes(length, 7, flag) + payload
  {
    Prefixes();
    var bits := CountBits(s);
    var huffmanBytes := (bits + 7) / 8;
    assert huffmanBytes == HuffmanLength(s);
    if huffmanBytes < |s| {
      payload := EncodeHuffman(s);
      length, flag := huffmanBytes, 0x80;
    } else {
      length, flag, payload := |s|, 0, s;
    }
  }

  ghost function DecodedString(data: bytes): (r: StringResult)
    ensures r.StringOk? ==> |r.rest| < |data|
  {
    if data == [] then
      StringErr(TruncatedString)
    else
      match DecodedInt(data, 7)
      case IntErr(e) => StringErr(e)
      case IntOk(len, rest) =>
        IntShrinks(data, 7);
        if len > MAX_STRING || len > |rest| then
          StringErr(BadStringLength)
        else if data[0] >= 128 then
          match HuffmanDecoded(rest[..len])
          case None => StringErr(EosInHuffman)
          case Some(s) => StringOk(s, rest[len..])
        else
          StringOk(rest[..len], rest[len..])
  }

  lemma {:induction false} TailShrinks(data: bytes, m: nat, value: nat)
    ensures DecodeTail(data, m, value).IntOk? ==> |DecodeTail(data, m, value).rest| < |data|
  {
    if data != [] && data[0] >= 128 && m + 7 <= 56 {
      TailShrinks(data[1..], m + 7, value + data[0] % 128 * Pow2(m));
    }
  }

  lemma IntShrinks(data: bytes, prefixBits: nat)
    ensures DecodedInt(data, prefixBits).IntOk? ==> |DecodedInt(data, prefixBits).rest| < |data|
  {
    if data != [] && 0 < prefixBits <= 8 {
      TailShrinks(data[1..], 0, data[0] % Pow2(prefixBits));
    }
  }

  /** The decoder's static tree: empty before its first use, the table's trie from then on. */
  type LazyTrie = t: seq<Node> | t == [] || IsTrie(t, Codes()) witness []

  /** decode_string; the trie is built on first use and handed back for the next one. */
  method DecodeString(data: bytes, tree: LazyTrie) returns (r: StringResult, tree': LazyTrie)
    ensures r == DecodedString(data)
  {
    tree' := tree;
    if data == [] {
      return StringErr(TruncatedString), tree';
    }
    var huffman := data[0] >= 128;
    var length := DecodeInt(data, 7);
    if length.IntErr? {
      return StringErr(length.error), tree';
    }
    var len, rest := length.value, length.rest;
    if len > MAX_STRING || len > |rest| {
      return StringErr(BadStringLength), tree';
    }
    if huffman {
      TableIsCode();
      if tree' == [] {
        tree' := BuildTree();
      }
      var out := WalkTree(tree', rest[..len], Codes());
      return if out.None? then StringErr(EosInHuffman) else StringOk(out.value, rest[len..]), tree';
    }
    r := StringOk(rest[..len], rest[len..]);
  }

  /** A short string takes at most one byte more than it has. */
  lemma ShortString(s: bytes)
    requires |s| < 127
    ensures |StringBytes(s)| <= 1 + |s| && CodedLength(s) <= |s|
  {
    Prefixes();
  }

  /** Encoded strings read back exactly when they are not empty and take at most 65535 bytes. */
  lemma StringRoundTrip(s: bytes, rest: bytes)
    ensures if s != [] && CodedLength(s) <= MAX_STRING then DecodedString(StringBytes(s) + rest) == StringOk(s, rest)
            else DecodedString(StringBytes(s) + rest).StringErr?
  {
    Prefixes();
    if HuffmanLength(s) < |s| {
      Payload(HuffmanLength(s), 0x80, HuffmanBytes(s), rest);
      HuffmanRoundTrip(s);
      HuffmanNonEmpty(s);
    } else {
      Payload(|s|, 0, s, rest);
    }
  }

  lemma HuffmanNonEmpty(s: bytes)
    requires s != []
    ensures HuffmanLength(s) > 0
  {
    CodeLengths(s[0]);
  }

  /** A length and its payload read back as such, unless the length is zero or too large. */
  lemma Payload(len: nat, flag: byte, payload: bytes, rest: bytes)
    requires len == |payload| && (flag == 0 || flag == 0x80) && FreePrefix(7, flag) && Pow2(7) == 128
    ensures var data := IntBytes(len, 7, flag) + payload + rest;
            && data != [] && (data[0] >= 128 <==> flag == 0x80)
            && (0 < len <= MAX_STRING ==>
                  && DecodedInt(data, 7) == IntOk(len, payload + rest)
                  && (payload + rest)[..len] == payload && (payload + rest)[len..] == rest)
            && (len == 0 || len > MAX_STRING ==> DecodedString(data).StringErr?)
  {
    IntRoundTrip(len, 7, flag, payload + rest);
    Assoc(IntBytes(len, 7, flag), payload, rest);
  }
}
