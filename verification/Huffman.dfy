/**
 Huffman strings of HPACK: the shift-register encoder and the trie-walking decoder, each proved to compute the plain
 bit-string definition, and the round trip between them.
 */
module Huffman {
  import opened Bytes
  import opened Bits
  import opened HuffmanTable
  import opened HuffmanCode
  import opened HuffmanTrie

  ghost predicate Below(s: seq<nat>, n: nat) {
    forall k | 0 <= k < |s| :: s[k] < n
  }

  /** The codes of the symbols, one after the other. */
  ghost function Encoded(codes: seq<bits>, s: seq<nat>): bits
    requires Below(s, |codes|)
  {
    if s == [] then [] else codes[s[0]] + Encoded(codes, s[1..])
  }

  datatype Parsed = Symbols(syms: seq<nat>) | EosFound

  ghost function Prepend(s: seq<nat>, p: Parsed): Parsed {
    match p
    case Symbols(t) => Symbols(s + t)
    case EosFound => EosFound
  }

  /** Reference decoder: strip the code that leads the bits, until none does. */
  ghost function Parse(codes: seq<bits>, b: bits): (p: Parsed)
    requires IsCode(codes)
    ensures p.Symbols? ==> Below(p.syms, EOS)
    decreases |b|
  {
    if Unled(codes, b) then
      Symbols([])
    else
      var i :| Leads(codes, i, b);
      NonEmptyCode(codes, i);
      if i == EOS then EosFound else Prepend([i], Parse(codes, b[|codes[i]|..]))
  }

  lemma Comparables(a: bits, b: bits, x: bits)
    ensures a <= x && b <= x ==> a <= b || b <= a
  {
  }

  lemma ParseStep(codes: seq<bits>, i: nat, rest: bits)
    requires IsCode(codes) && i < |codes|
    ensures Parse(codes, codes[i] + rest) == if i == EOS then EosFound else Prepend([i], Parse(codes, rest))
  {
    var b := codes[i] + rest;
    assert Leads(codes, i, b);
    forall j | Leads(codes, j, b)
      ensures j == i
    {
      Comparables(codes[i], codes[j], b);
    }
    assert b[|codes[i]|..] == rest;
  }

  /** What the reference accepts: whole symbols without the end-of-string symbol, then the start of a code. */
  lemma {:induction false} ParseEncoded(codes: seq<bits>, s: seq<nat>, rest: bits)
    requires IsCode(codes) && Unled(codes, rest)
    requires Below(s, EOS)
    ensures Parse(codes, Encoded(codes, s) + rest) == Symbols(s)
  {
    if s == [] {
      assert [] + rest == rest;
    } else {
      ParseEncoded(codes, s[1..], rest);
      assert Encoded(codes, s) + rest == codes[s[0]] + (Encoded(codes, s[1..]) + rest);
      ParseStep(codes, s[0], Encoded(codes, s[1..]) + rest);
      assert [s[0]] + s[1..] == s;
    }
  }

  /** Conversely, accepted bits are exactly such an encoding, and rejected ones reach the end-of-string code. */
  lemma {:induction false} ParseMeaning(codes: seq<bits>, b: bits) returns (s: seq<nat>, rest: bits)
    requires IsCode(codes)
    ensures Below(s, EOS)
    ensures match Parse(codes, b)
            case Symbols(t) => t == s && b == Encoded(codes, s) + rest && Unled(codes, rest)
            case EosFound => b == Encoded(codes, s) + (codes[EOS] + rest)
    decreases |b|
  {
    if Unled(codes, b) {
      s, rest := [], b;
      assert [] + b == b;
    } else {
      var i :| Leads(codes, i, b);
      NonEmptyCode(codes, i);
      var tail := b[|codes[i]|..];
      assert b == codes[i] + tail;
      ParseStep(codes, i, tail);
      if i == EOS {
        s, rest := [], tail;
        assert b == [] + (codes[EOS] + tail);
      } else {
        var s';
        s', rest := ParseMeaning(codes, tail);
        s := [i] + s';
        EncodedCons(codes, i, s', rest);
        EncodedCons(codes, i, s', codes[EOS] + rest);
      }
    }
  }

  lemma EncodedCons(codes: seq<bits>, i: nat, s: seq<nat>, rest: bits)
    requires i < |codes| && Below(s, |codes|)
    ensures Below([i] + s, |codes|)
    ensures codes[i] + (Encoded(codes, s) + rest) == Encoded(codes, [i] + s) + rest
  {
    assert ([i] + s)[1..] == s;
  }

  lemma {:induction false} EncodedConcat(codes: seq<bits>, s: seq<nat>, t: seq<nat>)
    requires Below(s, |codes|)
    requires Below(t, |codes|)
    ensures Below(s + t, |codes|)
    ensures Encoded(codes, s + t) == Encoded(codes, s) + Encoded(codes, t)
  {
    if s == [] {
      assert s + t == t;
    } else {
      assert (s + t)[1..] == s[1..] + t;
      EncodedConcat(codes, s[1..], t);
    }
  }

  /** Fewer than thirty one-bits complete no symbol. */
  lemma OnesUnled(codes: seq<bits>, n: nat)
    requires IsCode(codes) && codes[EOS] == Ones(30) && n < 30
    ensures Unled(codes, Ones(n))
  {
    forall i
      ensures !Leads(codes, i, Ones(n))
    {
      assert Ones(n) <= codes[EOS];
      if 0 <= i < |codes| {
        PrefixTransitive(codes[i], Ones(n), codes[EOS]);
      }
    }
  }

  ghost function DecodeSpec(codes: seq<bits>, data: bytes): Option<bytes>
    requires IsCode(codes)
  {
    match Parse(codes, BytesToBits(data))
    case Symbols(s) => Some(s)
    case EosFound => None
  }

  ghost predicate Inner(tree: seq<Node>, paths: seq<bits>, codes: seq<bits>, node: int) {
    IsCode(codes) && Spells(tree, paths, codes) && 0 <= node < |tree| && tree[node].sym == -1
  }

  /** The bits seen so far spell the symbols output so far and then the path to the current node. */
  ghost predicate Standing(tree: seq<Node>, paths: seq<bits>, codes: seq<bits>, seen: bits, out: seq<nat>, node: int) {
    Inner(tree, paths, codes, node) && Below(out, |codes|) && seen == Encoded(codes, out) + paths[node]
  }

  /** One bit of the walk; done is false when the end-of-string symbol came up. */
  method WalkBit(tree: seq<Node>, node: nat, bit: bool, out: bytes, ghost paths: seq<bits>, ghost codes: seq<bits>, ghost seen: bits)
    returns (done: bool, node': nat, out': bytes)
    requires Standing(tree, paths, codes, seen, out, node)
    ensures done ==> Standing(tree, paths, codes, seen + [bit], out', node')
    ensures !done ==> seen + [bit] == Encoded(codes, out') + codes[EOS]
  {
    out' := out;
    var child := Child(tree[node], bit);
    if child == -1 {
      // the source's "invalid Huffman code" error
      assert false;
    }
    node' := child;
    Assoc(Encoded(codes, out), paths[node], [bit]);
    done := tree[node'].sym != EOS;
    if done && tree[node'].sym != -1 {
      EncodedSnoc(codes, out, tree[node'].sym);
      out' := out + [tree[node'].sym];
      node' := 0;
    }
  }

  /** The eight bits of one byte, most significant first. */
  method WalkByte(tree: seq<Node>, start: nat, b: byte, prior: bytes, ghost paths: seq<bits>, ghost codes: seq<bits>, ghost seen: bits)
    returns (done: bool, node: nat, out: bytes, ghost rest: bits)
    requires Standing(tree, paths, codes, seen, prior, start)
    ensures done ==> Standing(tree, paths, codes, seen + BitsOf(b, 8), out, node)
    ensures !done ==> seen + BitsOf(b, 8) == Encoded(codes, out) + (codes[EOS] + rest)
  {
    ghost var all := BitsOf(b, 8);
    node, out, rest := start, prior, [];
    var bit: nat := 8;
    assert seen + all[..0] == seen;
    while bit > 0
      invariant bit <= 8 && |all| == 8
      invariant Standing(tree, paths, codes, seen + all[..8 - bit], out, node)
    {
      bit := bit - 1;
      NextBit(seen, b, bit);
      done, node, out := WalkBit(tree, node, Shr(b, bit) % 2 == 1, out, paths, codes, seen + all[..7 - bit]);
      if !done {
        rest := all[8 - bit..];
        CutAt(seen, all, 8 - bit);
        Assoc(Encoded(codes, out), codes[EOS], rest);
        return;
      }
    }
    done := true;
    assert all[..8] == all;
  }

  lemma CutAt(seen: bits, all: bits, k: nat)
    requires k <= |all|
    ensures seen + all == (seen + all[..k]) + all[k..]
  {
    assert all == all[..k] + all[k..];
  }

  lemma NextBit(seen: bits, b: byte, bit: nat)
    requires bit < 8
    ensures seen + BitsOf(b, 8)[..8 - bit] == (seen + BitsOf(b, 8)[..7 - bit]) + [Shr(b, bit) % 2 == 1]
  {
    BitAt(b, 8, 7 - bit);
  }

  lemma NextByte(data: bytes, i: nat)
    requires i < |data|
    ensures BytesToBits(data[..i + 1]) == BytesToBits(data[..i]) + BitsOf(data[i], 8)
  {
    Snoc(data[..i], data[i]);
    assert data[..i + 1] == data[..i] + [data[i]];
  }

  lemma EncodedSnoc(codes: seq<bits>, s: seq<nat>, i: nat)
    requires Below(s, |codes|) && i < |codes|
    ensures Below(s + [i], |codes|)
    ensures Encoded(codes, s + [i]) == Encoded(codes, s) + codes[i]
  {
    EncodedConcat(codes, s, [i]);
    assert Encoded(codes, [i]) == codes[i] + Encoded(codes, [i][1..]);
  }

  /** Bits that reach the end-of-string code are rejected. */
  lemma {:induction false} ParseEos(codes: seq<bits>, s: seq<nat>, rest: bits)
    requires IsCode(codes) && Below(s, EOS)
    ensures Parse(codes, Encoded(codes, s) + (codes[EOS] + rest)) == EosFound
  {
    if s == [] {
      ParseStep(codes, EOS, rest);
      assert [] + (codes[EOS] + rest) == codes[EOS] + rest;
    } else {
      ParseEos(codes, s[1..], rest);
      assert [s[0]] + s[1..] == s;
      EncodedCons(codes, s[0], s[1..], codes[EOS] + rest);
      ParseStep(codes, s[0], Encoded(codes, s[1..]) + (codes[EOS] + rest));
    }
  }

  /** The trie walk of decode_string over the whole string; None when it meets the end-of-string symbol. */
  method WalkTree(tree: seq<Node>, data: bytes, ghost codes: seq<bits>) returns (r: Option<bytes>)
    requires IsCode(codes) && IsTrie(tree, codes)
    ensures r == DecodeSpec(codes, data)
  {
    ghost var paths :| Spells(tree, paths, codes);
    var node, out := 0, [];
    for i := 0 to |data|
      invariant Standing(tree, paths, codes, BytesToBits(data[..i]), out, node)
    {
      NextByte(data, i);
      var done;
      ghost var rest;
      done, node, out, rest := WalkByte(tree, node, data[i], out, paths, codes, BytesToBits(data[..i]));
      if !done {
        EosSpelled(codes, data, i, out, rest);
        return None;
      }
    }
    assert data[..|data|] == data;
    ParseEncoded(codes, out, paths[node]);
    r := Some(out);
  }

  lemma EosSpelled(codes: seq<bits>, data: bytes, i: nat, s: seq<nat>, rest: bits)
    requires IsCode(codes) && Below(s, EOS) && i < |data|
    requires BytesToBits(data[..i + 1]) == Encoded(codes, s) + (codes[EOS] + rest)
    ensures DecodeSpec(codes, data) == None
  {
    var tail := BytesToBits(data[i + 1..]);
    assert data == data[..i + 1] + data[i + 1..];
    BytesToBitsConcat(data[..i + 1], data[i + 1..]);
    assert Encoded(codes, s) + (codes[EOS] + rest) + tail == Encoded(codes, s) + (codes[EOS] + (rest + tail));
    ParseEos(codes, s, rest + tail);
  }

  /** Moves whole bytes from the bottom bitLen bits of the register to the output. */
  method Flush(bitBuf: nat, bitLen: nat, enc: bytes) returns (bitLen': nat, enc': bytes)
    ensures bitLen' < 8
    ensures BytesToBits(enc') + BitsOf(bitBuf, bitLen') == BytesToBits(enc) + BitsOf(bitBuf, bitLen)
  {
    bitLen', enc' := bitLen, enc;
    while bitLen' >= 8
      invariant BytesToBits(enc') + BitsOf(bitBuf, bitLen') == BytesToBits(enc) + BitsOf(bitBuf, bitLen)
    {
      var n := bitLen' - 8;
      var b := Shr(bitBuf, n) % 256;
      ByteMoved(bitBuf, bitLen', n, enc', b);
      bitLen', enc' := n, enc' + [b];
    }
  }

  lemma ByteMoved(bitBuf: nat, m: nat, n: nat, enc: bytes, b: byte)
    requires m == n + 8 && b == Shr(bitBuf, n) % 256
    ensures BytesToBits(enc + [b]) + BitsOf(bitBuf, n) == BytesToBits(enc) + BitsOf(bitBuf, m)
  {
    BitsSplit(bitBuf, 8, n);
    ByteBits(Shr(bitBuf, n));
    Snoc(enc, b);
    Assoc(BytesToBits(enc), BitsOf(b, 8), BitsOf(bitBuf, n));
  }

  lemma ByteBits(v: nat)
    ensures BitsOf(v % 256, 8) == BitsOf(v, 8)
  {
    assert Pow2(8) == 256;
    BitsTruncated(v, 8, 8);
  }

  lemma Snoc(s: bytes, b: byte)
    ensures BytesToBits(s + [b]) == BytesToBits(s) + BitsOf(b, 8)
  {
    BytesToBitsConcat(s, [b]);
    assert BytesToBits([b]) == BitsOf(b, 8) + BytesToBits([b][1..]);
  }

  /** One turn of the register: shift the code in below the pending bits, in 64 bits. */
  function Shifted(bitBuf: nat, code: nat, nbits: nat): nat {
    (Shl(bitBuf, nbits) + code) % 0x1_0000_0000_0000_0000
  }

  lemma ShiftedBits(bitBuf: nat, bitLen: nat, code: nat, nbits: nat)
    requires bitLen + nbits <= 64 && code < Pow2(nbits)
    ensures BitsOf(Shifted(bitBuf, code, nbits), bitLen + nbits) == BitsOf(bitBuf, bitLen) + BitsOf(code, nbits)
  {
    Pow2Values();
    BitsTruncated(Shl(bitBuf, nbits) + code, 64, bitLen + nbits);
    BitsJoin(bitBuf, bitLen, code, nbits);
  }

  /** How many bits the codes of s take: the source's huffman_len. */
  function CodedBits(s: bytes): nat {
    if s == [] then 0 else Nbits(s[0]) + CodedBits(s[1..])
  }

  lemma {:induction false} CodedBitsIsLength(s: bytes)
    ensures CodedBits(s) == |Encoded(Codes(), s)|
  {
    if s != [] {
      CodedBitsIsLength(s[1..]);
    }
  }

  /** Padding bits that complete n bits to whole bytes. */
  function Padding(n: nat): (p: nat)
    ensures p < 8 && (n + p) % 8 == 0 && (n + p) / 8 == (n + 7) / 8
  {
    (8 - n % 8) % 8
  }

  /** The bytes output and the bits still in the register are the codes of s. */
  ghost predicate Pending(codes: seq<bits>, s: seq<nat>, enc: bytes, bitBuf: nat, bitLen: nat) {
    Below(s, |codes|) && BytesToBits(enc) + BitsOf(bitBuf, bitLen) == Encoded(codes, s)
  }

  /** One symbol: its code enters the register from below, and whole bytes leave it at the top. */
  method Push(c: byte, bitBuf: nat, bitLen: nat, enc: bytes, ghost codes: seq<bits>, ghost s: seq<nat>)
    returns (bitBuf': nat, bitLen': nat, enc': bytes)
    requires codes == Codes() && bitLen < 8 && Pending(codes, s, enc, bitBuf, bitLen)
    ensures bitLen' < 8 && Pending(codes, s + [c], enc', bitBuf', bitLen')
  {
    var code, nbits := LookUp(c);
    ShiftedIn(codes, s, c, enc, bitBuf, bitLen, code, nbits);
    bitBuf' := Shifted(bitBuf, code, nbits);
    bitLen', enc' := Flush(bitBuf', bitLen + nbits, enc);
  }

  /** The shift-register encoder: whole bytes of concatenated codes, completed with one-bits. */
  method EncodeHuffman(s: bytes) returns (enc: bytes)
    ensures enc == HuffmanBytes(s)
  {
    ghost var codes := Codes();
    var bitBuf, bitLen := 0, 0;
    enc := [];
    for i := 0 to |s|
      invariant bitLen < 8 && Pending(codes, s[..i], enc, bitBuf, bitLen)
    {
      Grown(s, i);
      bitBuf, bitLen, enc := Push(s[i], bitBuf, bitLen, enc, codes, s[..i]);
    }
    Grown(s, |s|);
    CodedBitsIsLength(s);
    enc := Complete8(enc, bitBuf, bitLen);
    BytesOfTheirBits(enc);
  }

  lemma Grown(s: bytes, i: nat)
    requires i <= |s|
    ensures if i < |s| then s[..i + 1] == s[..i] + [s[i]] else s[..i] == s
  {
  }

  lemma ShiftedIn(codes: seq<bits>, s: seq<nat>, c: nat, enc: bytes, bitBuf: nat, bitLen: nat, code: nat, n: nat)
    requires c < |codes| && bitLen < 8 && n <= 30 && code < Pow2(n) && codes[c] == BitsOf(code, n)
    requires Pending(codes, s, enc, bitBuf, bitLen)
    ensures Pending(codes, s + [c], enc, Shifted(bitBuf, code, n), bitLen + n)
  {
    ShiftedBits(bitBuf, bitLen, code, n);
    EncodedSnoc(codes, s, c);
    Assoc(BytesToBits(enc), BitsOf(bitBuf, bitLen), BitsOf(code, n));
  }

  /** The table entry of a byte, its code shifted down to the low bits. */
  method LookUp(c: byte) returns (code: nat, nbits: nat)
    ensures nbits <= 30 && code < Pow2(nbits) && Codes()[c] == BitsOf(code, nbits)
  {
    nbits := Nbits(c);
    ghost var k := CodeNumber(c);
    code := Shr(Code(c), 32 - nbits);
  }

  lemma PaddingOf(k: nat, bitLen: nat)
    requires bitLen < 8
    ensures Padding(8 * k + bitLen) == if bitLen == 0 then 0 else 8 - bitLen
    ensures (8 * k + bitLen + 7) / 8 == if bitLen == 0 then k else k + 1
  {
  }

  /** The last byte: what is left in the register, completed with one-bits. */
  method Complete8(enc: bytes, bitBuf: nat, bitLen: nat) returns (enc': bytes)
    requires bitLen < 8
    ensures var all := BytesToBits(enc) + BitsOf(bitBuf, bitLen);
            BytesToBits(enc') == all + Ones(Padding(|all|)) && |enc'| == (|all| + 7) / 8
  {
    BytesToBitsLength(enc);
    PaddingOf(|enc|, bitLen);
    enc' := enc;
    if bitLen > 0 {
      var n := 8 - bitLen;
      var last := Shifted(bitBuf, Pow2(n) - 1, n);
      LastByte(bitBuf, bitLen, n);
      Snoc(enc, last % 256);
      Assoc(BytesToBits(enc), BitsOf(bitBuf, bitLen), Ones(n));
      enc' := enc + [last % 256];
    } else {
      assert BytesToBits(enc) + [] + Ones(0) == BytesToBits(enc);
    }
  }

  lemma LastByte(bitBuf: nat, bitLen: nat, n: nat)
    requires bitLen + n == 8
    ensures BitsOf(Shifted(bitBuf, Pow2(n) - 1, n) % 256, 8) == BitsOf(bitBuf, bitLen) + Ones(n)
  {
    ShiftedBits(bitBuf, bitLen, Pow2(n) - 1, n);
    OnesOf(n);
    ByteBits(Shifted(bitBuf, Pow2(n) - 1, n));
  }

  /** The Huffman form of s as bytes. */
  ghost function HuffmanBytes(s: bytes): (r: bytes)
    ensures BytesToBits(r) == Encoded(Codes(), s) + Ones(Padding(CodedBits(s)))
    ensures |r| == (CodedBits(s) + 7) / 8
  {
    CodedBitsIsLength(s);
    var b := Encoded(Codes(), s) + Ones(Padding(CodedBits(s)));
    BitsOfTheirBytes(b);
    BitsToBytes(b)
  }

  ghost function HuffmanDecoded(data: bytes): Option<bytes> {
    TableIsCode();
    DecodeSpec(Codes(), data)
  }

  /** The decoder undoes the encoder on every byte string. */
  lemma HuffmanRoundTrip(s: bytes)
    ensures HuffmanDecoded(HuffmanBytes(s)) == Some(s)
  {
    TableIsCode();
    EosIsOnes();
    OnesUnled(Codes(), Padding(CodedBits(s)));
    ParseEncoded(Codes(), s, Ones(Padding(CodedBits(s))));
  }
}
