/** Prefix integers (section 5.1 of RFC 7541): encode_int and decode_int of src/hpack.cpp. */
module HpackInt {
  import opened Bytes
  import opened Bits
  import opened Buffer

  datatype HpackError =
    | TruncatedInteger
    | IndexZero
    | IntegerOverflow
    | TruncatedString
    | BadStringLength
    | EosInHuffman
    | BadIndex
    | BadNameIndex
    | SizeUpdateTooLarge
    | UppercaseName

  /** The value read and the bytes that follow it. */
  datatype IntResult = IntOk(value: nat, rest: bytes) | IntErr(error: HpackError)

  /** Prefixes that leave the low prefixBits bits free, so that or-ing a value in is adding it. */
  predicate FreePrefix(prefixBits: nat, prefix: byte) {
    1 <= prefixBits <= 8 && prefix % Pow2(prefixBits) == 0 && prefix + Pow2(prefixBits) <= 256
  }

  function Continuation(v: nat): (r: bytes)
    ensures |r| > 0
  {
    if v < 128 then [v] else [v % 128 + 128] + Continuation(v / 128)
  }

  function IntBytes(v: nat, prefixBits: nat, prefix: byte): (r: bytes)
    requires FreePrefix(prefixBits, prefix)
    ensures |r| > 0
  {
    var mask := Pow2(prefixBits) - 1;
    if v < mask then [prefix + v] else [prefix + mask] + Continuation(v - mask)
  }

  method EncodeInt(value: nat, prefixBits: nat, prefix: byte, out: RingBuffer)
    requires FreePrefix(prefixBits, prefix) && out.Valid()
    modifies out, out.data
    ensures out.Valid() && (out.data == old(out.data) || fresh(out.data))
    ensures out.Contents() == old(out.Contents()) + IntBytes(value, prefixBits, prefix)
  {
    var maxPrefix := Pow2(prefixBits) - 1;
    if value < maxPrefix {
      out.Append([prefix + value]);
      return;
    }
    out.Append([prefix + maxPrefix]);
    EncodeTail(value - maxPrefix, out);
    ghost var tail := Continuation(value - maxPrefix);
    assert old(out.Contents()) + [prefix + maxPrefix] + tail == old(out.Contents()) + ([prefix + maxPrefix] + tail);
  }

  /** Seven bits a byte, least significant first, all but the last with the top bit set. */
  method EncodeTail(v: nat, out: RingBuffer)
    requires out.Valid()
    modifies out, out.data
    ensures out.Valid() && (out.data == old(out.data) || fresh(out.data))
    ensures out.Contents() == old(out.Contents()) + Continuation(v)
  {
    ghost var start := out.Contents();
    ghost var done: bytes := [];
    var rest := v;
    assert start + done == start;
    while rest >= 128
      invariant out.Valid() && (out.data == old(out.data) || fresh(out.data))
      invariant done + Continuation(rest) == Continuation(v) && out.Contents() == start + done
    {
      var b: byte := rest % 128 + 128;
      out.Append([b]);
      Shuffle(done, b, Continuation(rest / 128), start);
      done := done + [b];
      rest := rest / 128;
    }
    out.Append([rest]);
    assert start + done + [rest] == start + (done + [rest]);
  }

  lemma Shuffle(done: bytes, b: byte, tail: bytes, start: bytes)
    ensures done + ([b] + tail) == (done + [b]) + tail && start + done + [b] == start + (done + [b])
  {
  }

  /** The continuation bytes after a full prefix; m is the shift of the next seven bits. */
  function DecodeTail(data: bytes, m: nat, value: nat): IntResult {
    if data == [] then
      IntErr(TruncatedInteger)
    else
      var sum := value + data[0] % 128 * Pow2(m);
      if data[0] < 128 then IntOk(sum, data[1..])
      else if m + 7 > 56 then IntErr(IntegerOverflow)
      else DecodeTail(data[1..], m + 7, sum)
  }

  function DecodedInt(data: bytes, prefixBits: int): IntResult {
    if data == [] || prefixBits <= 0 || prefixBits > 8 then
      IntErr(TruncatedInteger)
    else
      AfterPrefix(data[0] % Pow2(prefixBits), prefixBits, data[1..])
  }

  /** What follows once the prefix bits hold value. */
  function AfterPrefix(value: nat, prefixBits: nat, tail: bytes): IntResult {
    if value < Pow2(prefixBits) - 1 then
      if value == 0 && prefixBits == 7 then IntErr(IndexZero) else IntOk(value, tail)
    else
      DecodeTail(tail, 0, value)
  }

  /** The loop of decode_int: on every input the accumulator stays within 64 bits. */
  method DecodeContinuation(data: bytes, start: nat) returns (r: IntResult)
    requires start <= 255
    ensures r == DecodeTail(data, 0, start)
    ensures r.IntOk? ==> r.value < UINT64 && |r.rest| < |data|
  {
    var value: nat, rest, m: nat := start, data, 0;
    while rest != []
      invariant m <= 56 && value < 255 + Pow2(m)
      invariant |rest| <= |data|
      invariant DecodeTail(data, 0, start) == DecodeTail(rest, m, value)
      decreases |rest|
    {
      var b := rest[0];
      Seven(m, b);
      value := value + b % 128 * Pow2(m);
      assert value < UINT64;
      if b < 128 {
        return IntOk(value, rest[1..]);
      }
      rest := rest[1..];
      m := m + 7;
      if m > 56 {
        return IntErr(IntegerOverflow);
      }
    }
    r := IntErr(TruncatedInteger);
  }

  lemma ModAtMost(x: nat, p: nat)
    requires p > 0
    ensures x % p <= x
  {
  }

  method DecodeInt(data: bytes, prefixBits: int) returns (r: IntResult)
    ensures r == DecodedInt(data, prefixBits)
    ensures r.IntOk? ==> r.value < UINT64 && |r.rest| < |data|
  {
    if data == [] || prefixBits <= 0 || prefixBits > 8 {
      return IntErr(TruncatedInteger);
    }
    var mask := Pow2(prefixBits) - 1;
    var value := data[0] % Pow2(prefixBits);
    ModAtMost(data[0], Pow2(prefixBits));
    if value < mask {
      return if value == 0 && prefixBits == 7 then IntErr(IndexZero) else IntOk(value, data[1..]);
    }
    r := DecodeContinuation(data[1..], value);
  }

  lemma Seven(m: nat, b: byte)
    requires m <= 56
    ensures b % 128 * Pow2(m) + Pow2(m) <= Pow2(m + 7) == 128 * Pow2(m) <= 0x8000_0000_0000_0000
  {
    Pow2Add(m, 7);
    assert Pow2(7) == 128;
    AtMost127(b % 128, Pow2(m));
    assert 128 * Pow2(m) <= 0x8000_0000_0000_0000 by {
      Pow2Monotone(m, 56);
      Pow2Values();
    }
  }

  lemma AtMost127(a: nat, p: nat)
    requires a <= 127
    ensures a * p <= 127 * p
  {
  }

  /** A continuation decodes to its number exactly when it fits in the bits that are left. */
  lemma {:induction false} TailRoundTrip(v: nat, rest: bytes, m: nat, value: nat, left: nat)
    requires m + left == 63 && left % 7 == 0 && left >= 7
    ensures DecodeTail(Continuation(v) + rest, m, value) ==
            if v < Pow2(left) then IntOk(Weighted(v, m, value), rest) else IntErr(IntegerOverflow)
    decreases v
  {
    SevenLeft(v, left);
    if v < 128 {
      TailStep(v, [], rest, m, value);
    } else {
      var low, high, m', left' := v % 128, v / 128, m + 7, left - 7;
      TailStep(low + 128, Continuation(high), rest, m, value);
      if left > 7 {
        TailRoundTrip(high, rest, m', Weighted(low, m, value), left');
        WeightedSplit(v, low, high, m, m', value);
      }
    }
  }

  function Weighted(low: nat, m: nat, value: nat): nat {
    value + low * Pow2(m)
  }

  lemma TailStep(b: byte, t: bytes, rest: bytes, m: nat, value: nat)
    ensures [b] + [] == [b]
    ensures DecodeTail([b] + t + rest, m, value) ==
            if b < 128 then IntOk(Weighted(b, m, value), t + rest)
            else if m + 7 > 56 then IntErr(IntegerOverflow)
            else DecodeTail(t + rest, m + 7, Weighted(b - 128, m, value))
  {
    HeadTail(b, t, rest);
    assert b % 128 == if b < 128 then b else b - 128;
  }

  lemma SevenLeft(v: nat, left: nat)
    requires left >= 7
    ensures v < 128 ==> v < Pow2(left)
    ensures v < Pow2(left) <==> v / 128 < Pow2(left - 7)
    ensures Pow2(0) == 1
  {
    Pow2Add(left - 7, 7);
    assert Pow2(7) == 128;
  }

  lemma WeightedSplit(v: nat, low: nat, high: nat, m: nat, m': nat, value: nat)
    requires v == low + 128 * high && m' == m + 7
    ensures Weighted(high, m', Weighted(low, m, value)) == Weighted(v, m, value)
  {
    Pow2Add(m, 7);
    assert Pow2(7) == 128;
    DigitAndRest(low, high, Pow2(m));
  }

  lemma DigitAndRest(low: int, high: int, p: int)
    ensures low * p + high * (p * 128) == (low + 128 * high) * p
  {
  }

  /** What decode_int reads back from encode_int, for every prefix width and every value. */
  lemma IntRoundTrip(v: nat, prefixBits: nat, prefix: byte, rest: bytes)
    requires FreePrefix(prefixBits, prefix)
    ensures DecodedInt(IntBytes(v, prefixBits, prefix) + rest, prefixBits) ==
            if v == 0 && prefixBits == 7 then IntErr(IndexZero)
            else if v - (Pow2(prefixBits) - 1) < 0x8000_0000_0000_0000 then IntOk(v, rest)
            else IntErr(IntegerOverflow)
  {
    var p := Pow2(prefixBits);
    if v < p - 1 {
      ShortRoundTrip(v, prefixBits, prefix, rest, p);
    } else {
      LongRoundTrip(v, prefixBits, prefix, rest, p - 1, v - (p - 1));
    }
  }

  lemma ShortRoundTrip(v: nat, prefixBits: nat, prefix: byte, rest: bytes, p: nat)
    requires FreePrefix(prefixBits, prefix) && p == Pow2(prefixBits) && v < p - 1
    ensures DecodedInt(IntBytes(v, prefixBits, prefix) + rest, prefixBits) ==
            if v == 0 && prefixBits == 7 then IntErr(IndexZero) else IntOk(v, rest)
  {
    var b: byte := prefix + v;
    AddedLow(prefix, p, v);
    HeadTail(b, [], rest);
    assert IntBytes(v, prefixBits, prefix) == [b] + [];
  }

  lemma LongRoundTrip(v: nat, prefixBits: nat, prefix: byte, rest: bytes, mask: nat, tail: nat)
    requires FreePrefix(prefixBits, prefix) && mask == Pow2(prefixBits) - 1 && v == mask + tail
    ensures DecodedInt(IntBytes(v, prefixBits, prefix) + rest, prefixBits) ==
            if tail < 0x8000_0000_0000_0000 then IntOk(v, rest) else IntErr(IntegerOverflow)
  {
    var b: byte := prefix + mask;
    AddedLow(prefix, Pow2(prefixBits), mask);
    HeadTail(b, Continuation(tail), rest);
    FullPrefix(tail, prefixBits, rest);
    assert IntBytes(v, prefixBits, prefix) == [b] + Continuation(tail);
  }

  lemma FullPrefix(v: nat, prefixBits: nat, rest: bytes)
    ensures AfterPrefix(Pow2(prefixBits) - 1, prefixBits, Continuation(v) + rest) ==
            if v < 0x8000_0000_0000_0000 then IntOk(Pow2(prefixBits) - 1 + v, rest) else IntErr(IntegerOverflow)
  {
    assert Pow2(63) == 0x8000_0000_0000_0000 by {
      Pow2Values();
    }
    TailRoundTrip(v, rest, 0, Pow2(prefixBits) - 1, 63);
    assert Pow2(0) == 1;
  }

  lemma HeadTail(b: byte, t: bytes, rest: bytes)
    ensures ([b] + t + rest)[0] == b && ([b] + t + rest)[1..] == t + rest && [b] + [] == [b] && [] + rest == rest
  {
  }

  lemma AddedLow(prefix: nat, p: nat, v: nat)
    requires p > 0 && prefix % p == 0 && v < p
    ensures (prefix + v) % p == v
  {
    var q := prefix / p;
    assert prefix == q * p;
    DivMulAdd(q, p, v);
  }

  /** How many bytes in a row ask for another one, and the number seven-bit groups spell, least significant first. */
  function Continued(data: bytes): (k: nat)
    ensures k <= |data|
  {
    if data != [] && data[0] >= 128 then 1 + Continued(data[1..]) else 0
  }

  function Groups(s: bytes): nat {
    if s == [] then 0 else s[0] % 128 + 128 * Groups(s[1..])
  }

  lemma GroupsFirst(data: bytes, k: nat)
    requires k < |data|
    ensures Groups(data[..k + 1]) == data[0] % 128 + 128 * if k == 0 then 0 else Groups(data[1..][..k])
  {
    assert data[..k + 1][1..] == data[1..][..k];
  }

  lemma GroupStep(g: nat, b: nat, m: nat)
    ensures b * Pow2(m) + g * Pow2(m + 7) == (b + 128 * g) * Pow2(m)
  {
    Pow2Add(m, 7);
    assert Pow2(7) == 128 by {
      assert Pow2(3) == 8;
    }
    ShiftGroup(g, b, Pow2(m), Pow2(m + 7));
  }

  lemma ShiftGroup(g: nat, b: nat, p: nat, q: nat)
    requires q == p * 128
    ensures b * p + g * q == (b + 128 * g) * p
  {
  }

  /** The loop on any bytes, j groups into a number. */
  lemma {:induction false} TailMeans(data: bytes, j: nat, m: nat, value: nat)
    requires j <= 8 && m == 7 * j
    ensures var k := Continued(data);
            DecodeTail(data, m, value) ==
            if j + k >= 9 then IntErr(IntegerOverflow)
            else if k == |data| then IntErr(TruncatedInteger)
            else IntOk(value + Groups(data[..k + 1]) * Pow2(m), data[k + 1..])
    decreases |data|
  {
    if data != [] {
      var k := Continued(data);
      if data[0] < 128 {
        GroupsFirst(data, 0);
      } else if j < 8 {
        TailMeans(data[1..], j + 1, m + 7, value + data[0] % 128 * Pow2(m));
        if k < |data| && j + k < 9 {
          GroupsFirst(data, k);
          GroupStep(Groups(data[1..][..k]), data[0] % 128, m);
          assert data[1..][k..] == data[k + 1..];
        }
      }
    }
  }

  /**
   What decode_int makes of any bytes after a full prefix, minimal or not: up to eight bytes may ask for another one, nine are an
   overflow, and what is accepted is the number its groups spell, on top of the prefix.
   */
  lemma AnyTail(data: bytes, value: nat)
    ensures var k := Continued(data);
            DecodeTail(data, 0, value) ==
            if k >= 9 then IntErr(IntegerOverflow)
            else if k == |data| then IntErr(TruncatedInteger)
            else IntOk(value + Groups(data[..k + 1]), data[k + 1..])
  {
    TailMeans(data, 0, 0, value);
  }

  /** Groups of zeros at the end, which no encoder needs, do not change the number. */
  lemma {:induction false} PaddedGroups(s: bytes, padding: bytes)
    requires forall i | 0 <= i < |padding| :: padding[i] % 128 == 0
    ensures Groups(s + padding) == Groups(s)
    decreases |s| + |padding|
  {
    if s == [] {
      assert s + padding == padding;
      if padding != [] {
        PaddedGroups([], padding[1..]);
        assert [] + padding[1..] == padding[1..];
      }
    } else {
      assert (s + padding)[1..] == s[1..] + padding;
      PaddedGroups(s[1..], padding);
    }
  }
}
