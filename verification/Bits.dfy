/** Bit strings, most significant bit first, and the numbers and bytes they spell. */
module Bits {
  import opened Bytes

  type bits = seq<bool>

  function Pow2(n: nat): (p: nat)
    ensures p > 0
  {
    if n == 0 then 1 else 2 * Pow2(n - 1)
  }

  /** The low n bits of v. */
  function BitsOf(v: nat, n: nat): (b: bits)
    ensures |b| == n
  {
    if n == 0 then [] else BitsOf(v / 2, n - 1) + [v % 2 == 1]
  }

  /** The logical shifts of the source, on numbers wide enough to lose nothing. */
  function Shr(v: nat, n: nat): nat {
    if n == 0 then v else Shr(v / 2, n - 1)
  }

  function Shl(v: nat, n: nat): nat {
    if n == 0 then v else 2 * Shl(v, n - 1)
  }

  function Value(b: bits): nat {
    if b == [] then 0 else 2 * Value(b[..|b| - 1]) + if b[|b| - 1] then 1 else 0
  }

  function Ones(n: nat): bits {
    seq(n, _ => true)
  }

  function BytesToBits(s: bytes): bits {
    if s == [] then [] else BitsOf(s[0], 8) + BytesToBits(s[1..])
  }

  lemma {:induction false} Pow2Add(a: nat, b: nat)
    ensures Pow2(a + b) == Pow2(a) * Pow2(b)
  {
    if b != 0 {
      Pow2Add(a, b - 1);
      calc {
        Pow2(a + b);
        2 * (Pow2(a) * Pow2(b - 1));
        Pow2(a) * (2 * Pow2(b - 1));
      }
    }
  }

  lemma {:induction false} Pow2Monotone(a: nat, b: nat)
    requires a <= b
    ensures Pow2(a) <= Pow2(b)
  {
    if a < b {
      Pow2Monotone(a, b - 1);
    }
  }

  lemma {:induction false} ValueBound(b: bits)
    ensures Value(b) < Pow2(|b|)
  {
    if b != [] {
      ValueBound(b[..|b| - 1]);
    }
  }

  lemma {:induction false} ValueConcat(a: bits, b: bits)
    ensures Value(a + b) == Value(a) * Pow2(|b|) + Value(b)
  {
    if b == [] {
      assert a + b == a;
    } else {
      var b' := b[..|b| - 1];
      assert (a + b)[..|a + b| - 1] == a + b';
      ValueConcat(a, b');
      Doubled(Value(a), Pow2(|b'|), Pow2(|b|));
    }
  }

  lemma Doubled(x: int, p: int, q: int)
    requires q == 2 * p
    ensures x * q == 2 * (x * p)
  {
  }

  /** BitsOf and Value are inverse to each other on n-bit numbers. */
  lemma {:induction false} ValueOfBits(v: nat, n: nat)
    requires v < Pow2(n)
    ensures Value(BitsOf(v, n)) == v
  {
    if n != 0 {
      ValueOfBits(v / 2, n - 1);
      assert BitsOf(v, n)[..n - 1] == BitsOf(v / 2, n - 1);
    }
  }

  lemma {:induction false} BitsOfValue(b: bits)
    ensures BitsOf(Value(b), |b|) == b
  {
    if b != [] {
      BitsOfValue(b[..|b| - 1]);
    }
  }

  /** A number's low a + b bits are the low a bits of its upper part followed by its low b bits. */
  lemma {:induction false} BitsSplit(v: nat, a: nat, b: nat)
    ensures BitsOf(v, a + b) == BitsOf(Shr(v, b), a) + BitsOf(v, b)
  {
    if b != 0 {
      BitsSplit(v / 2, a, b - 1);
      assert BitsOf(v, a + b) == BitsOf(v / 2, a + (b - 1)) + [v % 2 == 1];
    }
  }

  lemma {:induction false} ShrShl(v: nat, c: nat, n: nat)
    requires c < Pow2(n)
    ensures Shr(Shl(v, n) + c, n) == v
  {
    if n != 0 {
      assert (Shl(v, n) + c) / 2 == Shl(v, n - 1) + c / 2;
      ShrShl(v, c / 2, n - 1);
    }
  }

  /** Only the low n bits of a number matter to BitsOf(_, n). */
  lemma {:induction false} BitsLow(v: nat, c: nat, n: nat)
    ensures BitsOf(Shl(v, n) + c, n) == BitsOf(c, n)
  {
    if n != 0 {
      assert (Shl(v, n) + c) / 2 == Shl(v, n - 1) + c / 2 && (Shl(v, n) + c) % 2 == c % 2;
      BitsLow(v, c / 2, n - 1);
    }
  }

  /** Shifting left and adding a code appends the code's bits. */
  lemma BitsJoin(v: nat, m: nat, c: nat, n: nat)
    requires c < Pow2(n)
    ensures BitsOf(Shl(v, n) + c, m + n) == BitsOf(v, m) + BitsOf(c, n)
  {
    BitsSplit(Shl(v, n) + c, m, n);
    ShrShl(v, c, n);
    BitsLow(v, c, n);
  }

  /** Truncating to m bits, as an m-bit register does, keeps every shorter suffix. */
  lemma {:induction false} BitsTruncated(v: nat, m: nat, n: nat)
    requires n <= m
    ensures BitsOf(v % Pow2(m), n) == BitsOf(v, n)
  {
    if n != 0 {
      ModDouble(v, Pow2(m - 1));
      BitsTruncated(v / 2, m - 1, n - 1);
    }
  }

  lemma ModDouble(v: nat, p: nat)
    requires p > 0
    ensures v % (2 * p) == 2 * (v / 2 % p) + v % 2
  {
    var q, r := v / 2 / p, v / 2 % p;
    assert v == q * (2 * p) + (2 * r + v % 2);
    DivMulAdd(q, 2 * p, 2 * r + v % 2);
  }

  lemma MulAtLeast(k: int, p: nat)
    requires k >= 1
    ensures k * p >= p
  {
  }

  lemma DivMulAdd(v: nat, p: nat, c: nat)
    requires c < p
    ensures (v * p + c) / p == v && (v * p + c) % p == c
  {
    var q, r := (v * p + c) / p, (v * p + c) % p;
    assert (v - q) * p == r - c;
    if q < v {
      MulAtLeast(v - q, p);
    } else if q > v {
      MulAtLeast(q - v, p);
    }
  }

  lemma {:induction false} BytesToBitsConcat(a: bytes, b: bytes)
    ensures BytesToBits(a + b) == BytesToBits(a) + BytesToBits(b)
  {
    if a == [] {
      assert a + b == b;
    } else {
      assert (a + b)[1..] == a[1..] + b;
      BytesToBitsConcat(a[1..], b);
    }
  }

  lemma {:induction false} BytesToBitsLength(s: bytes)
    ensures |BytesToBits(s)| == 8 * |s|
  {
    if s != [] {
      BytesToBitsLength(s[1..]);
    }
  }

  lemma {:induction false} OnesOf(n: nat)
    ensures BitsOf(Pow2(n) - 1, n) == Ones(n)
  {
    if n != 0 {
      OnesOf(n - 1);
      assert (Pow2(n) - 1) / 2 == Pow2(n - 1) - 1;
    }
  }

  lemma Pow2Values()
    ensures Pow2(8) == 0x100 && Pow2(16) == 0x1_0000 && Pow2(32) == 0x1_0000_0000
    ensures Pow2(56) == 0x100_0000_0000_0000 && Pow2(63) == 0x8000_0000_0000_0000
    ensures Pow2(64) == 0x1_0000_0000_0000_0000
  {
    assert Pow2(8) == 0x100;
    assert Pow2(16) == 0x1_0000 by {
      Pow2Add(8, 8);
    }
    assert Pow2(32) == 0x1_0000_0000 by {
      Pow2Add(16, 16);
    }
    assert Pow2(64) == 0x1_0000_0000_0000_0000 by {
      Pow2Add(32, 32);
    }
    assert Pow2(64) == 2 * Pow2(63);
    assert Pow2(56) == 0x100_0000_0000_0000 by {
      Pow2Add(56, 8);
    }
  }

  /** Whole bytes back from their bits. */
  function BitsToBytes(b: bits): (s: bytes)
    requires |b| % 8 == 0
    ensures 8 * |s| == |b|
  {
    if b == [] then []
    else
      ValueOfEight(b[..8]);
      [Value(b[..8])] + BitsToBytes(b[8..])
  }

  lemma ValueOfEight(b: bits)
    requires |b| == 8
    ensures Value(b) < 256
  {
    ValueBound(b);
    assert Pow2(8) == 256;
  }

  lemma {:induction false} BytesOfTheirBits(s: bytes)
    ensures |BytesToBits(s)| == 8 * |s|
    ensures BitsToBytes(BytesToBits(s)) == s
  {
    if s != [] {
      BytesOfTheirBits(s[1..]);
      var b := BytesToBits(s);
      assert b[..8] == BitsOf(s[0], 8) && b[8..] == BytesToBits(s[1..]);
      assert Pow2(8) == 256;
      ValueOfBits(s[0], 8);
    }
  }

  lemma {:induction false} BitsOfTheirBytes(b: bits)
    requires |b| % 8 == 0
    ensures BytesToBits(BitsToBytes(b)) == b
  {
    if b != [] {
      BitsOfTheirBytes(b[8..]);
      ValueOfEight(b[..8]);
      var s := BitsToBytes(b);
      assert s[0] == Value(b[..8]) && s[1..] == BitsToBytes(b[8..]);
      BitsOfValue(b[..8]);
      assert b == b[..8] + b[8..];
    }
  }
}
