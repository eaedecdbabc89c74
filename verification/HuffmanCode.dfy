/**
 The Huffman code as bit strings, and the two facts the decoder relies on: no code is a prefix of another, and every bit
 string either starts with a code or is the start of one. Both follow from the tiling of [0, 2^32) by the table's
 left-aligned intervals.
 */
module HuffmanCode {
  import opened Bits
  import opened HuffmanTable

  ghost predicate PrefixFree(codes: seq<bits>) {
    forall i, j | 0 <= i < |codes| && 0 <= j < |codes| && codes[i] <= codes[j] :: i == j
  }

  ghost predicate IsCode(codes: seq<bits>) {
    |codes| == SYMBOLS && PrefixFree(codes) && Complete(codes)
  }

  ghost predicate Leads(codes: seq<bits>, i: int, b: bits) {
    0 <= i < |codes| && codes[i] <= b
  }

  /** No code is a prefix of b. */
  ghost predicate Unled(codes: seq<bits>, b: bits) {
    forall i :: !Leads(codes, i, b)
  }

  ghost predicate Comparable(a: bits, b: bits) {
    a <= b || b <= a
  }

  ghost predicate Met(codes: seq<bits>, b: bits) {
    exists i | 0 <= i < |codes| :: Comparable(codes[i], b)
  }

  ghost predicate Complete(codes: seq<bits>) {
    forall b: bits :: Met(codes, b)
  }

  /** The source's sym.code >> (32 - sym.nbits), as sym.nbits bits. */
  function CodeBits(i: nat): (b: bits)
    requires i < SYMBOLS
    ensures |b| == Nbits(i)
  {
    CodeLengths(i);
    BitsOf(Shr(Code(i), 32 - Nbits(i)), Nbits(i))
  }

  function Codes(): (codes: seq<bits>)
    ensures |codes| == SYMBOLS
  {
    seq(SYMBOLS, i requires 0 <= i < SYMBOLS => CodeBits(i))
  }

  ghost predicate InInterval(i: nat, v: nat) {
    Code(i) <= v < Code(i) + Width(Nbits(i))
  }

  lemma {:induction false} WidthIsPow2(n: nat)
    requires n <= 32
    ensures Width(n) == Pow2(32 - n)
    decreases 32 - n
  {
    if n < 32 {
      WidthIsPow2(n + 1);
      WidthHalves(n);
    } else {
      WidthHalves(31);
    }
  }

  lemma {:induction false} ShlIsMul(v: nat, n: nat)
    ensures Shl(v, n) == v * Pow2(n)
  {
    if n != 0 {
      ShlIsMul(v, n - 1);
      MulAssoc(v, 2, Pow2(n - 1));
    }
  }

  lemma MulMonotone(a: nat, b: nat, c: nat)
    requires a <= b
    ensures a * c <= b * c
  {
  }

  lemma MulAssoc(a: int, b: int, c: int)
    ensures a * (b * c) == b * (a * c) == (a * b) * c
  {
  }

  /** Every code fills its low 32 - Nbits bits with zeros. */
  lemma {:induction false} Aligned(i: nat) returns (k: nat)
    requires i < SYMBOLS
    ensures Nbits(i) <= 32
    ensures Code(i) == k * Pow2(32 - Nbits(i))
    decreases Code(i)
  {
    CodeLengths(i);
    TableEnds();
    if i == FIRST {
      k := 0;
    } else {
      AllFollow(i);
      var p := Prev(i);
      CodeLengths(p);
      WidthIsPow2(Nbits(p));
      var h := Aligned(p);
      k := NextMultiple(h, 32 - Nbits(p), 32 - Nbits(i));
    }
  }

  lemma NextMultiple(h: nat, a: nat, b: nat) returns (k: nat)
    requires b <= a
    ensures h * Pow2(a) + Pow2(a) == k * Pow2(b)
  {
    Pow2Add(a - b, b);
    k := Multiple(h, Pow2(a - b), Pow2(b), Pow2(a));
  }

  lemma Multiple(h: nat, p: nat, q: nat, pq: nat) returns (k: nat)
    requires pq == p * q
    ensures h * pq + pq == k * q
  {
    k := (h + 1) * p;
    MulAssoc(h + 1, p, q);
  }

  /** A bit string starts with the n bits of k exactly when its value lies in the range of words that do. */
  lemma PrefixIffRange(k: nat, n: nat, x: bits)
    requires k < Pow2(n) && n <= |x|
    ensures BitsOf(k, n) <= x <==> k * Pow2(|x| - n) <= Value(x) < k * Pow2(|x| - n) + Pow2(|x| - n)
  {
    var hi, lo := x[..n], x[n..];
    assert x == hi + lo;
    ValueConcat(hi, lo);
    ValueBound(lo);
    if BitsOf(k, n) <= x {
      assert hi == BitsOf(k, n);
      ValueOfBits(k, n);
    } else {
      BitsOfValue(hi);
      assert Value(hi) != k;
      Separated(k, Value(hi), Pow2(|x| - n), Value(lo));
    }
  }

  lemma Separated(k: nat, h: nat, p: nat, r: nat)
    requires k != h && r < p
    ensures h * p + r < k * p || k * p + p <= h * p + r
  {
    if h < k {
      MulMonotone(h + 1, k, p);
    } else {
      MulMonotone(k + 1, h, p);
    }
  }

  /** The code as a plain number, right-aligned. */
  lemma CodeNumber(i: nat) returns (k: nat)
    requires i < SYMBOLS
    ensures 5 <= Nbits(i) <= 30
    ensures k == Shr(Code(i), 32 - Nbits(i)) && k < Pow2(Nbits(i)) && Code(i) == k * Pow2(32 - Nbits(i))
  {
    k := Aligned(i);
    var n, m := Nbits(i), 32 - Nbits(i);
    CodeLengths(i);
    CodeBound(i);
    WidthIsPow2(n);
    Pow2Add(n, m);
    WidthIsPow2(0);
    BelowProduct(k, Pow2(n), Pow2(m));
    ShlIsMul(k, m);
    ShrShl(k, 0, m);
  }

  lemma PrefixIffInterval(i: nat, x: bits)
    requires i < SYMBOLS && |x| == 32
    ensures CodeBits(i) <= x <==> InInterval(i, Value(x))
  {
    var k := CodeNumber(i);
    WidthIsPow2(Nbits(i));
    PrefixIffRange(k, Nbits(i), x);
  }

  lemma BelowProduct(k: nat, a: nat, b: nat)
    requires b > 0 && k * b + b <= a * b
    ensures k < a
  {
    if k >= a {
      MulMonotone(a, k, b);
    }
  }

  /** Distinct symbols have disjoint intervals: walk both down the code order. */
  lemma {:induction false} Disjoint(i: nat, j: nat)
    requires i < SYMBOLS && j < SYMBOLS && i != j && Code(i) <= Code(j)
    ensures Code(i) + Width(Nbits(i)) <= Code(j)
    decreases Code(i) + Code(j)
  {
    TableEnds();
    PositiveWidth(i);
    if j == FIRST {
      Above(i);
    } else {
      Above(j);
      var p := Prev(j);
      if Code(i) <= Code(p) {
        if i != p {
          Disjoint(i, p);
        }
      } else {
        Disjoint(p, i);
        Above(i);
        var q := Prev(i);
        if Code(q) <= Code(p) {
          Disjoint(q, p);
        } else {
          Disjoint(p, q);
        }
      }
    }
  }

  lemma PositiveWidth(i: nat)
    requires i < SYMBOLS
    ensures Width(Nbits(i)) > 0
  {
    CodeLengths(i);
    WidthIsPow2(Nbits(i));
  }

  lemma Above(i: nat)
    requires i < SYMBOLS && i != FIRST
    ensures Follows(i) && Code(Prev(i)) < Code(i)
  {
    AllFollow(i);
    PositiveWidth(Prev(i));
  }

  lemma {:induction false} CoveredFrom(i: nat, v: nat) returns (j: nat)
    requires i < SYMBOLS && v < Code(i) + Width(Nbits(i))
    ensures j < SYMBOLS && InInterval(j, v)
    decreases Code(i)
  {
    TableEnds();
    if Code(i) <= v {
      j := i;
    } else {
      Above(i);
      j := CoveredFrom(Prev(i), v);
    }
  }

  /** No code of the table is a prefix of another. */
  lemma CodesPrefixFree()
    ensures PrefixFree(Codes())
  {
    var codes := Codes();
    forall i, j | 0 <= i < |codes| && 0 <= j < |codes| && codes[i] <= codes[j]
      ensures i == j
    {
      CodeLengths(j);
      var x := CodeBits(j) + BitsOf(0, 32 - Nbits(j));
      PrefixIffInterval(i, x);
      PrefixIffInterval(j, x);
      if i != j {
        if Code(i) <= Code(j) {
          Disjoint(i, j);
        } else {
          Disjoint(j, i);
        }
      }
    }
  }

  /** Every bit string starts with a code or is the start of one. */
  lemma CodesComplete()
    ensures Complete(Codes())
  {
    var codes := Codes();
    forall b: bits
      ensures Met(codes, b)
    {
      var x := (b + BitsOf(0, 32))[..32];
      ValueBound(x);
      TableEnds();
      WidthIsPow2(0);
      WidthHalves(0);
      assert Value(x) < 0x1_0000_0000;
      var i := CoveredFrom(EOS, Value(x));
      PrefixIffInterval(i, x);
      assert Comparable(codes[i], b);
    }
  }

  lemma TableIsCode()
    ensures IsCode(Codes())
  {
    CodesPrefixFree();
    CodesComplete();
  }

  lemma EmptyIsPrefix(a: bits, b: bits)
    ensures a == [] ==> a <= b
  {
  }

  lemma NonEmptyCode(codes: seq<bits>, i: int)
    requires IsCode(codes) && 0 <= i < |codes|
    ensures codes[i] != []
  {
    var j := if i == 0 then 1 else 0;
    EmptyIsPrefix(codes[i], codes[j]);
  }

  /** The end-of-string code is thirty one-bits, so one-bits of padding spell a start of it. */
  lemma EosIsOnes()
    ensures CodeBits(EOS) == Ones(30)
  {
    TableEnds();
    assert Shr(Code(EOS), 2) == 0x3fff_ffff;
    assert Pow2(30) == 0x4000_0000 by {
      Pow2Add(15, 15);
      assert Pow2(15) == 0x8000;
    }
    OnesOf(30);
  }
}
