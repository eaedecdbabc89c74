/**
 The growable ring buffer of src/buffer.cpp, proved to be a plain byte queue: through any mix of appends, reads,
 wrap-arounds and growth its contents are a sequence that grows at the back and shrinks at the front.
 */
module Buffer {
  import opened Bytes

  /** A stretch of the underlying storage, as an iovec denotes it. */
  datatype Segment = Segment(offset: nat, length: nat)

  function Min(a: nat, b: nat): nat {
    if a <= b then a else b
  }

  /** Positions wrap around the end of the storage once at most. */
  function Around(p: nat, n: nat): nat
    requires p <= 2 * n
  {
    if p < n then p else p - n
  }

  /** The next capacity when n more bytes do not fit. */
  function NewCapacity(capacity: nat, n: nat): (c: nat)
    ensures c >= capacity + n && c >= 2 * capacity
  {
    var grown := if 2 * capacity >= capacity + n then 2 * capacity else capacity + n;
    if grown == 0 then n else grown
  }

  /** With sizes below 2^63, which bounds every C++ vector and span, the capacity computation does not wrap. */
  lemma NewCapacityFits(capacity: nat, n: nat)
    requires capacity < 0x8000_0000_0000_0000 && n < 0x8000_0000_0000_0000
    ensures NewCapacity(capacity, n) < 0x1_0000_0000_0000_0000
  {
  }

  class RingBuffer {
    var data: array<byte>
    var readPos: nat
    var writePos: nat
    var size: nat
    ghost var contents: bytes

    /** The readable bytes are contents, stored from readPos on and around the end. */
    ghost predicate Valid()
      reads this, data
    {
      && Placed()
      && contents == Rotated()[..size]
    }

    ghost predicate Placed()
      reads this, data
    {
      && size <= data.Length
      && if data.Length == 0 then readPos == 0 && writePos == 0
         else readPos < data.Length && writePos == Around(readPos + size, data.Length)
    }

    /** The storage read from readPos on, around the end: first the readable bytes, then the free ones. */
    ghost function Rotated(): (s: seq<byte>)
      reads this, data
      requires Placed()
      ensures |s| == data.Length
    {
      RotatedFrom(data[..], readPos)
    }

    ghost function Contents(): bytes
      reads this
    {
      contents
    }

    lemma WritePosIsModulo()
      requires Valid() && data.Length > 0
      ensures writePos == (readPos + size) % data.Length
    {
      AroundIsMod(readPos + size, data.Length);
    }

    constructor (capacity: nat)
      ensures Valid() && fresh(data) && data.Length == capacity
      ensures Contents() == []
    {
      data := new byte[capacity](_ => 0);
      readPos, writePos, size, contents := 0, 0, 0, [];
    }

    function Readable(): nat
      reads this
    {
      size
    }

    function Writable(): nat
      reads this, data
      requires Valid()
    {
      data.Length - size
    }

    /** The readable bytes as at most two stretches of storage. */
    method ReadIovecs() returns (segments: seq<Segment>)
      requires Valid()
      ensures |segments| <= 2
      ensures forall s <- segments :: s.offset + s.length <= data.Length
      ensures Contents() ==
              if |segments| == 0 then []
              else if |segments| == 1 then data[segments[0].offset..segments[0].offset + segments[0].length]
              else data[segments[0].offset..segments[0].offset + segments[0].length]
                   + data[segments[1].offset..segments[1].offset + segments[1].length]
    {
      if size == 0 || data.Length == 0 {
        return [];
      }
      var first := Min(size, data.Length - readPos);
      var second := size - first;
      segments := if second == 0 then [Segment(readPos, first)] else [Segment(readPos, first), Segment(0, second)];
    }

    /** The free bytes as at most two stretches of storage, in the order they will be read back. */
    method WriteIovecs() returns (segments: seq<Segment>)
      requires Valid()
      ensures |segments| <= 2 && (|segments| == 0 <==> Writable() == 0)
      ensures |segments| > 0 ==> segments[0] == Segment(writePos, Min(Writable(), data.Length - writePos))
      ensures |segments| > 0 ==> segments[0].length > 0
      ensures |segments| == 2 ==> segments[1] == Segment(0, Writable() - segments[0].length) && segments[1].length > 0
      ensures |segments| == 1 ==> segments[0].length == Writable()
    {
      var avail := Writable();
      if avail == 0 || data.Length == 0 {
        return [];
      }
      var first := Min(avail, data.Length - writePos);
      var second := avail - first;
      segments := if second == 0 then [Segment(writePos, first)] else [Segment(writePos, first), Segment(0, second)];
    }

    /** Drops the first n readable bytes. */
    method CommitRead(n: nat)
      requires Valid()
      modifies this
      ensures Valid() && data == old(data)
      ensures Contents() == old(Contents())[Min(n, |old(Contents())|)..]
    {
      var k := Min(n, size);
      ReadOn(data[..], readPos, size, k);
      AroundIsMod(readPos + k, data.Length);
      readPos := if data.Length == 0 then 0 else (readPos + k) % data.Length;
      size := size - k;
      contents := contents[k..];
      if size == 0 {
        readPos := writePos;
      }
    }

    /** Makes the first n free bytes readable. */
    method CommitWrite(n: nat)
      requires Valid()
      modifies this`writePos, this`size, this`contents
      ensures Valid() && size == old(size) + Min(n, old(Writable()))
      ensures Contents() == old(Rotated())[..size]
    {
      var k := Min(n, Writable());
      AroundIsMod(writePos + k, data.Length);
      writePos := if data.Length == 0 then 0 else (writePos + k) % data.Length;
      size := size + k;
      contents := Rotated()[..size];
    }

    method Peek(n: nat) returns (out: bytes)
      requires Valid()
      ensures out == Contents()[..Min(n, |Contents()|)]
    {
      var k := Min(n, size);
      if k == 0 {
        return [];
      }
      var first := Min(k, data.Length - readPos);
      RotatedTake(data[..], readPos, k);
      TakeTake(Rotated(), k, size);
      out := data[readPos..readPos + first];
      if k > first {
        out := out + data[..k - first];
      }
    }

    /** Makes room for n more bytes without touching the contents. */
    method EnsureWritable(n: nat)
      requires Valid()
      modifies this
      ensures Valid() && Writable() >= n
      ensures if old(Writable()) >= n then data == old(data)
              else fresh(data) && data.Length == NewCapacity(old(data.Length), n)
      ensures Contents() == old(Contents())
    {
      if Writable() >= n {
        return;
      }
      var capacity := NewCapacity(data.Length, n);
      var existing := Peek(size);
      var replacement := new byte[capacity](_ => 0);
      forall i | 0 <= i < |existing| {
        replacement[i] := existing[i];
      }
      data := replacement;
      readPos := 0;
      size := |existing|;
      writePos := Around(size, data.Length);
      assert data[..size] == existing;
    }

    /** memcpy into the free part: the bytes land right behind the readable ones. */
    method CopyIn(offset: nat, src: bytes)
      requires Valid() && |src| <= Writable() && offset == writePos && offset + |src| <= data.Length
      modifies data
      ensures Valid() && Contents() == old(Contents())
      ensures Rotated()[size..size + |src|] == src
    {
      ghost var before := data[..];
      forall i | 0 <= i < |src| {
        data[offset + i] := src[i];
      }
      Overwritten(before, data[..], readPos, size, offset, src);
    }

    /** Adds bytes at the back; the source's "ring buffer full" cannot happen. */
    method Append(src: bytes)
      requires Valid()
      modifies this, data
      ensures Valid() && (data == old(data) || fresh(data))
      ensures Contents() == old(Contents()) + src
    {
      EnsureWritable(|src|);
      var copied: nat := 0;
      while copied < |src|
        invariant copied <= |src| && Valid() && Writable() >= |src| - copied
        invariant data == old(data) || fresh(data)
        invariant Contents() == old(Contents()) + src[..copied]
      {
        ghost var before := copied;
        copied := AppendRound(src, copied);
        SliceNext(src, before, copied);
      }
      assert src[..copied] == src;
    }

    /** One turn of append's outer loop: fill the free stretches in order. */
    method AppendRound(src: bytes, copied: nat) returns (copied': nat)
      requires Valid() && copied < |src| && Writable() >= |src| - copied
      modifies this`writePos, this`size, this`contents, data
      ensures copied < copied' <= |src| && Valid() && Writable() >= |src| - copied'
      ensures Contents() == old(Contents()) + src[copied..copied']
    {
      var segments := WriteIovecs();
      if |segments| == 0 {
        // the source's "ring buffer full" error
        assert false;
      }
      var n := Min(segments[0].length, |src| - copied);
      AppendSegment(segments[0].offset, src[copied..copied + n]);
      copied' := copied + n;
      if |segments| == 2 && copied' < |src| {
        var m := Min(segments[1].length, |src| - copied');
        AppendSegment(segments[1].offset, src[copied'..copied' + m]);
        SliceJoin(old(contents), src, copied, copied', copied' + m);
        copied' := copied' + m;
      }
    }

    /** One turn of append's inner loop: copy into a free stretch and commit it. */
    method AppendSegment(offset: nat, part: bytes)
      requires Valid() && |part| <= Writable() && offset == writePos && offset + |part| <= data.Length
      modifies this`writePos, this`size, this`contents, data
      ensures Valid() && size == old(size) + |part|
      ensures Contents() == old(Contents()) + part
    {
      CopyIn(offset, part);
      label copied:
      CommitWrite(|part|);
      assert Contents() == old@copied(Rotated())[..old(size)] + old@copied(Rotated())[old(size)..old(size) + |part|];
    }
  }

  /** Around is the source's remainder. */
  lemma AroundIsMod(p: nat, n: nat)
    requires p <= 2 * n
    ensures n > 0 && p < 2 * n ==> p % n == Around(p, n)
  {
    if n <= p < 2 * n {
      var q := p / n;
      assert p == q * n + p % n;
      assert q >= 2 ==> q * n >= 2 * n;
    }
  }

  ghost function RotatedFrom(d: bytes, r: nat): (s: bytes)
    requires r <= |d|
    ensures |s| == |d|
  {
    d[r..] + d[..r]
  }

  lemma RotatedAt(d: bytes, r: nat, i: nat)
    requires r <= |d| && i < |d|
    ensures RotatedFrom(d, r)[i] == d[Around(r + i, |d|)]
  {
  }

  /** Starting k later drops the first k readable bytes, and the readable stretch ends where it did. */
  lemma ReadOn(d: bytes, r: nat, size: nat, k: nat)
    requires k <= size <= |d| && (if d == [] then r == 0 else r < |d|)
    ensures RotatedFrom(d, Around(r + k, |d|))[..size - k] == RotatedFrom(d, r)[..size][k..]
    ensures Around(Around(r + k, |d|) + (size - k), |d|) == Around(r + size, |d|) || k == size
  {
    var r' := Around(r + k, |d|);
    forall i | 0 <= i < size - k
      ensures RotatedFrom(d, r')[i] == RotatedFrom(d, r)[k + i]
    {
      RotatedAt(d, r', i);
      RotatedAt(d, r, k + i);
    }
  }

  /** Bytes written at the write position sit right behind the readable ones. */
  lemma Overwritten(d: bytes, d': bytes, r: nat, size: nat, offset: nat, src: bytes)
    requires |d| == |d'| && r <= |d| && size + |src| <= |d| && (d != [] ==> r < |d|)
    requires offset == Around(r + size, |d|) && offset + |src| <= |d|
    requires forall i | 0 <= i < |d| :: d'[i] == if offset <= i < offset + |src| then src[i - offset] else d[i]
    ensures RotatedFrom(d', r)[..size] == RotatedFrom(d, r)[..size]
    ensures RotatedFrom(d', r)[size..size + |src|] == src
  {
    var s := RotatedFrom(d', r);
    forall i | 0 <= i < size
      ensures s[i] == RotatedFrom(d, r)[i]
    {
      RotatedAt(d, r, i);
      RotatedAt(d', r, i);
    }
    forall i | 0 <= i < |src|
      ensures s[size + i] == src[i]
    {
      RotatedAt(d', r, size + i);
    }
  }

  lemma RotatedTake(d: bytes, r: nat, k: nat)
    requires r <= |d| && k <= |d|
    ensures RotatedFrom(d, r)[..k] == if k <= |d| - r then d[r..r + k] else d[r..] + d[..k - (|d| - r)]
  {
    forall i | 0 <= i < k
      ensures RotatedFrom(d, r)[i] == d[Around(r + i, |d|)]
    {
      RotatedAt(d, r, i);
    }
  }

  lemma TakeTake(s: bytes, k: nat, n: nat)
    requires k <= n <= |s|
    ensures s[..n][..k] == s[..k]
  {
  }

  lemma SliceJoin(front: bytes, s: bytes, a: nat, b: nat, c: nat)
    requires a <= b <= c <= |s|
    ensures front + s[a..b] + s[b..c] == front + s[a..c]
  {
  }

  lemma SliceNext(s: bytes, a: nat, b: nat)
    requires a <= b <= |s|
    ensures s[..a] + s[a..b] == s[..b]
  {
  }
}
