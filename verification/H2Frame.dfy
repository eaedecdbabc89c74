/** HTTP/2 frames (section 4.1 of RFC 7540): H2FrameReader and H2FrameWriter of src/http2.cpp. */
module H2Frame {
  import opened Bytes

  const DATA: byte := 0
  const HEADERS: byte := 1
  const RST_STREAM: byte := 3
  const SETTINGS: byte := 4
  const PING: byte := 6
  const GOAWAY: byte := 7
  const WINDOW_UPDATE: byte := 8

  const END_STREAM: byte := 1
  const ACK: byte := 1
  const END_HEADERS: byte := 4

  const MAX_LENGTH := 0xff_ffff
  const MAX_STREAM := 0x7fff_ffff

  /** A frame; its length field is the length of the payload. */
  datatype Frame = Frame(kind: byte, flags: byte, streamId: nat, payload: bytes)

  datatype FrameRead = Complete(frame: Frame, rest: bytes) | Incomplete | Error

  function EndStream(f: Frame): bool {
    f.flags % 2 == 1
  }

  /** n bytes of v, most significant first. */
  function BigEndian(v: nat, n: nat): (r: bytes)
    ensures |r| == n
  {
    if n == 0 then [] else BigEndian(v / 256, n - 1) + [v % 256]
  }

  function FromBigEndian(s: bytes): nat {
    if s == [] then 0 else 256 * FromBigEndian(s[..|s| - 1]) + s[|s| - 1]
  }

  lemma {:induction false} BigEndianOf(s: bytes)
    ensures BigEndian(FromBigEndian(s), |s|) == s
  {
    if s != [] {
      BigEndianOf(s[..|s| - 1]);
    }
  }

  function Size(n: nat): nat {
    if n == 0 then 1 else 256 * Size(n - 1)
  }

  lemma {:induction false} FromBigEndianOf(v: nat, n: nat)
    requires v < Size(n)
    ensures FromBigEndian(BigEndian(v, n)) == v
  {
    if n != 0 {
      FromBigEndianOf(v / 256, n - 1);
      assert BigEndian(v, n)[..n - 1] == BigEndian(v / 256, n - 1);
    }
  }

  /** Four bytes as a number, most significant first. */
  function Word(a: int, b: int, c: int, d: int): int {
    0x100_0000 * a + 0x1_0000 * b + 0x100 * c + d
  }

  lemma FourBytes(s: bytes)
    requires |s| == 4
    ensures FromBigEndian(s) == Word(s[0], s[1], s[2], s[3])
  {
    var a: int, b: int, c: int, d: int := s[0], s[1], s[2], s[3];
    assert FromBigEndian(s[..1]) == a by {
      assert s[..1][..0] == [];
    }
    assert FromBigEndian(s[..2]) == 256 * a + b by {
      assert s[..2][..1] == s[..1];
    }
    assert FromBigEndian(s[..3]) == 0x1_0000 * a + 256 * b + c by {
      assert s[..3][..2] == s[..2];
    }
  }

  function HeaderBytes(length: nat, kind: byte, flags: byte, streamId: nat): (r: bytes)
    ensures |r| == 9
  {
    BigEndian(length, 3) + [kind, flags] + BigEndian(streamId, 4)
  }

  predicate Sendable(f: Frame) {
    |f.payload| <= MAX_LENGTH && f.streamId <= MAX_STREAM
  }

  function FrameBytes(f: Frame): (r: bytes)
    ensures |r| == 9 + |f.payload|
  {
    HeaderBytes(|f.payload|, f.kind, f.flags, f.streamId) + f.payload
  }

  /** read_frame; the reserved top bit of the stream id is dropped. */
  function ReadFrame(buf: bytes, maxFrameSize: nat): (r: FrameRead)
    ensures r.Complete? ==> |buf| == 9 + |r.frame.payload| + |r.rest|
    ensures r.Complete? ==> r.frame.streamId <= MAX_STREAM && |r.frame.payload| <= maxFrameSize
  {
    if |buf| < 9 then Incomplete
    else
      var length := FromBigEndian(buf[..3]);
      if length > maxFrameSize then Error
      else if |buf| < 9 + length then Incomplete
      else Complete(Frame(buf[3], buf[4], FromBigEndian(buf[5..9]) % 0x8000_0000, buf[9..9 + length]), buf[9 + length..])
  }

  /** What was readable stays readable, byte for byte, when more bytes arrive. */
  lemma ReadExtended(buf: bytes, more: bytes, maxFrameSize: nat)
    ensures var r := ReadFrame(buf, maxFrameSize);
            && (r.Complete? ==> ReadFrame(buf + more, maxFrameSize) == Complete(r.frame, r.rest + more))
            && (r.Error? ==> ReadFrame(buf + more, maxFrameSize).Error?)
  {
    if |buf| >= 9 {
      var all := buf + more;
      var length := FromBigEndian(buf[..3]);
      assert all[..3] == buf[..3] && all[5..9] == buf[5..9];
      if length <= maxFrameSize && |buf| >= 9 + length {
        assert all[9..9 + length] == buf[9..9 + length];
        assert all[9 + length..] == buf[9 + length..] + more;
      }
    }
  }

  lemma Sizes()
    ensures Size(3) == 0x100_0000 && Size(4) == 0x1_0000_0000
  {
  }

  lemma FrameRoundTrip(f: Frame, rest: bytes, maxFrameSize: nat)
    requires Sendable(f)
    ensures ReadFrame(FrameBytes(f) + rest, maxFrameSize) == if |f.payload| <= maxFrameSize then Complete(f, rest) else Error
  {
    var buf := FrameBytes(f) + rest;
    Sizes();
    FromBigEndianOf(|f.payload|, 3);
    FromBigEndianOf(f.streamId, 4);
    assert buf[..3] == BigEndian(|f.payload|, 3);
    assert buf[5..9] == BigEndian(f.streamId, 4);
    assert buf[3] == f.kind && buf[4] == f.flags;
    assert buf[9..9 + |f.payload|] == f.payload && buf[9 + |f.payload|..] == rest;
  }

  /** Frames one after the other. */
  function Serialize(frames: seq<Frame>): bytes {
    if frames == [] then [] else FrameBytes(frames[0]) + Serialize(frames[1..])
  }

  /** Reading frames until something is missing or wrong. */
  datatype AllRead = AllRead(frames: seq<Frame>, rest: bytes, error: bool)

  function ReadAll(buf: bytes, maxFrameSize: nat): AllRead
    decreases |buf|
  {
    var r := ReadFrame(buf, maxFrameSize);
    if r.Complete? then
      var more := ReadAll(r.rest, maxFrameSize);
      AllRead([r.frame] + more.frames, more.rest, more.error)
    else AllRead([], buf, r.Error?)
  }

  ghost predicate AllFit(frames: seq<Frame>, maxFrameSize: nat) {
    forall i | 0 <= i < |frames| :: Sendable(frames[i]) && |frames[i].payload| <= maxFrameSize
  }

  lemma {:induction false} ReadSerialized(frames: seq<Frame>, maxFrameSize: nat)
    requires AllFit(frames, maxFrameSize)
    ensures ReadAll(Serialize(frames), maxFrameSize) == AllRead(frames, [], false)
  {
    if frames != [] {
      FrameRoundTrip(frames[0], Serialize(frames[1..]), maxFrameSize);
      ReadSerialized(frames[1..], maxFrameSize);
      assert [frames[0]] + frames[1..] == frames;
    }
  }

  lemma {:induction false} SerializeConcat(a: seq<Frame>, b: seq<Frame>)
    ensures Serialize(a + b) == Serialize(a) + Serialize(b)
  {
    if a == [] {
      assert a + b == b;
    } else {
      assert (a + b)[1..] == a[1..] + b;
      SerializeConcat(a[1..], b);
    }
  }
}
