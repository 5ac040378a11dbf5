/** Length-prefixed frames on a byte stream. */
module Framing {
  import opened Wrappers
  import opened Bytes
  import Stream

  const MAX_FRAME_SIZE := 0x10_0000
  const FRAME_OVERHEAD := 4 + 12 + 16
  const FRAME_MIN_DATA := 4
  const MAX_SAFE_PAYLOAD := MAX_FRAME_SIZE - FRAME_OVERHEAD
  const WIRE_OVERHEAD := 36

  datatype Frame = Frame(sequence: Uint32, data: seq<Byte>)

  /** What a reader sees at the front of its input: a frame and the bytes after it, or an error. */
  function ParseFrame(s: seq<Byte>): (r: Option<(Frame, seq<Byte>)>)
    ensures r.Some? ==> |r.value.1| < |s|
  {
    if |s| < 4 then None
    else
      var frameLen := FromBigEndian(s[..4]);
      if frameLen > MAX_FRAME_SIZE || frameLen < FRAME_MIN_DATA || |s| < 4 + frameLen then None
      else
        Widths();
        Some((Frame(FromBigEndian(s[4..8]), s[8..4 + frameLen]), s[4 + frameLen..]))
  }

  predicate Fits(f: Frame) {
    4 + |f.data| <= MAX_FRAME_SIZE
  }

  function FrameBytes(f: Frame): (s: seq<Byte>)
    ensures |s| == 8 + |f.data|
  {
    BigEndian(4 + |f.data|, 4) + BigEndian(f.sequence, 4) + f.data
  }

  /** A frame that fits is read back, and nothing after it is touched. */
  lemma FrameRoundTrip(f: Frame, rest: seq<Byte>)
    requires Fits(f)
    ensures ParseFrame(FrameBytes(f) + rest) == Some((f, rest))
  {
    Widths();
    var s := FrameBytes(f) + rest;
    var n := 4 + |f.data|;
    BigEndianRoundTrip(n, 4);
    BigEndianRoundTrip(f.sequence, 4);
    FramePieces(BigEndian(n, 4), BigEndian(f.sequence, 4), f.data, rest);
    assert s == BigEndian(n, 4) + BigEndian(f.sequence, 4) + f.data + rest;
  }

  lemma FramePieces(a: seq<Byte>, b: seq<Byte>, c: seq<Byte>, d: seq<Byte>)
    requires |a| == |b| == 4
    ensures var s := a + b + c + d;
            s[..4] == a && s[4..8] == b && s[8..8 + |c|] == c && s[8 + |c|..] == d
  {
  }

  /** The reader takes only bytes that the writer puts on the wire. */
  lemma ParsedFrameBytes(s: seq<Byte>)
    requires ParseFrame(s).Some?
    ensures var (f, rest) := ParseFrame(s).value;
            Fits(f) && s == FrameBytes(f) + rest
  {
    var (f, rest) := ParseFrame(s).value;
    var n := FromBigEndian(s[..4]);
    BigEndianSurjective(s[..4]);
    BigEndianSurjective(s[4..8]);
    assert 4 + |f.data| == n;
    assert s == s[..4] + s[4..8] + s[8..4 + n] + s[4 + n..];
  }

  /** The output end of a byte stream. */
  class Writer {
    var written: seq<Byte>

    constructor ()
      ensures written == []
    {
      written := [];
    }

    method Write(bytes: seq<Byte>)
      modifies this
      ensures written == old(written) + bytes
    {
      written := written + bytes;
    }
  }

  /** A buffer filled with the big-endian integer from position at on. */
  method PutUint32(buf: array<Byte>, at: nat, n: Uint32)
    requires at + 4 <= buf.Length
    modifies buf
    ensures buf[..] == old(buf[..at]) + BigEndian(n, 4) + old(buf[at + 4..])
  {
    ghost var before := buf[..];
    var digits := BigEndian(n, 4);
    buf[at], buf[at + 1], buf[at + 2], buf[at + 3] := digits[0], digits[1], digits[2], digits[3];
    assert buf[..] == before[..at] + digits + before[at + 4..];
  }

  method Write(w: Writer, sequence: Uint32, frameData: seq<Byte>) returns (ok: bool)
    modifies w
    ensures ok <==> Fits(Frame(sequence, frameData))
    ensures w.written == old(w.written) + if ok then FrameBytes(Frame(sequence, frameData)) else []
  {
    var totalLen := 4 + |frameData|;
    if totalLen > MAX_FRAME_SIZE {
      return false;
    }
    var buf := new Byte[4 + totalLen](_ => 0);
    PutUint32(buf, 0, totalLen);
    PutUint32(buf, 4, sequence);
    ghost var header := buf[..8];
    assert header == BigEndian(totalLen, 4) + BigEndian(sequence, 4);
    forall i | 0 <= i < |frameData| {
      buf[8 + i] := frameData[i];
    }
    assert buf[..] == header + frameData;
    w.Write(buf[..]);
    ok := true;
  }

  method Read(r: Stream.Reader) returns (f: Option<Frame>)
    requires r.Valid()
    modifies r
    ensures r.Valid()
    ensures f.Some? <==> ParseFrame(old(r.Contents())).Some?
    ensures f.Some? ==> ParseFrame(old(r.Contents())) == Some((f.value, r.Contents()))
  {
    ghost var s := r.Contents();
    var lenBuf, status := r.ReadFull(4);
    if !status.Full? {
      return None;
    }
    assert lenBuf == s[..4];
    var frameLen := FromBigEndian(lenBuf);
    if frameLen > MAX_FRAME_SIZE {
      return None;
    }
    if frameLen < FRAME_MIN_DATA {
      return None;
    }
    var data;
    data, status := r.ReadFull(frameLen);
    if !status.Full? {
      return None;
    }
    assert s == lenBuf + (data + r.Contents());
    assert data == s[4..4 + frameLen] && r.Contents() == s[4 + frameLen..];
    assert data[..4] == s[4..8] && data[4..] == s[8..4 + frameLen];
    Widths();
    f := Some(Frame(FromBigEndian(data[..4]), data[4..]));
  }
}
