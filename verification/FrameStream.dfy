/** `read_frame` over a byte stream: frames delimit themselves. */
module FrameStream {
  import opened Results
  import opened Bytes
  import opened Wire
  import opened WireTheorems

  /** What is left to read from a connection whose other end has finished writing. */
  class ByteStream {
    var rest: seq<byte>

    constructor (data: seq<byte>)
      ensures rest == data
    {
      rest := data;
    }

    /** `read_exact`: all `n` bytes, or an end-of-file error with the stream used up. */
    method ReadExact(n: nat) returns (r: Result<seq<byte>, WireError>)
      modifies this
      ensures n <= |old(rest)| ==> r == Success(old(rest)[..n]) && rest == old(rest)[n..]
      ensures n > |old(rest)| ==> r == Failure(WireError) && rest == []
    {
      if n > |rest| {
        rest := [];
        return Failure(WireError);
      }
      r := Success(rest[..n]);
      rest := rest[n..];
    }
  }

  /** A byte string that is one frame by its own length field, whatever its version and tag. */
  predicate Framed(f: seq<byte>) {
    |f| >= HEADER && |f| == HEADER + LE(f[2..6])
  }

  /** The first frame of a stream and what follows it. */
  function TakeFrame(data: seq<byte>): (r: Option<(seq<byte>, seq<byte>)>)
    ensures r.Some? ==> |r.value.1| < |data| && data == r.value.0 + r.value.1
  {
    if |data| < HEADER || |data| < HEADER + LE(data[2..6]) then None
    else Some((data[..HEADER + LE(data[2..6])], data[HEADER + LE(data[2..6])..]))
  }

  method ReadFrame(s: ByteStream) returns (r: Result<seq<byte>, WireError>)
    modifies s
    ensures match TakeFrame(old(s.rest))
            case None => r == Failure(WireError)
            case Some(t) => r == Success(t.0) && s.rest == t.1
  {
    hide LE;
    ghost var data := s.rest;
    var h := s.ReadExact(HEADER);
    var hdr :- h;
    SubSlice(data, 0, HEADER, 2, 6);
    assert data[0..HEADER] == hdr;
    var len := LE(hdr[2..6]);
    var frame := hdr;
    if len > 0 {
      var p := s.ReadExact(len);
      var payload :- p;
      frame := frame + payload;
    }
    assert TakeFrame(data).Some? ==> frame == data[..HEADER + len];
    return Success(frame);
  }

  /** `n` frames read one after the other. */
  function TakeFrames(data: seq<byte>, n: nat): Option<(seq<seq<byte>>, seq<byte>)>
    decreases n
  {
    if n == 0 then Some(([], data))
    else
      var first := TakeFrame(data);
      if first.None? then None
      else
        var others := TakeFrames(first.value.1, n - 1);
        if others.None? then None else Some(([first.value.0] + others.value.0, others.value.1))
  }

  function Joined(frames: seq<seq<byte>>): seq<byte> {
    if frames == [] then [] else frames[0] + Joined(frames[1..])
  }

  lemma TakesFramed(f: seq<byte>, suffix: seq<byte>)
    requires Framed(f)
    ensures TakeFrame(f + suffix) == Some((f, suffix))
  {
    hide LE;
    var data := f + suffix;
    assert data[..|f|] == f && data[|f|..] == suffix;
    assert data[2..6] == f[2..6];
  }

  /**
   On the concatenation of any list of frames and any suffix, reading that many frames returns
   exactly those frames, in order, and leaves the suffix.
   */
  lemma {:induction false} StreamsSplit(frames: seq<seq<byte>>, suffix: seq<byte>)
    requires forall i :: 0 <= i < |frames| ==> Framed(frames[i])
    ensures TakeFrames(Joined(frames) + suffix, |frames|) == Some((frames, suffix))
    decreases |frames|
  {
    hide Framed, TakeFrame;
    if frames == [] {
      assert Joined(frames) + suffix == suffix;
    } else {
      var others := Joined(frames[1..]) + suffix;
      assert Joined(frames) + suffix == frames[0] + others;
      TakesFramed(frames[0], others);
      StreamsSplit(frames[1..], suffix);
      assert [frames[0]] + frames[1..] == frames;
    }
  }

  /** A list of frames can be read off its concatenation in only one way. */
  lemma StreamsInjective(frames: seq<seq<byte>>, frames': seq<seq<byte>>)
    requires |frames| == |frames'| && Joined(frames) == Joined(frames')
    requires forall i :: 0 <= i < |frames| ==> Framed(frames[i]) && Framed(frames'[i])
    ensures frames == frames'
  {
    StreamsSplit(frames, []);
    StreamsSplit(frames', []);
  }

  /** Every accepted buffer, and so every encoded message that fits, is one frame. */
  lemma AcceptedIsFramed(buf: seq<byte>)
    ensures DecodeFrame(buf).Success? ==> Framed(buf)
    ensures DecodeRequest(buf).Success? || DecodeResponse(buf).Success? ==> Framed(buf)
  {
    hide LE;
  }

  lemma EncodedIsFramed(tag: byte, payload: seq<byte>)
    requires |payload| < U32_SIZE
    ensures Framed(FrameBytes(tag, payload))
  {
    hide DecodeFrame, FrameBytes, Framed;
    FrameReads(tag, payload);
    AcceptedIsFramed(FrameBytes(tag, payload));
  }

  /** No frame is a proper prefix of another. */
  lemma FramesPrefixFree(f: seq<byte>, g: seq<byte>)
    requires Framed(f) && Framed(g) && f <= g
    ensures f == g
  {
    hide LE;
    assert g == f + g[|f|..];
    assert f[2..6] == g[2..6];
  }

  /** Cut short or lengthened by anything, an accepted buffer is rejected. */
  lemma TruncationsRejected(buf: seq<byte>, other: seq<byte>)
    requires DecodeFrame(buf).Success? && buf != other && (other <= buf || buf <= other)
    ensures DecodeRequest(other) == Failure(WireError) && DecodeResponse(other) == Failure(WireError)
  {
    hide Framed, LE;
    AcceptedIsFramed(buf);
    AcceptedIsFramed(other);
    if DecodeFrame(other).Success? {
      if other <= buf {
        FramesPrefixFree(other, buf);
      } else {
        FramesPrefixFree(buf, other);
      }
    }
  }
}
