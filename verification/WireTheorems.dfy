/** The codec is a bijection between messages and accepted frames. */
module WireTheorems {
  import opened Results
  import opened Bytes
  import opened Utf8
  import opened Wire

  // ---- strings

  lemma WordSplits(n: nat, rest: seq<byte>)
    ensures (Digits(n, 4) + rest)[0..4] == Digits(n, 4) && (Digits(n, 4) + rest)[4..] == rest
  {
    hide Digits;
  }

  lemma StringReads(s: Str, rest: seq<byte>)
    requires |s| < U32_SIZE
    ensures DecodeString(StringBytes(s) + rest) == Success((s, rest))
  {
    hide LE, Digits, ValidUtf8;
    var input := StringBytes(s) + rest;
    assert input == Digits(|s|, 4) + (s + rest);
    WordSplits(|s|, s + rest);
    LEOfDigits32(|s|);
    assert (s + rest)[..|s|] == s && (s + rest)[|s|..] == rest;
  }

  /** Whatever a string reader accepts is exactly the encoding of what it returns. */
  lemma StringRead(input: seq<byte>)
    requires DecodeString(input).Success?
    ensures var d := DecodeString(input).value; input == StringBytes(d.0) + d.1 && |d.0| < U32_SIZE
  {
    hide LE, Digits, ValidUtf8;
    var d := DecodeString(input).value;
    LE32Bound(input[0..4]);
    DigitsOfLE(input[0..4]);
    assert input == input[0..4] + input[4..];
    assert input[4..] == d.0 + d.1;
  }

  lemma OptionReads(s: Option<Str>, rest: seq<byte>)
    requires s.Some? ==> |s.value| < U32_SIZE
    ensures DecodeOptionString(OptionBytes(s) + rest) == Success((s, rest))
  {
    hide DecodeString, StringBytes;
    match s
    case None =>
      assert ([0] + rest)[1..] == rest;
    case Some(v) =>
      StringReads(v, rest);
      assert (OptionBytes(s) + rest)[1..] == StringBytes(v) + rest;
  }

  lemma OptionRead(input: seq<byte>)
    requires DecodeOptionString(input).Success?
    ensures var d := DecodeOptionString(input).value;
            input == OptionBytes(d.0) + d.1 && (d.0.Some? ==> |d.0.value| < U32_SIZE)
  {
    hide DecodeString, StringBytes;
    var d := DecodeOptionString(input).value;
    assert input == [input[0]] + input[1..];
    if input[0] == 1 {
      StringRead(input[1..]);
      assert input == [1] + (StringBytes(d.0.value) + d.1);
    }
  }

  lemma {:induction false} ItemsRead(input: seq<byte>, n: nat)
    requires DecodeItems(input, n).Success?
    ensures var d := DecodeItems(input, n).value; |d.0| == n && input == ItemsBytes(d.0) + d.1
    decreases n
  {
    hide DecodeString, StringBytes;
    var d := DecodeItems(input, n).value;
    if n == 0 {
      assert input == [] + input;
    } else {
      var first := DecodeString(input).value;
      StringRead(input);
      ItemsRead(first.1, n - 1);
      assert d.0[1..] == DecodeItems(first.1, n - 1).value.0;
      assert input == StringBytes(first.0) + (ItemsBytes(d.0[1..]) + d.1);
    }
  }

  lemma {:induction false} ItemsReads(items: seq<Str>, rest: seq<byte>)
    requires forall i :: 0 <= i < |items| ==> |items[i]| < U32_SIZE
    ensures DecodeItems(ItemsBytes(items) + rest, |items|) == Success((items, rest))
    decreases |items|
  {
    hide DecodeString, StringBytes;
    if items == [] {
      assert ItemsBytes(items) + rest == rest;
    } else {
      var others := ItemsBytes(items[1..]) + rest;
      assert ItemsBytes(items) + rest == StringBytes(items[0]) + others;
      StringReads(items[0], others);
      ItemsReads(items[1..], rest);
      assert [items[0]] + items[1..] == items;
    }
  }

  lemma VecReads(items: seq<Str>, rest: seq<byte>)
    requires |items| < U32_SIZE && forall i :: 0 <= i < |items| ==> |items[i]| < U32_SIZE
    ensures DecodedVec(VecBytes(items) + rest) == Success((items, rest))
  {
    hide LE, Digits, DecodeItems, ItemsBytes;
    assert VecBytes(items) + rest == Digits(|items|, 4) + (ItemsBytes(items) + rest);
    WordSplits(|items|, ItemsBytes(items) + rest);
    LEOfDigits32(|items|);
    ItemsReads(items, rest);
  }

  lemma VecRead(input: seq<byte>)
    requires DecodedVec(input).Success?
    ensures var d := DecodedVec(input).value; input == VecBytes(d.0) + d.1
  {
    hide LE, Digits, DecodeItems, ItemsBytes;
    var d := DecodedVec(input).value;
    ItemsRead(input[4..], LE(input[0..4]));
    DigitsOfLE(input[0..4]);
    assert input == input[0..4] + input[4..];
    assert input == Digits(|d.0|, 4) + (ItemsBytes(d.0) + d.1);
  }

  /** Lengths inside a message are bounded by the length of the whole. */
  lemma {:induction false} ItemsFit(items: seq<Str>)
    ensures |ItemsBytes(items)| >= 4 * |items|
    ensures forall i :: 0 <= i < |items| ==> |items[i]| <= |ItemsBytes(items)|
  {
    if items != [] {
      ItemsFit(items[1..]);
      forall i | 0 <= i < |items|
        ensures |items[i]| <= |ItemsBytes(items)|
      {
        if i > 0 {
          assert items[i] == items[1..][i - 1];
        }
      }
    }
  }

  // ---- frames

  lemma FrameParts(tag: byte, payload: seq<byte>)
    ensures var f := FrameBytes(tag, payload);
            && |f| == HEADER + |payload| && f[0] == PROTOCOL_VERSION && f[1] == tag
            && f[2..6] == Digits(|payload|, 4) && f[6..] == payload
  {
    hide Digits;
  }

  /** A frame is accepted exactly when its payload's length fits its 32-bit field. */
  lemma FrameReads(tag: byte, payload: seq<byte>)
    ensures DecodeFrame(FrameBytes(tag, payload)) ==
            if |payload| < U32_SIZE then Success((tag, payload)) else Failure(WireError)
  {
    hide LE, Digits, FrameBytes;
    FrameParts(tag, payload);
    LE32Bound(Digits(|payload|, 4));
    if |payload| < U32_SIZE {
      LEOfDigits32(|payload|);
    }
  }

  lemma FrameRead(buf: seq<byte>)
    requires DecodeFrame(buf).Success?
    ensures var d := DecodeFrame(buf).value; buf == FrameBytes(d.0, d.1) && |d.1| < U32_SIZE
  {
    hide LE, Digits;
    LE32Bound(buf[2..6]);
    DigitsOfLE(buf[2..6]);
    assert buf == [buf[0], buf[1]] + buf[2..6] + buf[6..];
  }

  // ---- requests

  lemma RequestPayloadReads(r: Request)
    requires |RequestPayload(r)| < U32_SIZE
    ensures DecodeFrame(RequestBytes(r)) == Success((RequestTag(r), RequestPayload(r)))
    ensures DecodeRequest(RequestBytes(r)) == Success(r)
  {
    hide DecodeString, DecodeOptionString, DecodeFrame, FrameBytes, ValidUtf8;
    FrameReads(RequestTag(r), RequestPayload(r));
    match r {
      case Ping =>
      case ListBackends =>
      case Analyze(path, choice) =>
        StringReads(path, OptionBytes(choice));
        OptionReads(choice, []);
        assert OptionBytes(choice) + [] == OptionBytes(choice);
      case Obtain(path, backend) =>
        StringReads(path, StringBytes(backend));
        StringReads(backend, []);
        assert StringBytes(backend) + [] == StringBytes(backend);
    }
  }

  lemma RequestRead(buf: seq<byte>)
    requires DecodeRequest(buf).Success?
    ensures buf == RequestBytes(DecodeRequest(buf).value) && |RequestPayload(DecodeRequest(buf).value)| < U32_SIZE
  {
    hide DecodeString, DecodeOptionString, DecodeFrame, FrameBytes, StringBytes, OptionBytes;
    FrameRead(buf);
    var r, tag, payload := DecodeRequest(buf).value, DecodeFrame(buf).value.0, DecodeFrame(buf).value.1;
    if tag == OP_ANALYZE {
      StringRead(payload);
      OptionRead(DecodeString(payload).value.1);
      assert OptionBytes(r.choice) + [] == OptionBytes(r.choice);
    } else if tag == OP_OBTAIN {
      StringRead(payload);
      StringRead(DecodeString(payload).value.1);
      assert StringBytes(r.backend) + [] == StringBytes(r.backend);
    }
  }

  /**
   Requests and accepted buffers correspond one to one: a buffer decodes to a request exactly when
   it is that request's encoding and the payload length fits the frame's 32-bit field. So every
   request that fits round-trips, and nothing but an encoding is ever accepted.
   */
  lemma RequestBijection(buf: seq<byte>, r: Request)
    ensures DecodeRequest(buf) == Success(r) <==> buf == RequestBytes(r) && |RequestPayload(r)| < U32_SIZE
  {
    hide DecodeRequest, RequestBytes, RequestPayload;
    if DecodeRequest(buf) == Success(r) {
      RequestRead(buf);
    }
    if buf == RequestBytes(r) && |RequestPayload(r)| < U32_SIZE {
      RequestPayloadReads(r);
    }
  }

  /** A request too long for its frame does not come back as anything. */
  lemma OversizeRequest(r: Request)
    requires |RequestPayload(r)| >= U32_SIZE
    ensures DecodeRequest(RequestBytes(r)) == Failure(WireError)
  {
    hide FrameBytes, RequestPayload;
    FrameReads(RequestTag(r), RequestPayload(r));
  }

  // ---- responses

  /** The frame of a response with a given cache byte. */
  function ResponseFrameWith(r: Response, cache: byte): seq<byte> {
    FrameBytes(ResponseTag(r), ResponsePayloadWith(r, cache))
  }

  /** The byte of a Ready frame that stands for a cache hit; 0 for the other responses. */
  function CacheByteIn(buf: seq<byte>, r: Response): byte {
    if r.Ready? && HEADER + 4 + |r.exePath| < |buf| then buf[HEADER + 4 + |r.exePath|] else 0
  }

  /** A cache byte a reader takes for this response: any non-zero byte is a hit. */
  predicate CacheAgrees(r: Response, cache: byte) {
    r.Ready? ==> (r.cacheHit <==> cache != 0)
  }

  lemma PayloadReads(r: Response, cache: byte)
    requires |ResponsePayloadWith(r, cache)| < U32_SIZE && CacheAgrees(r, cache)
    ensures DecodeResponsePayload(ResponseTag(r), ResponsePayloadWith(r, cache)) == Success(r)
  {
    hide DecodeString, DecodedVec, ValidUtf8, ItemsBytes;
    match r {
      case Pong =>
      case Suitable(backend) => LastString(backend);
      case Error(message) => LastString(message);
      case Unsuitable(backend, reasons) =>
        StringReads(backend, VecBytes(reasons));
        LastVec(reasons);
      case Backends(ids) => LastVec(ids);
      case Ready(exePath, _, backend) =>
        StringReads(exePath, [cache] + StringBytes(backend));
        assert ([cache] + StringBytes(backend))[1..] == StringBytes(backend);
        LastString(backend);
    }
  }

  lemma LastString(s: Str)
    requires |s| < U32_SIZE
    ensures DecodeString(StringBytes(s)) == Success((s, []))
  {
    hide DecodeString, StringBytes;
    StringReads(s, []);
    assert StringBytes(s) + [] == StringBytes(s);
  }

  lemma LastVec(items: seq<Str>)
    requires |VecBytes(items)| < U32_SIZE
    ensures DecodedVec(VecBytes(items)) == Success((items, []))
  {
    hide DecodedVec, ItemsBytes;
    ItemsFit(items);
    VecReads(items, []);
    assert VecBytes(items) + [] == VecBytes(items);
  }

  lemma PayloadRead(tag: byte, payload: seq<byte>)
    requires DecodeResponsePayload(tag, payload).Success?
    ensures var r := DecodeResponsePayload(tag, payload).value;
            && tag == ResponseTag(r)
            && (r.Ready? ==> |r.exePath| + 4 < |payload|)
            && var cache := if r.Ready? then payload[4 + |r.exePath|] else 0;
               CacheAgrees(r, cache) && payload == ResponsePayloadWith(r, cache)
  {
    hide DecodeString, DecodedVec, VecBytes, ValidUtf8;
    var r := DecodeResponsePayload(tag, payload).value;
    if tag == STATUS_SUITABLE || tag == STATUS_ERROR {
      StringRead(payload);
    } else if tag == STATUS_UNSUITABLE {
      StringRead(payload);
      VecRead(DecodeString(payload).value.1);
      assert VecBytes(r.reasons) + [] == VecBytes(r.reasons);
    } else if tag == STATUS_BACKENDS {
      VecRead(payload);
      assert VecBytes(r.ids) + [] == VecBytes(r.ids);
    } else if tag == STATUS_READY {
      var rest := DecodeString(payload).value.1;
      StringRead(payload);
      StringRead(rest[1..]);
      ReadyPayload(payload, r.exePath, rest, r.backend);
    }
  }

  lemma ReadyPayload(payload: seq<byte>, exe: Str, rest: seq<byte>, backend: Str)
    requires payload == StringBytes(exe) + rest && rest != [] && rest[1..] == StringBytes(backend) + []
    ensures |exe| + 4 < |payload| && payload[4 + |exe|] == rest[0]
    ensures payload == StringBytes(exe) + ([rest[0]] + StringBytes(backend))
  {
    hide Digits;
    assert rest == [rest[0]] + StringBytes(backend);
  }

  /**
   Responses and accepted buffers: a buffer decodes to a response exactly when it is that
   response's frame, up to the one byte of Ready that any non-zero value may fill.
   */
  lemma ResponseBijection(buf: seq<byte>, r: Response)
    ensures DecodeResponse(buf) == Success(r) <==>
            && buf == ResponseFrameWith(r, CacheByteIn(buf, r))
            && CacheAgrees(r, CacheByteIn(buf, r))
            && |ResponsePayload(r)| < U32_SIZE
  {
    hide DecodeFrame, DecodeResponsePayload, FrameBytes, ResponsePayloadWith;
    var cache := CacheByteIn(buf, r);
    SamePayloadLength(r, cache, CacheByte(r));
    if DecodeResponse(buf) == Success(r) {
      FrameRead(buf);
      var payload := DecodeFrame(buf).value.1;
      PayloadRead(DecodeFrame(buf).value.0, payload);
      FrameParts(ResponseTag(r), payload);
      if r.Ready? {
        assert buf[HEADER + 4 + |r.exePath|] == buf[6..][4 + |r.exePath|];
      }
    }
    if buf == ResponseFrameWith(r, cache) && CacheAgrees(r, cache) && |ResponsePayload(r)| < U32_SIZE {
      FrameReads(ResponseTag(r), ResponsePayloadWith(r, cache));
      PayloadReads(r, cache);
    }
  }

  lemma SamePayloadLength(r: Response, cache: byte, cache': byte)
    ensures |ResponsePayloadWith(r, cache)| == |ResponsePayloadWith(r, cache')|
  {
    hide Digits, ItemsBytes;
  }

  /** Every response whose payload length fits decodes back to itself; no other one is accepted. */
  lemma ResponseRoundTrip(r: Response)
    ensures DecodeResponse(ResponseBytes(r)) ==
            if |ResponsePayload(r)| < U32_SIZE then Success(r) else Failure(WireError)
  {
    hide DecodeFrame, DecodeResponsePayload, FrameBytes, ResponsePayloadWith;
    FrameReads(ResponseTag(r), ResponsePayload(r));
    if |ResponsePayload(r)| < U32_SIZE {
      PayloadReads(r, CacheByte(r));
    }
  }

  /** Decoding and encoding again normalises the cache byte to 0 or 1 and changes nothing else. */
  lemma ResponseReencodes(buf: seq<byte>)
    requires DecodeResponse(buf).Success?
    ensures var r := DecodeResponse(buf).value;
            if r.Ready?
            then HEADER + 4 + |r.exePath| < |buf| && ResponseBytes(r) == buf[HEADER + 4 + |r.exePath| := CacheByte(r)]
            else ResponseBytes(r) == buf
  {
    hide DecodeResponse, FrameBytes;
    var r := DecodeResponse(buf).value;
    ResponseBijection(buf, r);
    if r.Ready? {
      CacheBytePlace(r, CacheByteIn(buf, r), CacheByte(r));
    }
  }

  lemma CacheBytePlace(r: Response, cache: byte, cache': byte)
    requires r.Ready?
    ensures HEADER + 4 + |r.exePath| < |ResponseFrameWith(r, cache)|
    ensures ResponseFrameWith(r, cache') == ResponseFrameWith(r, cache)[HEADER + 4 + |r.exePath| := cache']
  {
    hide Digits;
    SamePayloadLength(r, cache, cache');
  }

  // ---- the messages, byte by byte

  /** A frame of version 2. */
  function Version2(tag: byte, payload: seq<byte>): seq<byte> {
    [2, tag] + Digits(|payload|, 4) + payload
  }

  lemma NoDigits()
    ensures Digits(0, 4) == [0, 0, 0, 0]
  {
    assert Digits(0, 2) == [0, 0];
  }

  /** The requests by their tags: 0 ping, 1 analyze with an optional backend, 2 obtain, 3 list. */
  lemma RequestsSpelledOut(path: Str, id: Str)
    ensures RequestBytes(Ping) == [2, 0, 0, 0, 0, 0] && RequestBytes(ListBackends) == [2, 3, 0, 0, 0, 0]
    ensures RequestBytes(Analyze(path, None)) == Version2(1, Digits(|path|, 4) + path + [0])
    ensures RequestBytes(Analyze(path, Some(id))) ==
            Version2(1, Digits(|path|, 4) + path + [1] + Digits(|id|, 4) + id)
    ensures RequestBytes(Obtain(path, id)) == Version2(2, Digits(|path|, 4) + path + Digits(|id|, 4) + id)
  {
    hide Digits, FrameBytes, Version2, StringBytes;
    Empty(0);
    Empty(3);
    FramesAreVersion2(1, StringBytes(path) + [0]);
    FramesAreVersion2(1, StringBytes(path) + ([1] + StringBytes(id)));
    FramesAreVersion2(2, StringBytes(path) + StringBytes(id));
    TwoStrings(path, [], id);
    TwoStrings(path, [1], id);
    OneString(path);
  }

  lemma FramesAreVersion2(tag: byte, payload: seq<byte>)
    ensures FrameBytes(tag, payload) == Version2(tag, payload)
  {
    hide Digits;
  }

  lemma Empty(tag: byte)
    ensures FrameBytes(tag, []) == [2, tag, 0, 0, 0, 0]
  {
    hide Digits;
    NoDigits();
  }

  lemma OneString(s: seq<byte>)
    ensures StringBytes(s) == Digits(|s|, 4) + s
  {
  }

  lemma TwoStrings(s: seq<byte>, mid: seq<byte>, t: seq<byte>)
    ensures StringBytes(s) + (mid + StringBytes(t)) == Digits(|s|, 4) + s + mid + Digits(|t|, 4) + t
    ensures mid == [] ==> StringBytes(s) + StringBytes(t) == Digits(|s|, 4) + s + Digits(|t|, 4) + t
  {
    hide Digits, StringBytes;
    OneString(s);
    OneString(t);
    Regroup(StringBytes(s), mid, StringBytes(t));
    Regroup(StringBytes(s) + mid, Digits(|t|, 4), t);
    if mid == [] {
      assert StringBytes(s) + mid == StringBytes(s);
    }
  }

  lemma Regroup(x: seq<byte>, y: seq<byte>, z: seq<byte>)
    ensures x + (y + z) == x + y + z
  {
  }

  /**
   The responses by their tags: 0 pong, 1 suitable, 2 unsuitable with the reasons, 3 ready with the
   cache byte between path and backend, 4 error, 5 the list of backends.
   */
  lemma ResponsesSpelledOut(exe: Str, hit: bool, id: Str, items: seq<Str>)
    ensures ResponseBytes(Pong) == [2, 0, 0, 0, 0, 0]
    ensures ResponseBytes(Suitable(id)) == Version2(1, Digits(|id|, 4) + id)
    ensures ResponseBytes(Unsuitable(id, items)) ==
            Version2(2, Digits(|id|, 4) + id + Digits(|items|, 4) + ItemsBytes(items))
    ensures ResponseBytes(Ready(exe, hit, id)) ==
            Version2(3, Digits(|exe|, 4) + exe + [if hit then 1 else 0] + Digits(|id|, 4) + id)
    ensures ResponseBytes(Error(id)) == Version2(4, Digits(|id|, 4) + id)
    ensures ResponseBytes(Backends(items)) == Version2(5, Digits(|items|, 4) + ItemsBytes(items))
  {
    hide Digits, ItemsBytes, FrameBytes, Version2, StringBytes;
    var cache: byte := if hit then 1 else 0;
    Empty(0);
    OneString(id);
    TwoStrings(exe, [cache], id);
    assert StringBytes(id) + VecBytes(items) == Digits(|id|, 4) + id + Digits(|items|, 4) + ItemsBytes(items);
    FramesAreVersion2(1, StringBytes(id));
    FramesAreVersion2(2, StringBytes(id) + VecBytes(items));
    FramesAreVersion2(3, StringBytes(exe) + ([cache] + StringBytes(id)));
    FramesAreVersion2(4, StringBytes(id));
    FramesAreVersion2(5, VecBytes(items));
  }

  /** A list of strings is each string after its own length, in order. */
  lemma {:induction false} ItemsSpelledOut(items: seq<Str>, i: nat)
    requires i < |items|
    ensures ItemsBytes(items) ==
            ItemsBytes(items[..i]) + (Digits(|items[i]|, 4) + items[i]) + ItemsBytes(items[i + 1..])
    decreases i
  {
    hide Digits;
    if i > 0 {
      ItemsSpelledOut(items[1..], i - 1);
      assert items[..i][1..] == items[1..][..i - 1] && items[1..][i..] == items[i + 1..];
    }
  }
}
