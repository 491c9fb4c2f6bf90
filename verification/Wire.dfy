/** The daemon's binary protocol, version 2: requests, responses and frames. */
module Wire {
  import opened Results
  import opened Bytes
  import opened Utf8

  const PROTOCOL_VERSION := 2

  const OP_PING := 0
  const OP_ANALYZE := 1
  const OP_OBTAIN := 2
  const OP_LIST_BACKENDS := 3

  const STATUS_PONG := 0
  const STATUS_SUITABLE := 1
  const STATUS_UNSUITABLE := 2
  const STATUS_READY := 3
  const STATUS_ERROR := 4
  const STATUS_BACKENDS := 5

  const HEADER := 6

  datatype WireError = WireError

  datatype Request =
    | Ping
    | Analyze(path: Str, choice: Option<Str>)
    | Obtain(path: Str, backend: Str)
    | ListBackends

  datatype Response =
    | Pong
    | Suitable(backend: Str)
    | Unsuitable(backend: Str, reasons: seq<Str>)
    | Ready(exePath: Str, cacheHit: bool, backend: Str)
    | Error(message: Str)
    | Backends(ids: seq<Str>)

  // ---- the bytes of a message

  function StringBytes(s: seq<byte>): seq<byte> {
    Digits(|s|, 4) + s
  }

  function OptionBytes(s: Option<Str>): seq<byte> {
    match s
    case None => [0]
    case Some(v) => [1] + StringBytes(v)
  }

  function ItemsBytes(items: seq<Str>): seq<byte> {
    if items == [] then [] else StringBytes(items[0]) + ItemsBytes(items[1..])
  }

  function VecBytes(items: seq<Str>): seq<byte> {
    Digits(|items|, 4) + ItemsBytes(items)
  }

  function FrameBytes(tag: byte, payload: seq<byte>): seq<byte> {
    [PROTOCOL_VERSION, tag] + Digits(|payload|, 4) + payload
  }

  function RequestTag(r: Request): byte {
    match r
    case Ping => OP_PING
    case Analyze(_, _) => OP_ANALYZE
    case Obtain(_, _) => OP_OBTAIN
    case ListBackends => OP_LIST_BACKENDS
  }

  function RequestPayload(r: Request): seq<byte> {
    match r
    case Ping => []
    case Analyze(path, backend) => StringBytes(path) + OptionBytes(backend)
    case Obtain(path, backend) => StringBytes(path) + StringBytes(backend)
    case ListBackends => []
  }

  function RequestBytes(r: Request): seq<byte> {
    FrameBytes(RequestTag(r), RequestPayload(r))
  }

  function ResponseTag(r: Response): byte {
    match r
    case Pong => STATUS_PONG
    case Suitable(_) => STATUS_SUITABLE
    case Unsuitable(_, _) => STATUS_UNSUITABLE
    case Ready(_, _, _) => STATUS_READY
    case Error(_) => STATUS_ERROR
    case Backends(_) => STATUS_BACKENDS
  }

  /** The payload, with `cache` as the byte that stands for a cache hit. */
  function ResponsePayloadWith(r: Response, cache: byte): seq<byte> {
    match r
    case Pong => []
    case Suitable(backend) => StringBytes(backend)
    case Unsuitable(backend, reasons) => StringBytes(backend) + VecBytes(reasons)
    case Ready(exePath, _, backend) => StringBytes(exePath) + ([cache] + StringBytes(backend))
    case Error(message) => StringBytes(message)
    case Backends(ids) => VecBytes(ids)
  }

  function CacheByte(r: Response): byte {
    if r.Ready? && r.cacheHit then 1 else 0
  }

  function ResponsePayload(r: Response): seq<byte> {
    ResponsePayloadWith(r, CacheByte(r))
  }

  function ResponseBytes(r: Response): seq<byte> {
    FrameBytes(ResponseTag(r), ResponsePayload(r))
  }

  // ---- the encoders, appending to a buffer

  /** A growable byte vector. */
  class ByteVec {
    var bytes: seq<byte>

    constructor ()
      ensures bytes == []
    {
      bytes := [];
    }

    method Push(b: byte)
      modifies this
      ensures bytes == old(bytes) + [b]
    {
      bytes := bytes + [b];
    }

    method Extend(s: seq<byte>)
      modifies this
      ensures bytes == old(bytes) + s
    {
      bytes := bytes + s;
    }
  }

  method EncodeString(s: Str, out: ByteVec)
    modifies out
    ensures out.bytes == old(out.bytes) + StringBytes(s)
  {
    hide Digits;
    out.Extend(Digits(|s|, 4));
    out.Extend(s);
  }

  method EncodeOptionString(s: Option<Str>, out: ByteVec)
    modifies out
    ensures out.bytes == old(out.bytes) + OptionBytes(s)
  {
    hide StringBytes;
    match s
    case None => out.Push(0);
    case Some(v) =>
      out.Push(1);
      EncodeString(v, out);
  }

  method EncodeStringVec(items: seq<Str>, out: ByteVec)
    modifies out
    ensures out.bytes == old(out.bytes) + VecBytes(items)
  {
    hide StringBytes, Digits;
    out.Extend(Digits(|items|, 4));
    for i := 0 to |items|
      invariant out.bytes == old(out.bytes) + Digits(|items|, 4) + ItemsBytes(items[..i])
    {
      EncodeString(items[i], out);
      ItemsAppend(items[..i], items[i]);
      assert items[..i + 1] == items[..i] + [items[i]];
    }
    assert items[..|items|] == items;
  }

  lemma {:induction false} ItemsAppend(items: seq<Str>, s: Str)
    ensures ItemsBytes(items + [s]) == ItemsBytes(items) + StringBytes(s)
  {
    hide StringBytes;
    if items == [] {
      assert (items + [s])[1..] == [];
    } else {
      assert (items + [s])[1..] == items[1..] + [s];
      ItemsAppend(items[1..], s);
    }
  }

  method EncodeFrame(tag: byte, payload: seq<byte>) returns (frame: seq<byte>)
    ensures frame == FrameBytes(tag, payload)
  {
    hide Digits;
    var out := new ByteVec();
    out.Push(PROTOCOL_VERSION);
    out.Push(tag);
    out.Extend(Digits(|payload|, 4));
    out.Extend(payload);
    return out.bytes;
  }

  method EncodeRequest(r: Request) returns (frame: seq<byte>)
    ensures frame == RequestBytes(r)
  {
    hide StringBytes, OptionBytes, FrameBytes;
    var payload := new ByteVec();
    var tag: byte := OP_PING;
    match r {
    case Ping =>
    case Analyze(path, backend) =>
      EncodeString(path, payload);
      EncodeOptionString(backend, payload);
      tag := OP_ANALYZE;
    case Obtain(path, backend) =>
      EncodeString(path, payload);
      EncodeString(backend, payload);
      tag := OP_OBTAIN;
    case ListBackends =>
      tag := OP_LIST_BACKENDS;
    }
    assert payload.bytes == RequestPayload(r);
    frame := EncodeFrame(tag, payload.bytes);
  }

  method EncodeResponse(r: Response) returns (frame: seq<byte>)
    ensures frame == ResponseBytes(r)
  {
    hide StringBytes, VecBytes, FrameBytes;
    var payload := new ByteVec();
    var tag: byte := STATUS_PONG;
    match r {
    case Pong =>
    case Suitable(backend) =>
      EncodeString(backend, payload);
      tag := STATUS_SUITABLE;
    case Unsuitable(backend, reasons) =>
      EncodeString(backend, payload);
      EncodeStringVec(reasons, payload);
      tag := STATUS_UNSUITABLE;
    case Ready(exePath, cacheHit, backend) =>
      EncodeString(exePath, payload);
      payload.Push(if cacheHit then 1 else 0);
      EncodeString(backend, payload);
      tag := STATUS_READY;
    case Error(message) =>
      EncodeString(message, payload);
      tag := STATUS_ERROR;
    case Backends(ids) =>
      EncodeStringVec(ids, payload);
      tag := STATUS_BACKENDS;
    }
    assert payload.bytes == ResponsePayload(r);
    frame := EncodeFrame(tag, payload.bytes);
  }

  // ---- the decoders

  function DecodeFrame(buf: seq<byte>): (r: Result<(byte, seq<byte>), WireError>) {
    if |buf| < HEADER || buf[0] != PROTOCOL_VERSION then Failure(WireError)
    else if |buf| != HEADER + LE(buf[2..6]) then Failure(WireError)
    else Success((buf[1], buf[6..]))
  }

  function DecodeString(input: seq<byte>): (r: Result<(Str, seq<byte>), WireError>)
    ensures r.Success? ==> |r.value.1| < |input|
  {
    if |input| < 4 then Failure(WireError)
    else
      var len, rest := LE(input[0..4]), input[4..];
      if |rest| < len then Failure(WireError)
      else if !ValidUtf8(rest[..len]) then Failure(WireError)
      else Success((rest[..len], rest[len..]))
  }

  function DecodeOptionString(input: seq<byte>): Result<(Option<Str>, seq<byte>), WireError> {
    if input == [] then Failure(WireError)
    else if input[0] == 0 then Success((None, input[1..]))
    else if input[0] == 1 then
      var d :- DecodeString(input[1..]);
      Success((Some(d.0), d.1))
    else Failure(WireError)
  }

  /** `n` strings one after the other, and what follows them. */
  function DecodeItems(input: seq<byte>, n: nat): Result<(seq<Str>, seq<byte>), WireError>
    decreases n
  {
    if n == 0 then Success(([], input))
    else
      var first :- DecodeString(input);
      var others :- DecodeItems(first.1, n - 1);
      Success(([first.0] + others.0, others.1))
  }

  function DecodedVec(input: seq<byte>): Result<(seq<Str>, seq<byte>), WireError> {
    if |input| < 4 then Failure(WireError) else DecodeItems(input[4..], LE(input[0..4]))
  }

  method DecodeStringVec(input: seq<byte>) returns (r: Result<(seq<Str>, seq<byte>), WireError>)
    ensures r == DecodedVec(input)
  {
    hide LE, DecodeString;
    if |input| < 4 {
      return Failure(WireError);
    }
    var len := LE(input[0..4]);
    var rest := input[4..];
    var items: seq<Str> := [];
    ghost var whole := DecodeItems(rest, len);
    assert whole.Success? ==> items + whole.value.0 == whole.value.0;
    for i := 0 to len
      invariant match DecodeItems(rest, len - i)
                case Failure(e) => DecodedVec(input) == Failure(e)
                case Success(d) => DecodedVec(input) == Success((items + d.0, d.1))
    {
      var d :- DecodeString(rest);
      ghost var others := DecodeItems(d.1, len - i - 1);
      assert others.Success? ==> items + ([d.0] + others.value.0) == items + [d.0] + others.value.0;
      items := items + [d.0];
      rest := d.1;
    }
    assert items + [] == items;
    return Success((items, rest));
  }

  function DecodeRequest(buf: seq<byte>): Result<Request, WireError> {
    var frame :- DecodeFrame(buf);
    var tag, payload := frame.0, frame.1;
    if tag == OP_PING && payload == [] then Success(Ping)
    else if tag == OP_ANALYZE then
      var path :- DecodeString(payload);
      var backend :- DecodeOptionString(path.1);
      if backend.1 != [] then Failure(WireError) else Success(Analyze(path.0, backend.0))
    else if tag == OP_OBTAIN then
      var path :- DecodeString(payload);
      var backend :- DecodeString(path.1);
      if backend.1 != [] then Failure(WireError) else Success(Obtain(path.0, backend.0))
    else if tag == OP_LIST_BACKENDS && payload == [] then Success(ListBackends)
    else Failure(WireError)
  }

  function DecodeResponse(buf: seq<byte>): Result<Response, WireError> {
    var frame :- DecodeFrame(buf);
    DecodeResponsePayload(frame.0, frame.1)
  }

  function DecodeResponsePayload(tag: byte, payload: seq<byte>): Result<Response, WireError> {
    if tag == STATUS_PONG && payload == [] then Success(Pong)
    else if tag == STATUS_SUITABLE then
      var backend :- DecodeString(payload);
      if backend.1 != [] then Failure(WireError) else Success(Suitable(backend.0))
    else if tag == STATUS_UNSUITABLE then
      var backend :- DecodeString(payload);
      var reasons :- DecodedVec(backend.1);
      if reasons.1 != [] then Failure(WireError) else Success(Unsuitable(backend.0, reasons.0))
    else if tag == STATUS_READY then
      var exePath :- DecodeString(payload);
      if exePath.1 == [] then Failure(WireError)
      else
        var backend :- DecodeString(exePath.1[1..]);
        if backend.1 != [] then Failure(WireError) else Success(Ready(exePath.0, exePath.1[0] != 0, backend.0))
    else if tag == STATUS_ERROR then
      var message :- DecodeString(payload);
      if message.1 != [] then Failure(WireError) else Success(Error(message.0))
    else if tag == STATUS_BACKENDS then
      var ids :- DecodedVec(payload);
      if ids.1 != [] then Failure(WireError) else Success(Backends(ids.0))
    else Failure(WireError)
  }
}
