/**
 The client emitted as C into a program's execve: it builds the Obtain request and parses the
 response on fixed-size buffers with its own code.
 */
module CClient {
  import opened Results
  import opened Bytes
  import opened Utf8
  import opened Wire
  import opened WireTheorems

  const REQ_SIZE := 1024
  const PAYLOAD_SIZE := 512
  const BODY_SIZE := 2048
  const PATH_SIZE := 1024

  /** `wire_write_u32`: 0 and the position moved on, or -1 and nothing done. */
  method WriteU32(out: array<byte>, pos: nat, v: nat) returns (ok: bool, next: nat)
    requires v < U32_SIZE && pos <= out.Length
    modifies out
    ensures ok <==> pos + 4 <= out.Length
    ensures ok ==> next == pos + 4 && out[..] == Overlay(old(out[..]), pos, Digits(v, 4))
    ensures !ok ==> next == pos && out[..] == old(out[..])
  {
    if pos + 4 > out.Length {
      return false, pos;
    }
    DigitsOfWord(v);
    out[pos + 0] := v % 0x100;
    out[pos + 1] := v / 0x100 % 0x100;
    out[pos + 2] := v / 0x1_0000 % 0x100;
    out[pos + 3] := v / 0x100_0000 % 0x100;
    return true, pos + 4;
  }

  lemma DigitsOfWord(v: nat)
    requires v < U32_SIZE
    ensures Digits(v, 4) == [v % 0x100, v / 0x100 % 0x100, v / 0x1_0000 % 0x100, v / 0x100_0000 % 0x100]
  {
    assert Digits(v / 0x100_0000, 1) == [v / 0x100_0000 % 0x100] + Digits(v / 0x1_0000_0000, 0);
    assert Digits(v / 0x1_0000, 2) == [v / 0x1_0000 % 0x100] + Digits(v / 0x100_0000, 1);
    assert Digits(v / 0x100, 3) == [v / 0x100 % 0x100] + Digits(v / 0x1_0000, 2);
  }

  /** `wire_write_str`: the length and then the bytes of a C string, if both fit. */
  method WriteStr(out: array<byte>, pos: nat, s: seq<byte>) returns (ok: bool, next: nat)
    requires 0 !in s && pos <= out.Length < U32_SIZE
    modifies out
    ensures ok <==> pos + 4 + |s| <= out.Length
    ensures ok ==> next == pos + 4 + |s| && out[..] == Overlay(old(out[..]), pos, StringBytes(s))
  {
    hide Overlay, Digits;
    next := pos;
    ok, next := WriteU32(out, next, AsU32(|s|));
    if !ok {
      return false, next;
    }
    if next + |s| > out.Length {
      return false, next;
    }
    AsU32Exact(|s|);
    OverlayExtend(old(out[..]), pos, Digits(|s|, 4), s);
    CopyInto(out, next, s);
    return true, next + |s|;
  }

  /** `wire_read_u32`. */
  method ReadU32(input: seq<byte>, pos: nat) returns (r: Option<nat>)
    ensures pos + 4 <= |input| ==> r == Some(LE(input[pos..pos + 4]))
    ensures pos + 4 > |input| ==> r == None
  {
    if pos + 4 > |input| {
      return None;
    }
    LE4(input, pos);
    return Some(input[pos] as int + 0x100 * input[pos + 1] as int + 0x1_0000 * input[pos + 2] as int
                + 0x100_0000 * input[pos + 3] as int);
  }

  /** `wire_read_str`: a string copied out with a NUL after it, if it is all there and fits. */
  method ReadStr(input: seq<byte>, pos: nat, out: array<byte>) returns (ok: bool)
    requires pos <= |input| < U32_SIZE && out.Length < U32_SIZE
    modifies out
    ensures ok <==> StringFits(input, pos, out.Length)
    ensures ok ==> out[..] == Overlay(old(out[..]), 0, StringAt(input, pos) + [0])
  {
    hide Overlay, LE;
    var n := ReadU32(input, pos);
    if n.None? {
      return false;
    }
    var slen := n.value;
    // The 32-bit `slen + 1` cannot wrap here: a length that passes the first test is below `len`.
    if pos + 4 + slen > |input| || AsU32(slen + 1) > out.Length {
      SmallWord(slen);
      return false;
    }
    AsU32Exact(slen + 1);
    CopyInto(out, 0, input[pos + 4..pos + 4 + slen]);
    OverlayExtend(old(out[..]), 0, input[pos + 4..pos + 4 + slen], [0]);
    CopyInto(out, slen, [0]);
    return true;
  }

  lemma SmallWord(slen: nat)
    ensures slen + 1 < U32_SIZE ==> AsU32(slen + 1) == slen + 1
  {
  }

  /** A length-prefixed string at `pos`, all there, that fits `cap` bytes with its NUL. */
  predicate StringFits(input: seq<byte>, pos: nat, cap: nat) {
    && pos + 4 <= |input|
    && pos + 4 + LE(input[pos..pos + 4]) <= |input|
    && LE(input[pos..pos + 4]) + 1 <= cap
  }

  function StringAt(input: seq<byte>, pos: nat): seq<byte>
    requires pos + 4 <= |input| && pos + 4 + LE(input[pos..pos + 4]) <= |input|
  {
    input[pos + 4..pos + 4 + LE(input[pos..pos + 4])]
  }

  // ---- the request

  /** The first half of `rtd_obtain_path`: the bytes written to the socket, if they fit. */
  method BuildRequest(path: seq<byte>, backend: seq<byte>) returns (r: Option<seq<byte>>)
    requires 0 !in path && 0 !in backend
    ensures r == if 8 + |path| + |backend| <= 512
                 then Some(FrameBytes(OP_OBTAIN, StringBytes(path) + StringBytes(backend))) else None
  {
    hide Overlay, Digits;
    var req := new byte[REQ_SIZE](_ => 0);
    var pos := 0;
    req[pos] := 2;
    pos := pos + 1;
    req[pos] := 2;
    pos := pos + 1;
    var payloadStart := pos;
    pos := pos + 4;
    var payload := new byte[PAYLOAD_SIZE](_ => 0);
    ghost var blank := payload[..];
    var ok, payloadPos := WriteStr(payload, 0, path);
    if !ok {
      return None;
    }
    ok, payloadPos := WriteStr(payload, payloadPos, backend);
    if !ok {
      return None;
    }
    OverlayExtend(blank, 0, StringBytes(path), StringBytes(backend));
    ghost var body := StringBytes(path) + StringBytes(backend);
    PrefixOfOverlay(blank, body, payload[..]);
    ghost var start := req[..];
    ok, payloadStart := WriteU32(req, payloadStart, payloadPos);
    if !ok || pos + payloadPos > REQ_SIZE {
      return None;
    }
    CopyInto(req, pos, payload[..payloadPos]);
    pos := pos + payloadPos;
    RequestLaidOut(start, body, req[..]);
    return Some(req[..pos]);
  }

  lemma PrefixOfOverlay(b: seq<byte>, s: seq<byte>, c: seq<byte>)
    requires |s| <= |b| && c == Overlay(b, 0, s)
    ensures c[..|s|] == s
  {
  }

  lemma RequestLaidOut(start: seq<byte>, body: seq<byte>, req: seq<byte>)
    requires |start| == REQ_SIZE && start[0] == 2 && start[1] == 2 && HEADER + |body| <= REQ_SIZE
    requires req == Overlay(Overlay(start, 2, Digits(|body|, 4)), HEADER, body)
    ensures req[..HEADER + |body|] == FrameBytes(OP_OBTAIN, body)
  {
    hide Digits;
  }

  /** The C client and the Rust encoder build the same bytes, for every path that fits its buffer. */
  lemma ClientBuildsObtain(path: Str, backend: Str)
    requires 8 + |path| + |backend| <= 512
    ensures FrameBytes(OP_OBTAIN, StringBytes(path) + StringBytes(backend)) == RequestBytes(Obtain(path, backend))
    ensures DecodeRequest(FrameBytes(OP_OBTAIN, StringBytes(path) + StringBytes(backend))) ==
            Success(Obtain(path, backend))
  {
    hide DecodeRequest;
    RequestBijection(RequestBytes(Obtain(path, backend)), Obtain(path, backend));
  }

  // ---- the response

  /** What the second half of `rtd_obtain_path` makes of the bytes that come back. */
  function ParsedPath(resp: seq<byte>): Option<seq<byte>> {
    if |resp| < HEADER || resp[0] != 2 || resp[1] != 3 then None
    else
      var plen := LE(resp[2..6]);
      if plen > BODY_SIZE || HEADER + plen > |resp| then None
      else
        var body := resp[HEADER..HEADER + plen];
        if StringFits(body, 0, PATH_SIZE) then Some(StringAt(body, 0)) else None
  }

  /**
   Which replies the client takes, of all byte strings: a whole Ready frame of version 2 with at most
   2048 bytes of payload that starts with a string of at most 1023 bytes. That string is the path.
   */
  lemma TakesExactly(resp: seq<byte>)
    ensures ParsedPath(resp).Some? <==>
            && |resp| >= 6 && resp[0] == 2 && resp[1] == 3
            && var plen := LE(resp[2..6]);
               && plen <= 2048 && 6 + plen <= |resp| && 4 <= plen
               && 4 + LE(resp[6..10]) <= plen && LE(resp[6..10]) <= 1023
    ensures ParsedPath(resp).Some? ==> ParsedPath(resp).value == resp[10..10 + LE(resp[6..10])]
  {
    hide LE;
    if |resp| >= 6 && 6 + LE(resp[2..6]) <= |resp| && 4 <= LE(resp[2..6]) {
      var plen := LE(resp[2..6]);
      SubSlice(resp, 6, 6 + plen, 0, 4);
      if 4 + LE(resp[6..10]) <= plen {
        SubSlice(resp, 6, 6 + plen, 4, 4 + LE(resp[6..10]));
      }
    }
  }

  /** Reading the header and the body and copying the path out; each `read` gets all it asks for, if it is there. */
  method ParseResponse(resp: seq<byte>, out: array<byte>) returns (ok: bool)
    requires out.Length == PATH_SIZE
    modifies out
    ensures ok <==> ParsedPath(resp).Some?
    ensures ok ==> out[..] == Overlay(old(out[..]), 0, ParsedPath(resp).value + [0])
  {
    hide LE, Overlay;
    if |resp| < HEADER {
      return false;
    }
    var hdr := resp[..HEADER];
    var n := ReadU32(hdr, 2);
    assert hdr[2..6] == resp[2..6];
    var plen := n.value;
    if hdr[0] != 2 || hdr[1] != 3 {
      return false;
    }
    if plen > BODY_SIZE {
      return false;
    }
    if HEADER + plen > |resp| {
      return false;
    }
    var body := resp[HEADER..HEADER + plen];
    ok := ReadStr(body, 0, out);
  }

  /** The path handed to execve: the C string in the buffer. */
  function ExecPath(resp: seq<byte>, guestPath: seq<byte>): seq<byte> {
    match ParsedPath(resp)
    case None => guestPath
    case Some(p) => CString(p + [0], 0)
  }

  /** `os_shim_execve`: the daemon's path if there is one, otherwise the guest's own. */
  method ShimExecve(resp: seq<byte>, guestPath: seq<byte>) returns (path: seq<byte>)
    ensures path == ExecPath(resp, guestPath)
  {
    hide Overlay, ParsedPath;
    var cached := new byte[PATH_SIZE](_ => 0);
    ghost var blank := cached[..];
    var ok := ParseResponse(resp, cached);
    if ok {
      ParsedFits(resp);
      BufferString(blank, ParsedPath(resp).value, cached[..]);
      return CString(cached[..], 0);
    }
    return guestPath;
  }

  lemma ParsedFits(resp: seq<byte>)
    requires ParsedPath(resp).Some?
    ensures |ParsedPath(resp).value| < PATH_SIZE
  {
    hide LE;
  }

  /** What follows the copied NUL in the buffer does not matter. */
  lemma BufferString(b: seq<byte>, p: seq<byte>, c: seq<byte>)
    requires |p| < |b| && c == Overlay(b, 0, p + [0])
    ensures CString(c, 0) == CString(p + [0], 0)
  {
    assert c[0..|p| + 1] == p + [0];
    assert (p + [0])[0..|p| + 1] == p + [0];
    assert (p + [0])[|p|] == 0;
    CStringFrame(c, p + [0], 0, |p| + 1);
  }

  lemma ReadyParts(r: Response)
    requires r.Ready?
    ensures var body := ResponsePayload(r);
            && 4 + |r.exePath| <= |body| && LE(body[0..4]) == AsU32(|r.exePath|)
            && body[4..4 + |r.exePath|] == r.exePath
  {
    hide Digits, LE, AsU32;
    LEOfDigitsU32(|r.exePath|);
    var body, rest := ResponsePayload(r), [CacheByte(r)] + StringBytes(r.backend);
    assert body == Digits(|r.exePath|, 4) + (r.exePath + rest);
    WordSplits(|r.exePath|, r.exePath + rest);
  }

  /**
   What the client takes from a response: the path of a Ready whose two length fields, truncated
   to 32 bits by the encoder, say that payload and path fit the client's buffers.
   */
  function PathTaken(r: Response): Option<seq<byte>> {
    if !r.Ready? then None
    else
      var plen, slen := AsU32(|ResponsePayload(r)|), AsU32(|r.exePath|);
      if plen <= BODY_SIZE && 4 + slen <= plen && slen < PATH_SIZE then Some(r.exePath[..slen]) else None
  }

  /** On every response there is, of any size, the C parser does exactly that. */
  lemma ClientParsesResponses(r: Response)
    ensures ParsedPath(ResponseBytes(r)) == PathTaken(r)
  {
    hide LE, Digits, FrameBytes, ResponsePayload, AsU32;
    var body, resp := ResponsePayload(r), ResponseBytes(r);
    FrameParts(ResponseTag(r), body);
    LEOfDigitsU32(|body|);
    if r.Ready? {
      ReadyParts(r);
      U32Below(|body|);
      U32Below(|r.exePath|);
      var plen, slen := AsU32(|body|), AsU32(|r.exePath|);
      var got := resp[HEADER..HEADER + plen];
      assert got == body[0..plen];
      if 4 <= plen {
        SubSlice(body, 0, plen, 0, 4);
      }
      if 4 + slen <= plen {
        SubSlice(body, 0, plen, 4, 4 + slen);
        SubSlice(body, 4, 4 + |r.exePath|, 0, slen);
        assert r.exePath[0..slen] == r.exePath[..slen];
      }
    }
  }

  lemma U32Below(v: nat)
    ensures AsU32(v) <= v
  {
  }

  /**
   With a payload below 2^32, that is the path itself if the payload is at most 2048 bytes and the
   path at most 1023. In general what is taken is the whole path exactly when the path is below
   2^32, and otherwise a proper prefix of it.
   */
  lemma TakenIsWhole(r: Response)
    ensures |ResponsePayload(r)| < U32_SIZE ==>
              PathTaken(r) == if r.Ready? && |ResponsePayload(r)| <= 2048 && |r.exePath| <= 1023
                              then Some(r.exePath) else None
    ensures PathTaken(r).Some? ==>
              && PathTaken(r).value <= r.exePath
              && (PathTaken(r).value == r.exePath <==> |r.exePath| < U32_SIZE)
  {
    hide ResponsePayload;
    if r.Ready? {
      ReadyParts(r);
      U32Below(|r.exePath|);
      AsU32Exact(|r.exePath|);
      AsU32Exact(|ResponsePayload(r)|);
      assert r.exePath[..|r.exePath|] == r.exePath;
    }
  }

  /** So execve gets the daemon's path exactly as sent when, and only when, it holds no NUL. */
  lemma ExecPathIsExact(r: Response, guestPath: seq<byte>)
    requires r.Ready? && |ResponsePayload(r)| <= 2048 && |r.exePath| <= 1023
    ensures ExecPath(ResponseBytes(r), guestPath) == r.exePath <==> 0 !in r.exePath
  {
    hide ParsedPath, ResponseBytes, ResponsePayload, PathTaken;
    ClientParsesResponses(r);
    TakenIsWhole(r);
    if 0 !in r.exePath {
      var b := r.exePath + [0];
      assert b[0..|r.exePath|] == r.exePath;
      CStringReads(b, 0, r.exePath);
    }
  }

  /** Any other response leaves the guest's own path to be run. */
  lemma ExecPathFallsBack(r: Response, guestPath: seq<byte>)
    requires PathTaken(r).None?
    ensures ExecPath(ResponseBytes(r), guestPath) == guestPath
  {
    hide ParsedPath, ResponseBytes, PathTaken;
    ClientParsesResponses(r);
  }
}
