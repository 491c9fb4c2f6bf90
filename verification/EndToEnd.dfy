/** From execve to execve: the C client's request, the daemon's answer, and the path that is run. */
module EndToEnd {
  import opened Results
  import opened Bytes
  import opened Utf8
  import opened Wire
  import opened WireTheorems
  import opened CClient
  import opened Daemon

  /** The request the client writes, for a path that fits its buffer. */
  function ClientFrame(path: seq<byte>, backend: seq<byte>): seq<byte> {
    FrameBytes(OP_OBTAIN, StringBytes(path) + StringBytes(backend))
  }

  /** The daemon takes the client's bytes for an Obtain exactly when both strings are UTF-8. */
  lemma ClientFrameDecodes(path: seq<byte>, backend: seq<byte>)
    requires |StringBytes(path) + StringBytes(backend)| < U32_SIZE
    ensures DecodeRequest(ClientFrame(path, backend)) ==
            if ValidUtf8(path) && ValidUtf8(backend) then Success(Obtain(path, backend)) else Failure(WireError)
  {
    hide FrameBytes, DecodeRequest, ValidUtf8, StringBytes;
    var buf := ClientFrame(path, backend);
    if ValidUtf8(path) && ValidUtf8(backend) {
      RequestBijection(buf, Obtain(path, backend));
    } else if DecodeRequest(buf).Success? {
      var r := DecodeRequest(buf).value;
      RequestBijection(buf, r);
      SameFrame(buf, OP_OBTAIN, StringBytes(path) + StringBytes(backend), RequestTag(r), RequestPayload(r));
      SameStrings(path, backend, r.path, r.backend);
    } else {
      assert DecodeRequest(buf).error == WireError.WireError;
    }
  }

  lemma SameFrame(buf: seq<byte>, tag: byte, payload: seq<byte>, tag': byte, payload': seq<byte>)
    requires buf == FrameBytes(tag, payload) == FrameBytes(tag', payload')
    ensures tag == tag' && payload == payload'
  {
    hide FrameBytes, Digits;
    FrameParts(tag, payload);
    FrameParts(tag', payload');
  }

  lemma SameStrings(a: seq<byte>, b: seq<byte>, a': seq<byte>, b': seq<byte>)
    requires StringBytes(a) + StringBytes(b) == StringBytes(a') + StringBytes(b')
    requires |StringBytes(a) + StringBytes(b)| < U32_SIZE
    ensures a == a' && b == b'
  {
    hide Digits, LE;
    var s := StringBytes(a) + StringBytes(b);
    assert s[0..4] == Digits(|a|, 4) && s[0..4] == Digits(|a'|, 4);
    LEOfDigits32(|a|);
    LEOfDigits32(|a'|);
    assert s[4..4 + |a|] == a && s[4..4 + |a'|] == a';
    assert s[4 + |a|..][4..] == b && s[4 + |a|..][4..] == b';
  }

  /** What is obtained for the client, if the request reaches a backend at all. */
  function ObtainedFor<S>(how: Behaviour<S>, reg: Registry<S>, path: seq<byte>, backend: seq<byte>): Option<Obtained> {
    if ValidUtf8(path) && ValidUtf8(backend) && backend in reg then Some(how.obtain(reg[backend], path).1) else None
  }

  /**
   End to end. The program run in the end is the one the named backend produced, up to its first
   NUL, if the request reached that backend, it produced one, and the client takes it from the
   answer; in every other case it is the program the guest asked for.
   */
  lemma ExecutedPath<S>(how: Behaviour<S>, reg: Registry<S>, path: seq<byte>, backend: seq<byte>)
    requires 0 !in path && 0 !in backend && 8 + |path| + |backend| <= 512
    ensures var reply := Handled(how, reg, ClientFrame(path, backend)).1;
            ExecPath(reply, path) ==
            match ObtainedFor(how, reg, path, backend)
            case Some(Exec(exe)) =>
              (match PathTaken(Ready(exe, false, backend))
               case Some(taken) => CString(taken + [0], 0)
               case None => path)
            case _ => path
  {
    hide ClientFrame, DecodeRequest, ResponseBytes, ExecPath, ParsedPath, ValidUtf8, InvalidRequest, CString, AsU32;
    hide UnknownBackend, ResponsePayload;
    ClientFrameDecodes(path, backend);
    match ObtainedFor(how, reg, path, backend)
    case None =>
      if ValidUtf8(path) && ValidUtf8(backend) {
        UnknownIsError(backend);
        ExecPathFallsBack(UnknownBackend(backend), path);
      } else {
        ExecPathFallsBack(Error(InvalidRequest()), path);
      }
    case Some(o) =>
      var r := ObtainAnswer(backend, o);
      if PathTaken(r).Some? {
        ClientParsesResponses(r);
        ExecPathOf(ResponseBytes(r), path, PathTaken(r).value);
      } else {
        ExecPathFallsBack(r, path);
      }
  }

  lemma UnknownIsError(id: Str)
    ensures UnknownBackend(id).Error?
  {
  }

  lemma ExecPathOf(resp: seq<byte>, path: seq<byte>, exe: seq<byte>)
    requires ParsedPath(resp) == Some(exe)
    ensures ExecPath(resp, path) == CString(exe + [0], 0)
  {
  }
}
