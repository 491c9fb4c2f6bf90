/**
 The daemon: a registry of stateful backends and a dispatcher from frames to replies. A backend is
 abstract state `S` with its behaviour as functions; a lock is held for the length of each request.
 */
module Daemon {
  import opened Results
  import opened Bytes
  import opened Utf8
  import opened Wire
  import opened IdOrder

  datatype Analysis =
    | Analyzed(suitable: bool, why: seq<Str>)
    | AnalysisFailed(message: Str)

  datatype Obtained =
    | Exec(exe: Str)
    | Refused(reasons: seq<Str>)
    | TransformFailed(message: Str)

  /** What `TransformBackend` asks of an implementation. */
  datatype Behaviour<!S> = Behaviour(
    id: S -> Str, analyze: (S, Str) -> Analysis, obtain: (S, Str) -> (S, Obtained))

  type Registry<S> = map<Str, S>

  // ---- one request

  function InvalidRequest(): Str {
    Ascii("invalid request")
  }

  function NoBackendRegistered(): Str {
    Ascii("no backend registered")
  }

  function UnknownBackend(id: Str): Response {
    ConcatValid(Ascii("unknown backend: "), id);
    Error(Ascii("unknown backend: ") + id)
  }

  function AnalyzeOne<S>(how: Behaviour<S>, id: Str, s: S, path: Str): Response {
    match how.analyze(s, path)
    case Analyzed(suitable, why) => if suitable then Suitable(id) else Unsuitable(id, why)
    case AnalysisFailed(message) => Error(message)
  }

  /** The loop over the ids left, with the answer so far. */
  function FirstSuitable<S>(how: Behaviour<S>, reg: Registry<S>, ids: seq<Str>, path: Str, last: Response): Response
    requires forall id :: id in ids ==> id in reg
  {
    if ids == [] then last
    else
      var r := AnalyzeOne(how, ids[0], reg[ids[0]], path);
      if r.Suitable? then r else FirstSuitable(how, reg, ids[1..], path, r)
  }

  ghost function Analyzes<S>(how: Behaviour<S>, reg: Registry<S>, path: Str, choice: Option<Str>): Response {
    match choice
    case Some(id) => if id in reg then AnalyzeOne(how, id, reg[id], path) else UnknownBackend(id)
    case None => FirstSuitable(how, reg, Sorted(reg.Keys), path, Unsuitable([], [NoBackendRegistered()]))
  }

  /** The answer to an Obtain that a backend `id` produced. */
  function ObtainAnswer(id: Str, o: Obtained): Response {
    match o
    case Exec(exe) => Ready(exe, false, id)
    case Refused(reasons) => Unsuitable(id, reasons)
    case TransformFailed(message) => Error(message)
  }

  ghost function Dispatched<S>(how: Behaviour<S>, reg: Registry<S>, req: Request): (Registry<S>, Response) {
    match req
    case Ping => (reg, Pong)
    case Analyze(path, choice) => (reg, Analyzes(how, reg, path, choice))
    case Obtain(path, id) =>
      if id !in reg then (reg, UnknownBackend(id))
      else
        var o := how.obtain(reg[id], path);
        (reg[id := o.0], ObtainAnswer(id, o.1))
    case ListBackends => (reg, Backends(Sorted(reg.Keys)))
  }

  /** One frame: the new registry and the reply's bytes. */
  ghost function Handled<S>(how: Behaviour<S>, reg: Registry<S>, frame: seq<byte>): (Registry<S>, seq<byte>) {
    match DecodeRequest(frame)
    case Failure(_) => (reg, ResponseBytes(Error(InvalidRequest())))
    case Success(req) => (Dispatched(how, reg, req).0, ResponseBytes(Dispatched(how, reg, req).1))
  }

  class Daemon<S> {
    const how: Behaviour<S>
    var backends: Registry<S>

    constructor (how: Behaviour<S>)
      ensures this.how == how && backends == map[]
    {
      this.how := how;
      backends := map[];
    }

    /** Registering a second backend under the same id replaces the first. */
    method Register(backend: S)
      modifies this
      ensures backends == old(backends)[how.id(backend) := backend]
    {
      backends := backends[how.id(backend) := backend];
    }

    method HandleFrame(frame: seq<byte>) returns (reply: seq<byte>)
      modifies this
      ensures (backends, reply) == Handled(how, old(backends), frame)
    {
      hide DecodeRequest, ResponseBytes, InvalidRequest;
      match DecodeRequest(frame) {
        case Failure(_) =>
          reply := EncodeResponse(Error(InvalidRequest()));
        case Success(req) =>
          var resp := Dispatch(req);
          reply := EncodeResponse(resp);
      }
    }

    method Dispatch(req: Request) returns (resp: Response)
      modifies this
      ensures (backends, resp) == Dispatched(how, old(backends), req)
    {
      match req {
        case Ping => resp := Pong;
        case Analyze(path, choice) => resp := HandleAnalyze(path, choice);
        case Obtain(path, id) => resp := HandleObtain(path, id);
        case ListBackends =>
          var ids := SortIds(backends.Keys);
          resp := Backends(ids);
      }
    }

    method HandleAnalyze(path: Str, choice: Option<Str>) returns (resp: Response)
      ensures resp == Analyzes(how, backends, path, choice)
    {
      if choice.Some? {
        var id := choice.value;
        if id in backends {
          return AnalyzeOne(how, id, backends[id], path);
        }
        return UnknownBackend(id);
      }
      var ids := SortIds(backends.Keys);
      var last := Unsuitable([], [NoBackendRegistered()]);
      ghost var answer := Analyzes(how, backends, path, choice);
      for i := 0 to |ids|
        invariant answer == FirstSuitable(how, backends, ids[i..], path, last)
      {
        var id := ids[i];
        assert id in ids;
        var r := AnalyzeOne(how, id, backends[id], path);
        assert ids[i..][1..] == ids[i + 1..];
        if r.Suitable? {
          return r;
        }
        last := r;
      }
      return last;
    }

    method HandleObtain(path: Str, id: Str) returns (resp: Response)
      modifies this
      ensures (backends, resp) == Dispatched(how, old(backends), Obtain(path, id))
    {
      if id !in backends {
        return UnknownBackend(id);
      }
      var o := how.obtain(backends[id], path);
      backends := backends[id := o.0];
      return ObtainAnswer(id, o.1);
    }
  }
}
