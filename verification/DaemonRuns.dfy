/** Whole runs of the daemon: backends are isolated from each other and from malformed input. */
module DaemonRuns {
  import opened Results
  import opened Bytes
  import opened Utf8
  import opened Wire
  import opened WireTheorems
  import opened IdOrder
  import opened Daemon

  /** A run over any frames: the final registry and the replies. */
  ghost function Run<S>(how: Behaviour<S>, reg: Registry<S>, frames: seq<seq<byte>>): (r: (Registry<S>, seq<seq<byte>>))
    ensures |r.1| == |frames|
    decreases |frames|
  {
    if frames == [] then (reg, [])
    else
      var h := Handled(how, reg, frames[0]);
      var rest := Run(how, h.0, frames[1..]);
      (rest.0, [h.1] + rest.1)
  }

  predicate IsObtainFor(frame: seq<byte>, id: Str) {
    match DecodeRequest(frame)
    case Success(Obtain(_, id')) => id' == id
    case _ => false
  }

  /** The paths of the well-formed Obtain frames naming `id`, in order. */
  function PathsFor(id: Str, frames: seq<seq<byte>>): seq<Str>
    decreases |frames|
  {
    if frames == [] then []
    else if IsObtainFor(frames[0], id) then [DecodeRequest(frames[0]).value.path] + PathsFor(id, frames[1..])
    else PathsFor(id, frames[1..])
  }

  /** A backend on its own, given those paths. */
  function ObtainAll<S>(how: Behaviour<S>, s: S, paths: seq<Str>): S
    decreases |paths|
  {
    if paths == [] then s else ObtainAll(how, how.obtain(s, paths[0]).0, paths[1..])
  }

  /** One frame's part in the history of a backend. */
  function AfterFrame<S>(how: Behaviour<S>, s: S, frame: seq<byte>, id: Str): S {
    if IsObtainFor(frame, id) then how.obtain(s, DecodeRequest(frame).value.path).0 else s
  }

  lemma OneFrame<S>(how: Behaviour<S>, reg: Registry<S>, frame: seq<byte>, id: Str)
    requires id in reg
    ensures Handled(how, reg, frame).0.Keys == reg.Keys
    ensures Handled(how, reg, frame).0[id] == AfterFrame(how, reg[id], frame, id)
  {
    hide DecodeRequest, ResponseBytes, Analyzes, InvalidRequest, UnknownBackend;
  }

  lemma KeysKept<S>(how: Behaviour<S>, reg: Registry<S>, frame: seq<byte>)
    ensures Handled(how, reg, frame).0.Keys == reg.Keys
  {
    hide DecodeRequest, ResponseBytes, Analyzes, InvalidRequest, UnknownBackend;
  }

  lemma RunNothing<S>(how: Behaviour<S>, reg: Registry<S>, frames: seq<seq<byte>>)
    requires frames == []
    ensures Run(how, reg, frames) == (reg, [])
  {
  }

  lemma RunStep<S>(how: Behaviour<S>, reg: Registry<S>, frames: seq<seq<byte>>)
    requires frames != []
    ensures var h := Handled(how, reg, frames[0]);
            && Run(how, reg, frames).0 == Run(how, h.0, frames[1..]).0
            && Run(how, reg, frames).1 == [h.1] + Run(how, h.0, frames[1..]).1
  {
    hide Handled;
  }

  lemma HistoryStep<S>(how: Behaviour<S>, s: S, frames: seq<seq<byte>>, id: Str)
    requires frames != []
    ensures ObtainAll(how, s, PathsFor(id, frames)) ==
            ObtainAll(how, AfterFrame(how, s, frames[0], id), PathsFor(id, frames[1..]))
  {
    hide DecodeRequest;
    if IsObtainFor(frames[0], id) {
      var path := DecodeRequest(frames[0]).value.path;
      assert ([path] + PathsFor(id, frames[1..]))[1..] == PathsFor(id, frames[1..]);
    }
  }

  /**
   Isolation. Over every sequence of frames, valid, malformed or naming unknown ids, the registered
   ids never change and each backend ends in the state it would reach alone, given exactly the
   well-formed Obtain requests that name it, in order.
   */
  lemma {:induction false} BackendsIsolated<S>(how: Behaviour<S>, reg: Registry<S>, frames: seq<seq<byte>>)
    ensures Run(how, reg, frames).0.Keys == reg.Keys
    ensures forall id :: id in reg ==>
              Run(how, reg, frames).0[id] == ObtainAll(how, reg[id], PathsFor(id, frames))
    decreases |frames|
  {
    hide Handled, Run, AfterFrame;
    if frames == [] {
      RunNothing(how, reg, frames);
    } else {
      hide ObtainAll, PathsFor;
      var next := Handled(how, reg, frames[0]).0;
      RunStep(how, reg, frames);
      KeysKept(how, reg, frames[0]);
      BackendsIsolated(how, next, frames[1..]);
      forall id | id in reg
        ensures Run(how, reg, frames).0[id] == ObtainAll(how, reg[id], PathsFor(id, frames))
      {
        OneFrame(how, reg, frames[0], id);
        HistoryStep(how, reg[id], frames, id);
      }
    }
  }

  /** The reply to each frame is the one given from the state its predecessors left. */
  lemma {:induction false} RunSplits<S>(how: Behaviour<S>, reg: Registry<S>, frames: seq<seq<byte>>, i: nat)
    requires i < |frames|
    ensures Run(how, reg, frames).1[i] == Handled(how, Run(how, reg, frames[..i]).0, frames[i]).1
    decreases |frames|
  {
    hide Handled, Run;
    var next := Handled(how, reg, frames[0]).0;
    RunStep(how, reg, frames);
    if i == 0 {
      RunNothing(how, reg, frames[..i]);
    } else {
      RunStep(how, reg, frames[..i]);
      RunSplits(how, next, frames[1..], i - 1);
      assert frames[1..][..i - 1] == frames[..i][1..];
    }
  }

  /**
   So the reply to an Obtain depends on nothing but the named backend's own history: it is the
   answer of that backend alone after the earlier requests that named it, or an error if the id
   was never registered.
   */
  lemma ObtainRepliesIsolated<S>(
    how: Behaviour<S>, reg: Registry<S>, frames: seq<seq<byte>>, i: nat, path: Str, id: Str)
    requires i < |frames| && DecodeRequest(frames[i]) == Success(Obtain(path, id))
    ensures var reply := Run(how, reg, frames).1[i];
            if id in reg then
              var o := how.obtain(ObtainAll(how, reg[id], PathsFor(id, frames[..i])), path).1;
              reply == ResponseBytes(
                if o.Exec? then Ready(o.exe, false, id)
                else if o.Refused? then Unsuitable(id, o.reasons)
                else Error(o.message))
            else IsUnknownReply(reply, id)
  {
    hide DecodeRequest, ResponseBytes, Run, UnknownBackend, IsUnknownReply;
    UnknownReplies(id);
    RunSplits(how, reg, frames, i);
    BackendsIsolated(how, reg, frames[..i]);
  }

  /** The error that names an id nobody registered. */
  ghost predicate IsUnknownReply(reply: seq<byte>, id: Str) {
    exists m: Str :: m == Ascii("unknown backend: ") + id && reply == ResponseBytes(Error(m))
  }

  lemma UnknownReplies(id: Str)
    ensures IsUnknownReply(ResponseBytes(UnknownBackend(id)), id)
  {
    hide ResponseBytes;
  }

  /** The two fixed messages, letter by letter. */
  lemma MessageTexts(i: nat)
    ensures i < |"invalid request"| ==> InvalidRequest()[i] == "invalid request"[i] as int
    ensures i < |"no backend registered"| ==> NoBackendRegistered()[i] == "no backend registered"[i] as int
    ensures |InvalidRequest()| == 15 && |NoBackendRegistered()| == 21
  {
  }

  /** What cannot be decoded is an invalid request, and a ping is answered by a pong. */
  lemma PlainReplies<S>(how: Behaviour<S>, reg: Registry<S>, frame: seq<byte>)
    ensures DecodeRequest(frame).Failure? ==>
              Handled(how, reg, frame) == (reg, ResponseBytes(Error(InvalidRequest())))
    ensures DecodeRequest(frame) == Success(Ping) ==> Handled(how, reg, frame) == (reg, ResponseBytes(Pong))
  {
    hide DecodeRequest, ResponseBytes, InvalidRequest;
  }

  /** The reply to an analysis by a named backend: that backend's own verdict, and nothing changes. */
  lemma NamedAnalysis<S>(how: Behaviour<S>, reg: Registry<S>, frame: seq<byte>, path: Str, id: Str)
    requires DecodeRequest(frame) == Success(Analyze(path, Some(id)))
    ensures Handled(how, reg, frame).0 == reg
    ensures var reply := Handled(how, reg, frame).1;
            if id in reg then
              var a := how.analyze(reg[id], path);
              reply == ResponseBytes(
                if a.AnalysisFailed? then Error(a.message)
                else if a.suitable then Suitable(id)
                else Unsuitable(id, a.why))
            else IsUnknownReply(reply, id)
  {
    hide DecodeRequest, ResponseBytes, UnknownBackend, IsUnknownReply;
    UnknownReplies(id);
  }

  /** Every listing in a run is the ascending list of the ids registered at its start. */
  lemma ListingsUnchanged<S>(how: Behaviour<S>, reg: Registry<S>, frames: seq<seq<byte>>, i: nat)
    requires i < |frames| && DecodeRequest(frames[i]) == Success(ListBackends)
    ensures exists ids :: Lists(ids, reg.Keys) && Run(how, reg, frames).1[i] == ResponseBytes(Backends(ids))
  {
    hide DecodeRequest, ResponseBytes, Run, Lists;
    RunSplits(how, reg, frames, i);
    BackendsIsolated(how, reg, frames[..i]);
    assert Lists(Sorted(reg.Keys), reg.Keys);
  }

  /** Whatever comes in, the reply that fits its frame decodes; and to an Obtain it names the backend. */
  lemma RepliesDecode<S>(how: Behaviour<S>, reg: Registry<S>, frame: seq<byte>)
    ensures exists resp ::
              && Handled(how, reg, frame).1 == ResponseBytes(resp)
              && AnswersTo(DecodeRequest(frame), resp)
              && DecodeResponse(Handled(how, reg, frame).1) ==
                 if |ResponsePayload(resp)| < U32_SIZE then Success(resp) else Failure(WireError)
  {
    hide DecodeRequest, ResponseBytes, Analyzes, InvalidRequest, UnknownBackend, DecodeResponse, ResponsePayload;
    var resp := match DecodeRequest(frame)
      case Failure(_) => Error(InvalidRequest())
      case Success(req) => Dispatched(how, reg, req).1;
    ResponseRoundTrip(resp);
    UnknownIsError(frame);
    AnalysisShape(how, reg, frame);
    assert AnswersTo(DecodeRequest(frame), resp);
  }

  lemma UnknownIsError(frame: seq<byte>)
    ensures forall id :: UnknownBackend(id).Error?
  {
  }

  /** The kinds of answer each request can get. */
  predicate AnswersTo(req: Result<Request, WireError>, resp: Response) {
    match req
    case Failure(_) => resp.Error?
    case Success(Ping) => resp.Pong?
    case Success(ListBackends) => resp.Backends?
    case Success(Analyze(_, choice)) =>
      (match resp
       case Suitable(id) => choice.Some? ==> id == choice.value
       case Unsuitable(id, _) => choice.Some? ==> id == choice.value
       case Error(_) => true
       case _ => false)
    case Success(Obtain(_, backend)) =>
      (match resp
       case Ready(_, hit, id) => id == backend && !hit
       case Unsuitable(id, _) => id == backend
       case Error(_) => true
       case _ => false)
  }

  lemma AnalysisShape<S>(how: Behaviour<S>, reg: Registry<S>, frame: seq<byte>)
    ensures match DecodeRequest(frame)
            case Success(Analyze(path, choice)) =>
              AnswersTo(DecodeRequest(frame), Analyzes(how, reg, path, choice))
            case _ => true
  {
    hide DecodeRequest, UnknownBackend;
    UnknownIsError(frame);
    match DecodeRequest(frame)
    case Success(Analyze(path, None)) =>
      FirstSuitableShape(how, reg, Sorted(reg.Keys), path, Unsuitable([], [NoBackendRegistered()]));
    case _ =>
  }

  lemma {:induction false} FirstSuitableShape<S>(
    how: Behaviour<S>, reg: Registry<S>, ids: seq<Str>, path: Str, last: Response)
    requires forall id :: id in ids ==> id in reg
    requires last.Unsuitable? || last.Error?
    ensures var r := FirstSuitable(how, reg, ids, path, last); r.Suitable? || r.Unsuitable? || r.Error?
    decreases |ids|
  {
    if ids != [] {
      var r := AnalyzeOne(how, ids[0], reg[ids[0]], path);
      if !r.Suitable? {
        FirstSuitableShape(how, reg, ids[1..], path, r);
      }
    }
  }

  // ---- the default analysis

  predicate SaysSuitable<S>(how: Behaviour<S>, reg: Registry<S>, id: Str, path: Str)
    requires id in reg
  {
    var a := how.analyze(reg[id], path);
    a.Analyzed? && a.suitable
  }

  ghost predicate Least(id: Str, ids: set<Str>) {
    id in ids && forall x :: x in ids ==> x == id || Less(id, x)
  }

  ghost predicate Greatest(id: Str, ids: set<Str>) {
    id in ids && forall x :: x in ids ==> x == id || Less(x, id)
  }

  lemma {:induction false} FirstSuitableFinds<S>(
    how: Behaviour<S>, reg: Registry<S>, ids: seq<Str>, path: Str, last: Response)
    requires forall id :: id in ids ==> id in reg
    ensures var r := FirstSuitable(how, reg, ids, path, last);
            || (exists i | 0 <= i < |ids| ::
                  && r == Suitable(ids[i]) && SaysSuitable(how, reg, ids[i], path)
                  && forall j :: 0 <= j < i ==> !SaysSuitable(how, reg, ids[j], path))
            || ((forall i :: 0 <= i < |ids| ==> !SaysSuitable(how, reg, ids[i], path))
                && r == if ids == [] then last else AnalyzeOne(how, ids[|ids| - 1], reg[ids[|ids| - 1]], path))
    decreases |ids|
  {
    if ids != [] {
      var first, rest := AnalyzeOne(how, ids[0], reg[ids[0]], path), ids[1..];
      if first.Suitable? {
        assert SaysSuitable(how, reg, ids[0], path);
      } else {
        hide AnalyzeOne;
        FirstSuitableFinds(how, reg, rest, path, first);
        var r := FirstSuitable(how, reg, rest, path, first);
        if i :| 0 <= i < |rest| && r == Suitable(rest[i]) && SaysSuitable(how, reg, rest[i], path)
                && forall j :: 0 <= j < i ==> !SaysSuitable(how, reg, rest[j], path) {
          assert ids[i + 1] == rest[i];
          forall j | 0 <= j < i + 1
            ensures !SaysSuitable(how, reg, ids[j], path)
          {
            if j > 0 {
              assert ids[j] == rest[j - 1];
            }
          }
        } else {
          forall i | 0 <= i < |ids|
            ensures !SaysSuitable(how, reg, ids[i], path)
          {
            if i > 0 {
              assert ids[i] == rest[i - 1];
            }
          }
        }
      }
    }
  }

  /**
   The default analysis depends on the registry's contents alone. The reply names the least id whose
   backend says suitable; if none does it is the greatest id's own answer; with no backends it
   says that none is registered.
   */
  lemma DefaultAnalysis<S>(how: Behaviour<S>, reg: Registry<S>, frame: seq<byte>, path: Str)
    requires DecodeRequest(frame) == Success(Analyze(path, None))
    ensures Handled(how, reg, frame).0 == reg
    ensures var reply, good := Handled(how, reg, frame).1, set id | id in reg && SaysSuitable(how, reg, id, path);
            if good != {} then exists id :: Least(id, good) && reply == ResponseBytes(Suitable(id))
            else if reg.Keys != {} then
              exists id :: Greatest(id, reg.Keys)
                           && var a := how.analyze(reg[id], path);
                              reply == ResponseBytes(
                                if a.Analyzed? then Unsuitable(id, a.why) else Error(a.message))
            else reply == ResponseBytes(Unsuitable([], [NoBackendRegistered()]))
  {
    hide DecodeRequest, ResponseBytes, Less, FirstSuitable, Sorted, Analyzes, NoBackendRegistered;
    var good := set id | id in reg && SaysSuitable(how, reg, id, path);
    DefaultAnswer(how, reg, path);
    if good == {} && reg.Keys != {} {
      var id :| Greatest(id, reg.Keys) && Analyzes(how, reg, path, None) == AnalyzeOne(how, id, reg[id], path);
      assert id !in good;
    }
  }

  lemma DefaultAnswer<S>(how: Behaviour<S>, reg: Registry<S>, path: Str)
    ensures var r, good := Analyzes(how, reg, path, None), set id | id in reg && SaysSuitable(how, reg, id, path);
            if good != {} then exists id :: Least(id, good) && r == Suitable(id)
            else if reg.Keys != {} then exists id :: Greatest(id, reg.Keys) && r == AnalyzeOne(how, id, reg[id], path)
            else r == Unsuitable([], [NoBackendRegistered()])
  {
    hide Less, AnalyzeOne, NoBackendRegistered, FirstSuitable, Ascending, SaysSuitable, Sorted;
    var ids, last := Sorted(reg.Keys), Unsuitable([], [NoBackendRegistered()]);
    var r, good := Analyzes(how, reg, path, None), set id | id in reg && SaysSuitable(how, reg, id, path);
    FirstSuitableFinds(how, reg, ids, path, last);
    if i :| 0 <= i < |ids| && r == Suitable(ids[i]) && SaysSuitable(how, reg, ids[i], path)
            && forall j :: 0 <= j < i ==> !SaysSuitable(how, reg, ids[j], path) {
      assert ids[i] in ids;
      forall x | x in good
        ensures x == ids[i] || Less(ids[i], x)
      {
        var j := PositionOf(ids, reg.Keys, x);
        BeforeOrAfter(ids, i, j);
      }
      assert Least(ids[i], good);
    } else {
      forall x | x in reg
        ensures !SaysSuitable(how, reg, x, path)
      {
        var j := PositionOf(ids, reg.Keys, x);
      }
      if ids != [] {
        GreatestIsLast(ids, reg.Keys);
      } else {
        assert forall x :: x in reg.Keys ==> x in ids;
      }
    }
  }

  lemma PositionOf(ids: seq<Str>, keys: set<Str>, x: Str) returns (j: nat)
    requires Lists(ids, keys) && x in keys
    ensures j < |ids| && ids[j] == x
  {
    hide Ascending;
    assert x in ids;
    j :| 0 <= j < |ids| && ids[j] == x;
  }

  lemma BeforeOrAfter(ids: seq<Str>, i: nat, j: nat)
    requires Ascending(ids) && i < |ids| && j < |ids|
    ensures if i < j then Less(ids[i], ids[j]) else if j < i then Less(ids[j], ids[i]) else ids[i] == ids[j]
  {
    hide Less;
  }

  lemma GreatestIsLast(ids: seq<Str>, keys: set<Str>)
    requires Lists(ids, keys) && ids != []
    ensures Greatest(ids[|ids| - 1], keys)
  {
    hide Less, Ascending;
    var top := ids[|ids| - 1];
    assert top in ids;
    forall x | x in keys
      ensures x == top || Less(x, top)
    {
      var j := PositionOf(ids, keys, x);
      BeforeOrAfter(ids, j, |ids| - 1);
    }
  }

  // ---- registration

  function Registered<S>(how: Behaviour<S>, reg: Registry<S>, backends: seq<S>): Registry<S>
    decreases |backends|
  {
    if backends == [] then reg else Registered(how, reg[how.id(backends[0]) := backends[0]], backends[1..])
  }

  /** The last backend of the list with this id. */
  function LastNamed<S>(how: Behaviour<S>, backends: seq<S>, id: Str): Option<S>
    decreases |backends|
  {
    if backends == [] then None
    else if LastNamed(how, backends[1..], id).Some? then LastNamed(how, backends[1..], id)
    else if how.id(backends[0]) == id then Some(backends[0])
    else None
  }

  /** The backend held under an id is the last one registered under it, or what was there before. */
  lemma {:induction false} LastRegistrationWins<S>(how: Behaviour<S>, reg: Registry<S>, backends: seq<S>, id: Str)
    ensures var last, after := LastNamed(how, backends, id), Registered(how, reg, backends);
            && (id in after <==> id in reg || last.Some?)
            && (id in after ==> after[id] == if last.Some? then last.value else reg[id])
    decreases |backends|
  {
    if backends != [] {
      LastRegistrationWins(how, reg[how.id(backends[0]) := backends[0]], backends[1..], id);
    }
  }

  /** Two histories of registrations end with the same backend under every id. */
  ghost predicate SameBackends<S>(how: Behaviour<S>, xs: seq<S>, ys: seq<S>) {
    forall id: Str :: LastNamed(how, xs, id) == LastNamed(how, ys, id)
  }

  /**
   That is exactly when they leave the same registry. Every answer depends on nothing else, so the
   order of registrations is not observable.
   */
  lemma RegistrationOrderUnobserved<S>(how: Behaviour<S>, xs: seq<S>, ys: seq<S>)
    ensures SameBackends(how, xs, ys) <==> Registered(how, map[], xs) == Registered(how, map[], ys)
  {
    hide Registered, LastNamed;
    var x, y := Registered(how, map[], xs), Registered(how, map[], ys);
    forall id: Str
      ensures x == y ==> LastNamed(how, xs, id) == LastNamed(how, ys, id)
    {
      LastRegistrationWins(how, map[], xs, id);
      LastRegistrationWins(how, map[], ys, id);
    }
    if SameBackends(how, xs, ys) {
      forall id: Str
        ensures id in x <==> id in y
        ensures id in x && id in y ==> x[id] == y[id]
      {
        LastRegistrationWins(how, map[], xs, id);
        LastRegistrationWins(how, map[], ys, id);
      }
      assert x == y;
    }
  }
}
