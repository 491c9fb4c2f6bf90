/** Both backends over whole runs: every answer is the one flat memory gives. */
module GuestRuns {
  import opened Results
  import opened Bytes
  import opened GuestMemory

  /** The answers of flat memory to a run. */
  function FlatAnswers(f: Flat, ops: seq<Op>): (answers: seq<Answer>)
    ensures |answers| == |ops|
    decreases |ops|
  {
    if ops == [] then []
    else [FlatStep(f, ops[0]).1] + FlatAnswers(FlatStep(f, ops[0]).0, ops[1..])
  }

  function AllZeros(): Flat {
    (a: nat) => 0
  }

  // ---- flat memory is determined by its 2^64 bytes

  ghost predicate Agree(f: Flat, g: Flat) {
    forall a: nat :: a < U64_SIZE ==> f(a) == g(a)
  }

  lemma StepsAgree(f: Flat, g: Flat, op: Op)
    requires Agree(f, g)
    ensures FlatStep(f, op).1 == FlatStep(g, op).1
    ensures Agree(FlatStep(f, op).0, FlatStep(g, op).0)
  {
    hide LE, Wrap, Digits;
    if op.Load? && WidthBytes(op.width).Some? {
      var n := WidthBytes(op.width).value;
      forall i | 0 <= i < n
        ensures Window(f, op.addr, n)[i] == Window(g, op.addr, n)[i]
      {
        assert f(Nth(op.addr, i)) == g(Nth(op.addr, i));
      }
      assert Window(f, op.addr, n) == Window(g, op.addr, n);
    }
  }

  // ---- paged memory

  /** A run of the paged memory: the states it goes through and the answers it gives. */
  ghost predicate PagedRun(states: seq<Pages>, ops: seq<Op>, answers: seq<Answer>) {
    && |states| == |ops| + 1 && |answers| == |ops|
    && forall i :: 0 <= i < |ops| ==> PagedStep(states[i], ops[i], states[i + 1], answers[i])
  }

  lemma {:induction false} PagedRunFrom(states: seq<Pages>, ops: seq<Op>, answers: seq<Answer>, f: Flat)
    requires PagedRun(states, ops, answers) && Holds(states[0], f)
    ensures answers == FlatAnswers(f, ops)
    decreases |ops|
  {
    if ops != [] {
      hide FlatStep;
      var next := FlatStep(f, ops[0]).0;
      assert PagedStep(states[0], ops[0], states[1], answers[0]);
      StepsAgree(FlatOf(states[0]), f, ops[0]);
      assert PagedRun(states[1..], ops[1..], answers[1..]) by {
        forall i | 0 <= i < |ops| - 1
          ensures PagedStep(states[1..][i], ops[1..][i], states[1..][i + 1], answers[1..][i])
        {
          assert PagedStep(states[i + 1], ops[i + 1], states[i + 2], answers[i + 1]);
        }
      }
      PagedRunFrom(states[1..], ops[1..], answers[1..], next);
      assert answers == [answers[0]] + answers[1..];
    }
  }

  /**
   Sparse pages are a flat 2^64-byte memory that starts out zero: over every run, at any width,
   across page boundaries and round the top of the address space, wherever pages are allocated.
   */
  lemma PagesRefineFlat(states: seq<Pages>, ops: seq<Op>, answers: seq<Answer>)
    requires PagedRun(states, ops, answers) && states[0] == map[]
    ensures answers == FlatAnswers(AllZeros(), ops)
  {
    PagedRunFrom(states, ops, answers, AllZeros());
  }

  /** A run without its allocations, and the answers it keeps. */
  function WithoutTouches(ops: seq<Op>): seq<Op> {
    if ops == [] then []
    else if ops[0].Touch? then WithoutTouches(ops[1..])
    else [ops[0]] + WithoutTouches(ops[1..])
  }

  function Kept(ops: seq<Op>, answers: seq<Answer>): seq<Answer>
    requires |answers| == |ops|
    decreases |ops|
  {
    if ops == [] then []
    else if ops[0].Touch? then Kept(ops[1..], answers[1..])
    else [answers[0]] + Kept(ops[1..], answers[1..])
  }

  lemma {:induction false} FlatIgnoresTouches(f: Flat, ops: seq<Op>)
    ensures Kept(ops, FlatAnswers(f, ops)) == FlatAnswers(f, WithoutTouches(ops))
    decreases |ops|
  {
    if ops != [] {
      hide LE, Wrap, FlatRead, FlatWrite;
      var next, answers := FlatStep(f, ops[0]).0, FlatAnswers(f, ops);
      assert answers[1..] == FlatAnswers(next, ops[1..]);
      FlatIgnoresTouches(next, ops[1..]);
      if !ops[0].Touch? {
        assert WithoutTouches(ops)[1..] == WithoutTouches(ops[1..]);
      }
    }
  }

  /**
   Allocation is unobservable: a run over pages answers what any run of the same reads and writes
   without the allocations answers, wherever the pages of either end up.
   */
  lemma AllocationIsUnobservable(
    states: seq<Pages>, ops: seq<Op>, answers: seq<Answer>, states': seq<Pages>, answers': seq<Answer>)
    requires PagedRun(states, ops, answers) && states[0] == map[]
    requires PagedRun(states', WithoutTouches(ops), answers') && states'[0] == map[]
    ensures Kept(ops, answers) == answers'
  {
    PagesRefineFlat(states, ops, answers);
    PagesRefineFlat(states', WithoutTouches(ops), answers');
    FlatIgnoresTouches(AllZeros(), ops);
  }

  // ---- linear memory

  function LinearStep(mem: seq<byte>, base: nat, op: Op): (r: (seq<byte>, Answer))
    requires !op.Touch?
    ensures |r.0| == |mem|
  {
    match op
    case Load(addr, w) => (mem, AnswerOf(LinearRead(mem, base, addr, w)))
    case Store(addr, w, v) =>
      (LinearWrite(mem, base, addr, w, v), if InBounds(|mem|, base, addr, w) then Done else Fault(OutOfBounds))
  }

  function LinearAnswers(mem: seq<byte>, base: nat, ops: seq<Op>): (answers: seq<Answer>)
    requires forall i :: 0 <= i < |ops| ==> !ops[i].Touch?
    ensures |answers| == |ops|
    decreases |ops|
  {
    if ops == [] then []
    else [LinearStep(mem, base, ops[0]).1] + LinearAnswers(LinearStep(mem, base, ops[0]).0, base, ops[1..])
  }

  predicate Admits(size: nat, base: nat, op: Op) {
    !op.Touch? && InBounds(size, base, op.addr, op.width)
  }

  /** The accesses of a run that stay inside the buffer. */
  function Admitted(size: nat, base: nat, ops: seq<Op>): seq<Op> {
    if ops == [] then []
    else if Admits(size, base, ops[0]) then [ops[0]] + Admitted(size, base, ops[1..])
    else Admitted(size, base, ops[1..])
  }

  /** The answers at those accesses. */
  function AdmittedAnswers(size: nat, base: nat, ops: seq<Op>, answers: seq<Answer>): seq<Answer>
    requires |answers| == |ops|
    decreases |ops|
  {
    if ops == [] then []
    else if Admits(size, base, ops[0]) then [answers[0]] + AdmittedAnswers(size, base, ops[1..], answers[1..])
    else AdmittedAnswers(size, base, ops[1..], answers[1..])
  }

  /** Byte `k` of the buffer is the byte of the `k`-th address from the base, going round. */
  ghost predicate Mirrors(mem: seq<byte>, base: nat, f: Flat) {
    forall k :: 0 <= k < |mem| ==> mem[k] == f(Nth(base, k))
  }

  lemma LinearLoad(mem: seq<byte>, base: nat, f: Flat, addr: nat, w: AccessWidth)
    requires Mirrors(mem, base, f) && base <= addr && InBounds(|mem|, base, addr, w)
    ensures LinearRead(mem, base, addr, w) == Success(FlatRead(f, addr, WidthBytes(w).value))
  {
    hide LE;
    var n, off := WidthBytes(w).value, addr - base;
    forall i | 0 <= i < n
      ensures mem[off..off + n][i] == Window(f, addr, n)[i]
    {
      assert Nth(addr, i) == Nth(base, off + i);
    }
    assert mem[off..off + n] == Window(f, addr, n);
  }

  lemma LinearStore(mem: seq<byte>, base: nat, f: Flat, addr: nat, w: AccessWidth, v: nat)
    requires Mirrors(mem, base, f) && InBounds(|mem|, base, addr, w)
    requires addr < U64_SIZE && |mem| < MAX_LENGTH
    ensures Mirrors(LinearWrite(mem, base, addr, w, v), base, FlatWrite(f, addr, WidthBytes(w).value, v))
  {
    hide Digits;
    var n, off := WidthBytes(w).value, addr - base;
    forall k | 0 <= k < |mem|
      ensures Overlay(mem, off, Digits(v, n))[k] == FlatWrite(f, addr, n, v)(Nth(base, k))
    {
      OffsetInBuffer(base, addr, k);
    }
  }

  lemma OffsetInBuffer(base: nat, addr: nat, k: nat)
    requires base <= addr < U64_SIZE && k < MAX_LENGTH && addr - base < MAX_LENGTH
    ensures Wrap(Nth(base, k) - addr) == if k >= addr - base then k - (addr - base) else U64_SIZE + k - (addr - base)
  {
  }

  /**
   Linear memory agrees with flat memory on every access it admits, over every run, whatever its
   base: each admitted access answers what flat memory answers after the same admitted accesses,
   and each other one faults and changes nothing. (A base so high that the buffer goes past the
   top of the address space is no exception: the bytes go round.)
   */
  lemma {:induction false} LinearRefinesFlat(mem: seq<byte>, base: nat, f: Flat, ops: seq<Op>)
    requires Mirrors(mem, base, f) && |mem| < MAX_LENGTH
    requires forall i :: 0 <= i < |ops| ==> !ops[i].Touch? && OpFits(ops[i])
    ensures AdmittedAnswers(|mem|, base, ops, LinearAnswers(mem, base, ops)) ==
            FlatAnswers(f, Admitted(|mem|, base, ops))
    ensures forall i :: 0 <= i < |ops| && !Admits(|mem|, base, ops[i]) ==>
              LinearAnswers(mem, base, ops)[i] == Fault(OutOfBounds)
    decreases |ops|
  {
    if ops != [] {
      hide LinearRead, LinearWrite, FlatRead, FlatWrite, Mirrors, InBounds;
      var op, next, answers := ops[0], LinearStep(mem, base, ops[0]).0, LinearAnswers(mem, base, ops);
      assert answers[1..] == LinearAnswers(next, base, ops[1..]);
      if Admits(|mem|, base, op) {
        AdmittedStep(mem, base, f, op);
        LinearRefinesFlat(next, base, FlatStep(f, op).0, ops[1..]);
        assert ([op] + Admitted(|mem|, base, ops[1..]))[1..] == Admitted(|mem|, base, ops[1..]);
      } else {
        RefusedStep(mem, base, op);
        LinearRefinesFlat(next, base, f, ops[1..]);
      }
      forall i | 0 <= i < |ops| && !Admits(|mem|, base, ops[i])
        ensures answers[i] == Fault(OutOfBounds)
      {
        if i > 0 {
          assert answers[i] == answers[1..][i - 1] && ops[i] == ops[1..][i - 1];
        }
      }
    }
  }

  lemma AdmittedStep(mem: seq<byte>, base: nat, f: Flat, op: Op)
    requires Mirrors(mem, base, f) && |mem| < MAX_LENGTH && OpFits(op) && Admits(|mem|, base, op)
    ensures LinearStep(mem, base, op).1 == FlatStep(f, op).1
    ensures Mirrors(LinearStep(mem, base, op).0, base, FlatStep(f, op).0)
  {
    hide LinearRead, LinearWrite, FlatRead, FlatWrite, Mirrors;
    match op
    case Load(addr, w) => LinearLoad(mem, base, f, addr, w);
    case Store(addr, w, v) => LinearStore(mem, base, f, addr, w, v);
  }

  lemma RefusedStep(mem: seq<byte>, base: nat, op: Op)
    requires !op.Touch? && !Admits(|mem|, base, op)
    ensures LinearStep(mem, base, op) == (mem, Fault(OutOfBounds))
  {
  }

  /** So the two backends, both starting from zeros, cannot be told apart inside the buffer. */
  lemma BackendsAgree(size: nat, base: nat, ops: seq<Op>, states: seq<Pages>, paged: seq<Answer>)
    requires size < MAX_LENGTH
    requires forall i :: 0 <= i < |ops| ==> !ops[i].Touch? && OpFits(ops[i])
    requires PagedRun(states, Admitted(size, base, ops), paged) && states[0] == map[]
    ensures AdmittedAnswers(size, base, ops, LinearAnswers(Zeros(size), base, ops)) == paged
  {
    LinearRefinesFlat(Zeros(size), base, AllZeros(), ops);
    PagesRefineFlat(states, Admitted(size, base, ops), paged);
  }
}
