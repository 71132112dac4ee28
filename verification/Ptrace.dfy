/**
 * Suspending and resuming the threads of a process with ptrace, against a kernel that may
 * interrupt waits, deliver stray signals, and lose threads at any point.
 */
module Ptrace {
  import opened Bytes

  type Tid = int
  type Signal = nat

  const SIGSTOP: Signal := 19

  // ---- What the kernel answers ----

  /** An answer to a wait after which suspending goes on: an interrupt, or a signal that is passed on. */
  datatype Wait = Interrupted | Stray(signal: Signal)

  /** The answer that ends the waiting. */
  datatype Ending =
    | Stopped(sp: Option<nat>)                    // by SIGSTOP; the stack pointer, if registers can be read
    | ContinueFailed(signal: Signal, gone: bool)  // the signal could not be passed on
    | NotStopped(gone: bool)                      // another status, such as an exit
    | WaitFailed

  datatype DetachAnswer = Detached | NoSuchThread | Refused

  /** All answers one thread gives in a run; every wait loop that ends is one of these. */
  datatype Script =
    | AttachFails
    | Attaches(waits: seq<Wait>, ending: Ending, detach: DetachAnswer)
  {
    /** Stray stops are not SIGSTOP. */
    predicate Valid() {
      Attaches? ==>
        (forall i :: 0 <= i < |waits| && waits[i].Stray? ==> waits[i].signal != SIGSTOP)
        && (ending.ContinueFailed? ==> ending.signal != SIGSTOP)
    }
  }

  type Kernel = Tid -> Script

  // ---- What happens, as seen by the kernel ----

  datatype Event =
    | Attach(tid: Tid)
    | Stop(tid: Tid, signal: Signal)
    | Reinject(tid: Tid, signal: Signal)
    | Detach(tid: Tid)
    | Gone(tid: Tid)
    | StopProcess
    | ContinueProcess
  {
    predicate Of(t: Tid) { !StopProcess? && !ContinueProcess? && tid == t }
  }

  type Trace = seq<Event>

  function DetachTrace(t: Tid, a: DetachAnswer): Trace {
    match a
    case Detached => [Detach(t)]
    case NoSuchThread => [Gone(t)]
    case Refused => []
  }

  function WaitTrace(t: Tid, waits: seq<Wait>): Trace {
    if waits == [] then [] else
      var w := waits[|waits| - 1];
      WaitTrace(t, waits[..|waits| - 1]) + if w.Stray? then [Stop(t, w.signal), Reinject(t, w.signal)] else []
  }

  /** A stack pointer of zero, or registers that cannot be read, mark a sandbox thread. */
  predicate Skipped(sp: Option<nat>, x86: bool) {
    x86 && (sp.None? || sp.value == 0)
  }

  function EndTrace(t: Tid, s: Script, x86: bool): Trace
    requires s.Attaches?
  {
    match s.ending
    case Stopped(sp) => [Stop(t, SIGSTOP)] + if Skipped(sp, x86) then DetachTrace(t, s.detach) else []
    case ContinueFailed(sig, gone) => [Stop(t, sig)] + if gone then [Gone(t)] else []
    case NotStopped(gone) => if gone then [Gone(t)] else []
    case WaitFailed => DetachTrace(t, s.detach)
  }

  function SuspendTrace(t: Tid, s: Script, x86: bool): Trace {
    if s.AttachFails? then [] else [Attach(t)] + WaitTrace(t, s.waits) + EndTrace(t, s, x86)
  }

  /** The thread is suspended and stays in the list. */
  predicate IsKept(s: Script, x86: bool) {
    s.Attaches? && s.ending.Stopped? && !Skipped(s.ending.sp, x86)
  }

  function Kept(tids: seq<Tid>, k: Kernel, x86: bool): seq<Tid> {
    if tids == [] then [] else
      var t := tids[|tids| - 1];
      Kept(tids[..|tids| - 1], k, x86) + if IsKept(k(t), x86) then [t] else []
  }

  function SuspendAll(tids: seq<Tid>, k: Kernel, x86: bool): Trace {
    if tids == [] then [] else
      var t := tids[|tids| - 1];
      SuspendAll(tids[..|tids| - 1], k, x86) + SuspendTrace(t, k(t), x86)
  }

  lemma {:induction false} SuspendNext(tids: seq<Tid>, i: nat, k: Kernel, x86: bool)
    requires i < |tids|
    ensures SuspendAll(tids[..i + 1], k, x86) == SuspendAll(tids[..i], k, x86) + SuspendTrace(tids[i], k(tids[i]), x86)
    ensures Kept(tids[..i + 1], k, x86)
         == if IsKept(k(tids[i]), x86) then Kept(tids[..i], k, x86) + [tids[i]] else Kept(tids[..i], k, x86)
  {
    assert tids[..i + 1][..i] == tids[..i];
  }

  lemma {:induction false} Assoc(a: Trace, b: Trace, c: Trace)
    ensures (a + b) + c == a + (b + c)
  {
  }

  function DetachOf(s: Script): DetachAnswer {
    if s.Attaches? then s.detach else NoSuchThread
  }

  function ResumeAll(tids: seq<Tid>, k: Kernel): Trace {
    if tids == [] then [] else
      var t := tids[|tids| - 1];
      ResumeAll(tids[..|tids| - 1], k) + DetachTrace(t, DetachOf(k(t)))
  }

  predicate NoneRefused(tids: seq<Tid>, k: Kernel) {
    forall i :: 0 <= i < |tids| ==> !DetachOf(k(tids[i])).Refused?
  }

  // ---- The dumper ----

  class PtraceDumper {
    const kernel: Kernel
    const x86: bool
    var threads: seq<Tid>
    var threadsSuspended: bool
    var trace: Trace            // what was done so far

    constructor (kernel: Kernel, x86: bool, threads: seq<Tid>, stops: bool)
      ensures this.kernel == kernel && this.x86 == x86 && this.threads == threads && !threadsSuspended
      ensures trace == if stops then [StopProcess] else []
    {
      this.kernel, this.x86, this.threads, threadsSuspended := kernel, x86, threads, false;
      trace := if stops then [StopProcess] else [];
    }

    /** An answer that the thread does not exist is not an error. */
    method PtraceDetach(t: Tid) returns (ok: bool)
      modifies `trace
      ensures trace == old(trace) + DetachTrace(t, DetachOf(kernel(t)))
      ensures ok <==> !DetachOf(kernel(t)).Refused?
    {
      var a := DetachOf(kernel(t));
      trace := trace + DetachTrace(t, a);
      ok := a == Detached || a == NoSuchThread;
    }

    /** The wait loop, as long as it goes on: signals other than SIGSTOP are passed on. */
    method PassSignals(t: Tid, waits: seq<Wait>)
      modifies `trace
      ensures trace == old(trace) + WaitTrace(t, waits)
    {
      ghost var start := trace;
      for i := 0 to |waits|
        invariant trace == start + WaitTrace(t, waits[..i])
      {
        assert waits[..i + 1][..i] == waits[..i];
        match waits[i] {
          case Interrupted =>
          case Stray(signal) =>
            trace := trace + [Stop(t, signal)];
            trace := trace + [Reinject(t, signal)];
        }
      }
      assert waits[..|waits|] == waits;
    }

    /** The answer that ends the wait loop, and the check for sandbox threads behind it. */
    method EndWait(t: Tid, s: Script) returns (ok: bool)
      requires s == kernel(t) && s.Attaches?
      modifies `trace
      ensures trace == old(trace) + EndTrace(t, s, x86)
      ensures ok == IsKept(s, x86)
    {
      match s.ending {
        case Stopped(sp) =>
          trace := trace + [Stop(t, SIGSTOP)];
          ok := !(x86 && (sp.None? || sp.value == 0));
          if !ok {
            var _ := PtraceDetach(t);
          }
        case ContinueFailed(signal, gone) =>
          trace := trace + [Stop(t, signal)];
          if gone {
            trace := trace + [Gone(t)];
          }
          ok := false;
        case NotStopped(gone) =>
          if gone {
            trace := trace + [Gone(t)];
          }
          ok := false;
        case WaitFailed =>
          var _ := PtraceDetach(t);
          ok := false;
      }
    }

    method SuspendThread(t: Tid) returns (ok: bool)
      modifies `trace
      ensures trace == old(trace) + SuspendTrace(t, kernel(t), x86)
      ensures ok == IsKept(kernel(t), x86)
    {
      var s := kernel(t);
      if s.AttachFails? {
        return false;
      }
      trace := trace + [Attach(t)];
      PassSignals(t, s.waits);
      ok := EndWait(t, s);
      assert trace == old(trace) + ([Attach(t)] + WaitTrace(t, s.waits) + EndTrace(t, s, x86));
    }

    /** Tries to suspend each thread in turn. */
    method SuspendEach(tids: seq<Tid>) returns (kept: seq<Tid>)
      modifies `trace
      ensures kept == Kept(tids, kernel, x86)
      ensures trace == old(trace) + SuspendAll(tids, kernel, x86)
    {
      kept := [];
      ghost var start := trace;
      for i := 0 to |tids|
        invariant kept == Kept(tids[..i], kernel, x86)
        invariant trace == start + SuspendAll(tids[..i], kernel, x86)
      {
        kept := SuspendOne(tids, i, kept, start);
      }
      assert tids[..|tids|] == tids;
    }

    method SuspendOne(tids: seq<Tid>, i: nat, kept: seq<Tid>, ghost start: Trace) returns (kept': seq<Tid>)
      requires i < |tids| && kept == Kept(tids[..i], kernel, x86)
      requires trace == start + SuspendAll(tids[..i], kernel, x86)
      modifies `trace
      ensures kept' == Kept(tids[..i + 1], kernel, x86)
      ensures trace == start + SuspendAll(tids[..i + 1], kernel, x86)
    {
      SuspendNext(tids, i, kernel, x86);
      ghost var was := trace;
      var suspended := SuspendThread(tids[i]);
      Assoc(start, SuspendAll(tids[..i], kernel, x86), SuspendTrace(tids[i], kernel(tids[i]), x86));
      kept' := if suspended then kept + [tids[i]] else kept;
    }

    /** Keeps the threads that could be suspended. */
    method SuspendThreads() returns (ok: bool)
      modifies `trace, `threads, `threadsSuspended
      ensures threads == Kept(old(threads), kernel, x86)
      ensures trace == old(trace) + SuspendAll(old(threads), kernel, x86)
      ensures ok <==> threads != []
      ensures threadsSuspended == (ok || old(threadsSuspended))
    {
      threads := SuspendEach(threads);
      ok := threads != [];
      if ok {
        threadsSuspended := true;
      }
    }

    /** Detaches from every suspended thread, once. */
    method ResumeThreads() returns (ok: bool)
      modifies `trace, `threadsSuspended
      ensures trace == old(trace) + if old(threadsSuspended) then ResumeAll(threads, kernel) else []
      ensures !threadsSuspended
      ensures ok <==> !old(threadsSuspended) || NoneRefused(threads, kernel)
    {
      ok := true;
      ghost var start := trace;
      if threadsSuspended {
        for i := 0 to |threads|
          invariant trace == start + ResumeAll(threads[..i], kernel)
          invariant ok <==> forall j :: 0 <= j < i ==> !DetachOf(kernel(threads[j])).Refused?
        {
          assert threads[..i + 1][..i] == threads[..i];
          var detached := PtraceDetach(threads[i]);
          if !detached {
            ok := false;
          }
        }
        assert threads[..|threads|] == threads;
      }
      threadsSuspended := false;
    }

    /** Runs when the dumper goes out of scope, on every path. */
    method Drop()
      modifies `trace, `threadsSuspended
      ensures trace
           == old(trace) + (if old(threadsSuspended) then ResumeAll(threads, kernel) else []) + [ContinueProcess]
      ensures !threadsSuspended
    {
      var _ := ResumeThreads();
      trace := trace + [ContinueProcess];
    }
  }

  // ---- The life cycle of a dump ----

  /** Where a run of `dump` gives up, if at all. */
  datatype Plan = SameProcess | InitFails | LateInitFails | NotReferenced | GenerateFails | Completes

  /** Everything a run does to the process and its threads. */
  function RunTrace(plan: Plan, tids: seq<Tid>, k: Kernel, x86: bool, stops: bool): Trace {
    if plan.SameProcess? then [] else
      (if stops then [StopProcess] else [])
      + (if plan.InitFails? then [] else SuspendAll(tids, k, x86) + ResumeAll(Kept(tids, k, x86), k))
      + [ContinueProcess]
  }

  method Dump(plan: Plan, tids: seq<Tid>, k: Kernel, x86: bool, stops: bool) returns (ok: bool, trace: Trace)
    ensures trace == RunTrace(plan, tids, k, x86, stops)
    ensures ok <==> plan.Completes? && Kept(tids, k, x86) != [] && NoneRefused(Kept(tids, k, x86), k)
    ensures !plan.SameProcess? ==> trace != [] && trace[|trace| - 1] == ContinueProcess
  {
    if plan.SameProcess? {
      return false, [];
    }
    var dumper := new PtraceDumper(k, x86, tids, stops);
    ok := !plan.InitFails?;
    if ok {
      ok := Attached(dumper, plan);
      Assoc(if stops then [StopProcess] else [], SuspendAll(tids, k, x86), ResumeAll(Kept(tids, k, x86), k));
    }
    dumper.Drop();
    trace := dumper.trace;
  }

  /** The part of a run during which threads may be attached; what it leaves to do is done by the drop. */
  method Attached(dumper: PtraceDumper, plan: Plan) returns (ok: bool)
    requires !dumper.threadsSuspended
    modifies dumper
    ensures dumper.threads == Kept(old(dumper.threads), dumper.kernel, dumper.x86)
    ensures ok <==> plan.Completes? && dumper.threads != [] && NoneRefused(dumper.threads, dumper.kernel)
    ensures dumper.trace + (if dumper.threadsSuspended then ResumeAll(dumper.threads, dumper.kernel) else [])
         == old(dumper.trace) + SuspendAll(old(dumper.threads), dumper.kernel, dumper.x86)
            + ResumeAll(dumper.threads, dumper.kernel)
  {
    ok := dumper.SuspendThreads();
    if ok {
      ok := plan.Completes?;
      if ok {
        ok := dumper.ResumeThreads();
      }
    }
  }

  // ---- What a run leaves behind ----

  /** The events of one thread, in order. */
  function Project(trace: Trace, t: Tid): Trace {
    if trace == [] then [] else
      var e := trace[|trace| - 1];
      Project(trace[..|trace| - 1], t) + if e.Of(t) then [e] else []
  }

  lemma {:induction false} ProjectConcat(a: Trace, b: Trace, t: Tid)
    ensures Project(a + b, t) == Project(a, t) + Project(b, t)
  {
    if b == [] {
      assert a + b == a;
    } else {
      var front := b[..|b| - 1];
      assert (a + b)[..|a + b| - 1] == a + front;
      ProjectConcat(a, front, t);
    }
  }

  predicate AllOf(trace: Trace, t: Tid) {
    forall i :: 0 <= i < |trace| ==> trace[i].Of(t)
  }

  lemma {:induction false} ProjectOwn(trace: Trace, t: Tid, u: Tid)
    requires AllOf(trace, t)
    ensures Project(trace, u) == if t == u then trace else []
  {
    if trace != [] {
      ProjectOwn(trace[..|trace| - 1], t, u);
      assert trace == trace[..|trace| - 1] + [trace[|trace| - 1]];
    }
  }

  lemma {:induction false} WaitTraceIsOwn(t: Tid, waits: seq<Wait>)
    ensures AllOf(WaitTrace(t, waits), t)
  {
    if waits != [] {
      WaitTraceIsOwn(t, waits[..|waits| - 1]);
    }
  }

  lemma {:induction false} SuspendTraceIsOwn(t: Tid, s: Script, x86: bool)
    ensures AllOf(SuspendTrace(t, s, x86), t)
  {
    if s.Attaches? {
      WaitTraceIsOwn(t, s.waits);
    }
  }

  predicate Distinct(tids: seq<Tid>) {
    forall i, j :: 0 <= i < j < |tids| ==> tids[i] != tids[j]
  }

  lemma {:induction false} ProjectSuspend(tids: seq<Tid>, k: Kernel, x86: bool, t: Tid)
    requires Distinct(tids)
    ensures Project(SuspendAll(tids, k, x86), t) == if t in tids then SuspendTrace(t, k(t), x86) else []
  {
    if tids != [] {
      var front, u := tids[..|tids| - 1], tids[|tids| - 1];
      ProjectSuspend(front, k, x86, t);
      ProjectConcat(SuspendAll(front, k, x86), SuspendTrace(u, k(u), x86), t);
      SuspendTraceIsOwn(u, k(u), x86);
      ProjectOwn(SuspendTrace(u, k(u), x86), u, t);
    }
  }

  lemma {:induction false} DetachTraceIsOwn(t: Tid, a: DetachAnswer)
    ensures AllOf(DetachTrace(t, a), t)
  {
  }

  lemma {:induction false} ProjectResume(tids: seq<Tid>, k: Kernel, t: Tid)
    requires Distinct(tids)
    ensures Project(ResumeAll(tids, k), t) == if t in tids then DetachTrace(t, DetachOf(k(t))) else []
  {
    if tids != [] {
      var front, u := tids[..|tids| - 1], tids[|tids| - 1];
      var last := DetachTrace(u, DetachOf(k(u)));
      ProjectResume(front, k, t);
      ProjectConcat(ResumeAll(front, k), last, t);
      DetachTraceIsOwn(u, DetachOf(k(u)));
      ProjectOwn(last, u, t);
      assert t in tids <==> t in front || t == u;
    }
  }

  lemma {:induction false} KeptIsSubset(tids: seq<Tid>, k: Kernel, x86: bool)
    requires Distinct(tids)
    ensures Distinct(Kept(tids, k, x86))
    ensures forall t :: t in Kept(tids, k, x86) <==> t in tids && IsKept(k(t), x86)
  {
    if tids != [] {
      KeptIsSubset(tids[..|tids| - 1], k, x86);
    }
  }

  /** What a run does to thread t: it is suspended and, if that worked, detached. Nothing else. */
  function ThreadTrace(t: Tid, s: Script, x86: bool): Trace {
    SuspendTrace(t, s, x86) + if IsKept(s, x86) then DetachTrace(t, s.detach) else []
  }

  lemma {:induction false} ProjectBody(tids: seq<Tid>, k: Kernel, x86: bool, t: Tid)
    requires Distinct(tids)
    ensures Project(SuspendAll(tids, k, x86) + ResumeAll(Kept(tids, k, x86), k), t)
         == if t in tids then ThreadTrace(t, k(t), x86) else []
  {
    ProjectConcat(SuspendAll(tids, k, x86), ResumeAll(Kept(tids, k, x86), k), t);
    KeptIsSubset(tids, k, x86);
    ProjectSuspend(tids, k, x86, t);
    ProjectResume(Kept(tids, k, x86), k, t);
  }

  lemma {:induction false} ProjectFramed(body: Trace, stops: bool, t: Tid)
    ensures Project((if stops then [StopProcess] else []) + body + [ContinueProcess], t) == Project(body, t)
  {
    var head := if stops then [StopProcess] else [];
    ProjectConcat(head + body, [ContinueProcess], t);
    ProjectConcat(head, body, t);
    ProjectOther(StopProcess, t);
    ProjectOther(ContinueProcess, t);
    assert Project(head, t) == [];
  }

  lemma {:induction false} ProjectOther(e: Event, t: Tid)
    requires !e.Of(t)
    ensures Project([e], t) == []
  {
  }

  lemma {:induction false} RunOfThread(plan: Plan, tids: seq<Tid>, k: Kernel, x86: bool, stops: bool, t: Tid)
    requires Distinct(tids)
    ensures Project(RunTrace(plan, tids, k, x86, stops), t)
         == if !plan.SameProcess? && !plan.InitFails? && t in tids then ThreadTrace(t, k(t), x86) else []
  {
    if plan.InitFails? {
      ProjectFramed([], stops, t);
    } else if !plan.SameProcess? {
      ProjectFramed(SuspendAll(tids, k, x86) + ResumeAll(Kept(tids, k, x86), k), stops, t);
      ProjectBody(tids, k, x86, t);
    }
  }

  // ---- Attach and detach balance ----

  /** Whether the thread is traced after the events; None when they are not a legal history. */
  function Traced(trace: Trace, was: bool): Option<bool> {
    if trace == [] then Some(was) else
      var before := Traced(trace[..|trace| - 1], was);
      if before.None? then None else
        match trace[|trace| - 1]
        case Attach(_) => if before.value then None else Some(true)
        case Detach(_) => if before.value then Some(false) else None
        case Gone(_) => if before.value then Some(false) else None
        case _ => if before.value then before else None
  }

  lemma {:induction false} TracedConcat(a: Trace, b: Trace, was: bool)
    requires Traced(a, was).Some?
    ensures Traced(a + b, was) == Traced(b, Traced(a, was).value)
  {
    if b == [] {
      assert a + b == a;
    } else {
      assert (a + b)[..|a + b| - 1] == a + b[..|b| - 1];
      TracedConcat(a, b[..|b| - 1], was);
    }
  }

  lemma {:induction false} WaitsStayTraced(t: Tid, waits: seq<Wait>)
    ensures Traced(WaitTrace(t, waits), true) == Some(true)
  {
    if waits != [] {
      var front, w := waits[..|waits| - 1], waits[|waits| - 1];
      WaitsStayTraced(t, front);
      if w.Interrupted? {
        assert WaitTrace(t, waits) == WaitTrace(t, front);
      } else {
        TracedConcat(WaitTrace(t, front), [Stop(t, w.signal), Reinject(t, w.signal)], true);
        TracedConcat([Stop(t, w.signal)], [Reinject(t, w.signal)], true);
        assert [Stop(t, w.signal)] + [Reinject(t, w.signal)] == [Stop(t, w.signal), Reinject(t, w.signal)];
      }
    }
  }

  /** The ways to lose hold of a thread that is still there. */
  predicate Leaks(s: Script) {
    s.Attaches? &&
    match s.ending
    case Stopped(_) => s.detach.Refused?
    case WaitFailed => s.detach.Refused?
    case ContinueFailed(_, gone) => !gone
    case NotStopped(gone) => !gone
  }

  /** What follows the waiting: the end of the wait, and the detach of a kept thread. */
  function Aftermath(t: Tid, s: Script, x86: bool): Trace
    requires s.Attaches?
  {
    EndTrace(t, s, x86) + if IsKept(s, x86) then DetachTrace(t, s.detach) else []
  }

  lemma {:induction false} AftermathBalance(t: Tid, s: Script, x86: bool)
    requires s.Attaches?
    ensures Traced(Aftermath(t, s, x86), true) == Some(Leaks(s))
  {
    var rest := DetachTrace(t, s.detach);
    match s.ending {
      case Stopped(sp) =>
        assert Aftermath(t, s, x86) == [Stop(t, SIGSTOP)] + rest;
        TracedConcat([Stop(t, SIGSTOP)], rest, true);
      case ContinueFailed(sig, gone) =>
        TracedConcat([Stop(t, sig)], if gone then [Gone(t)] else [], true);
      case NotStopped(gone) =>
      case WaitFailed =>
    }
  }

  /**
   * Every thread's history is legal (attached once, detached at most once, never touched when it
   * is not traced), and it ends traced exactly when the kernel refused the detach, or kept alive a
   * thread it had reported as not stopped or not continuable.
   */
  lemma {:induction false} ThreadIsReleased(t: Tid, s: Script, x86: bool)
    ensures Traced(ThreadTrace(t, s, x86), false) == Some(Leaks(s))
  {
    if s.Attaches? {
      var a, w, e := [Attach(t)], WaitTrace(t, s.waits), Aftermath(t, s, x86);
      assert ThreadTrace(t, s, x86) == a + (w + e);
      TracedConcat(a, w + e, false);
      WaitsStayTraced(t, s.waits);
      TracedConcat(w, e, true);
      AftermathBalance(t, s, x86);
    }
  }

  /** Over every run, on every exit: no thread stays attached unless the kernel held on to it. */
  lemma {:induction false} NoThreadStaysAttached(plan: Plan, tids: seq<Tid>, k: Kernel, x86: bool, stops: bool,
                                                 t: Tid)
    requires Distinct(tids)
    ensures Traced(Project(RunTrace(plan, tids, k, x86, stops), t), false)
         == Some(!plan.SameProcess? && !plan.InitFails? && t in tids && Leaks(k(t)))
  {
    RunOfThread(plan, tids, k, x86, stops, t);
    ThreadIsReleased(t, k(t), x86);
  }

  /** A thread that exits its stop with another status and lives on stays attached after a complete run. */
  lemma {:induction false} LivingThreadLeaks()
    ensures var k := (t: Tid) => Attaches([], NotStopped(false), Detached);
            Traced(Project(RunTrace(Completes, [7], k, true, true), 7), false) == Some(true)
  {
    var k := (t: Tid) => Attaches([], NotStopped(false), Detached);
    NoThreadStaysAttached(Completes, [7], k, true, true, 7);
  }

  // ---- Which threads are kept ----

  /**
   * A thread stays in the list exactly when it was listed, its attach worked, SIGSTOP ended the
   * waiting, and on x86 its registers could be read and showed a stack pointer other than 0.
   */
  lemma {:induction false} KeptIff(tids: seq<Tid>, k: Kernel, x86: bool, t: Tid)
    ensures t in Kept(tids, k, x86)
       <==> t in tids && k(t).Attaches? && k(t).ending.Stopped?
            && (x86 ==> k(t).ending.sp.Some? && k(t).ending.sp.value != 0)
  {
    if tids != [] {
      KeptIff(tids[..|tids| - 1], k, x86, t);
    }
  }

  /** The kept threads are some of those listed, in the same order: kept thread i was number at[i]. */
  ghost predicate InOrder(kept: seq<Tid>, tids: seq<Tid>, at: seq<nat>) {
    |at| == |kept|
    && (forall i :: 0 <= i < |at| ==> at[i] < |tids| && kept[i] == tids[at[i]])
    && (forall i, j :: 0 <= i < j < |at| ==> at[i] < at[j])
  }

  lemma {:induction false} KeptInOrder(tids: seq<Tid>, k: Kernel, x86: bool) returns (at: seq<nat>)
    ensures InOrder(Kept(tids, k, x86), tids, at)
  {
    at := [];
    if tids != [] {
      var n := |tids| - 1;
      at := KeptInOrder(tids[..n], k, x86);
      if IsKept(k(tids[n]), x86) {
        at := at + [n];
      }
    }
  }

  /** Until the resume, a kept thread is attached, has its signals passed on, and is stopped by SIGSTOP. */
  lemma {:induction false} KeptThreadIsHeld(tids: seq<Tid>, k: Kernel, x86: bool, t: Tid)
    requires Distinct(tids) && t in Kept(tids, k, x86)
    ensures k(t).Attaches?
    ensures Project(SuspendAll(tids, k, x86), t) == [Attach(t)] + WaitTrace(t, k(t).waits) + [Stop(t, SIGSTOP)]
    ensures Detach(t) !in SuspendAll(tids, k, x86)
  {
    KeptIff(tids, k, x86, t);
    ProjectSuspend(tids, k, x86, t);
    WaitsDoNotDetach(t, k(t).waits);
    ProjectHas(SuspendAll(tids, k, x86), t, Detach(t));
  }

  lemma {:induction false} ProjectHas(trace: Trace, t: Tid, e: Event)
    requires e.Of(t)
    ensures e in trace <==> e in Project(trace, t)
  {
    if trace != [] {
      ProjectHas(trace[..|trace| - 1], t, e);
      assert trace == trace[..|trace| - 1] + [trace[|trace| - 1]];
    }
  }

  /** A thread of the sandbox is detached from as soon as it has stopped. */
  lemma {:induction false} SandboxThreadIsLetGo(tids: seq<Tid>, k: Kernel, t: Tid)
    requires Distinct(tids) && t in tids && k(t).Attaches? && k(t).detach.Detached?
    requires k(t).ending == Stopped(None) || k(t).ending == Stopped(Some(0))
    ensures t !in Kept(tids, k, true)
    ensures Project(SuspendAll(tids, k, true), t)
         == [Attach(t)] + WaitTrace(t, k(t).waits) + [Stop(t, SIGSTOP), Detach(t)]
  {
    KeptIff(tids, k, true, t);
    ProjectSuspend(tids, k, true, t);
  }

  // ---- Detached at most once ----

  lemma {:induction false} WaitsDoNotDetach(t: Tid, waits: seq<Wait>)
    ensures multiset(WaitTrace(t, waits))[Detach(t)] == 0 && multiset(WaitTrace(t, waits))[Attach(t)] == 0
  {
    if waits != [] {
      WaitsDoNotDetach(t, waits[..|waits| - 1]);
    }
  }

  lemma {:induction false} DetachTraceCount(t: Tid, a: DetachAnswer)
    ensures multiset(DetachTrace(t, a))[Attach(t)] == 0
    ensures multiset(DetachTrace(t, a))[Detach(t)] == if a.Detached? then 1 else 0
  {
  }

  /** The history of a kept thread: attach, signals passed on, the stop, the detach. */
  lemma {:induction false} KeptThreadTrace(t: Tid, s: Script, x86: bool)
    requires IsKept(s, x86)
    ensures ThreadTrace(t, s, x86)
         == [Attach(t)] + WaitTrace(t, s.waits) + [Stop(t, SIGSTOP)] + DetachTrace(t, s.detach)
  {
  }

  lemma {:induction false} KeptThreadCounts(t: Tid, s: Script, x86: bool)
    requires IsKept(s, x86)
    ensures multiset(ThreadTrace(t, s, x86))[Attach(t)] == 1
    ensures multiset(ThreadTrace(t, s, x86))[Detach(t)] == if s.detach.Detached? then 1 else 0
  {
    KeptThreadTrace(t, s, x86);
    WaitsDoNotDetach(t, s.waits);
    DetachTraceCount(t, s.detach);
    CountInFour([Attach(t)], WaitTrace(t, s.waits), [Stop(t, SIGSTOP)], DetachTrace(t, s.detach), Attach(t));
    CountInFour([Attach(t)], WaitTrace(t, s.waits), [Stop(t, SIGSTOP)], DetachTrace(t, s.detach), Detach(t));
  }

  lemma {:induction false} CountInFour(a: Trace, b: Trace, c: Trace, d: Trace, e: Event)
    ensures multiset(a + b + c + d)[e] == multiset(a)[e] + multiset(b)[e] + multiset(c)[e] + multiset(d)[e]
  {
  }

  /** A kept thread is attached once and detached once, by the explicit resume or else by the drop. */
  lemma {:induction false} KeptThreadDetachedOnce(plan: Plan, tids: seq<Tid>, k: Kernel, x86: bool, stops: bool,
                                                  t: Tid)
    requires Distinct(tids) && !plan.SameProcess? && !plan.InitFails?
    requires t in tids && IsKept(k(t), x86)
    ensures var events := multiset(Project(RunTrace(plan, tids, k, x86, stops), t));
            events[Attach(t)] == 1 && events[Detach(t)] == if k(t).detach.Detached? then 1 else 0
  {
    RunOfThread(plan, tids, k, x86, stops, t);
    KeptThreadCounts(t, k(t), x86);
  }

  // ---- Signals are passed on ----

  /** The signals other than SIGSTOP that stops consumed, or (`back`) that were passed on, in order. */
  function Signals(trace: Trace, back: bool): seq<Signal> {
    if trace == [] then [] else
      var e := trace[|trace| - 1];
      Signals(trace[..|trace| - 1], back)
      + match e
        case Stop(_, s) => if !back && s != SIGSTOP then [s] else []
        case Reinject(_, s) => if back then [s] else []
        case _ => []
  }

  lemma {:induction false} SignalsConcat(a: Trace, b: Trace, back: bool)
    ensures Signals(a + b, back) == Signals(a, back) + Signals(b, back)
  {
    if b == [] {
      assert a + b == a;
    } else {
      assert (a + b)[..|a + b| - 1] == a + b[..|b| - 1];
      SignalsConcat(a, b[..|b| - 1], back);
    }
  }

  lemma {:induction false} OneSignal(e: Event, back: bool)
    ensures Signals([e], back) == match e
                                  case Stop(_, s) => if !back && s != SIGSTOP then [s] else []
                                  case Reinject(_, s) => if back then [s] else []
                                  case _ => []
  {
  }

  lemma {:induction false} WaitsPassSignals(t: Tid, waits: seq<Wait>)
    requires forall i :: 0 <= i < |waits| && waits[i].Stray? ==> waits[i].signal != SIGSTOP
    ensures Signals(WaitTrace(t, waits), false) == Signals(WaitTrace(t, waits), true)
  {
    if waits != [] {
      var front, w := waits[..|waits| - 1], waits[|waits| - 1];
      WaitsPassSignals(t, front);
      if w.Interrupted? {
        assert WaitTrace(t, waits) == WaitTrace(t, front);
      } else {
        var a, b := [Stop(t, w.signal)], [Reinject(t, w.signal)];
        assert a + b == [Stop(t, w.signal), Reinject(t, w.signal)];
        forall back ensures Signals(WaitTrace(t, waits), back) == Signals(WaitTrace(t, front), back) + [w.signal] {
          SignalsConcat(WaitTrace(t, front), a + b, back);
          SignalsConcat(a, b, back);
          OneSignal(a[0], back);
          OneSignal(b[0], back);
        }
      }
    }
  }

  lemma {:induction false} DetachHasNoSignals(t: Tid, a: DetachAnswer, back: bool)
    ensures Signals(DetachTrace(t, a), back) == []
  {
  }

  lemma {:induction false} AftermathSignals(t: Tid, s: Script, x86: bool, back: bool)
    requires s.Attaches? && s.Valid()
    ensures Signals(Aftermath(t, s, x86), back) == if s.ending.ContinueFailed? && !back then [s.ending.signal] else []
  {
    DetachHasNoSignals(t, s.detach, back);
    match s.ending {
      case Stopped(sp) =>
        assert Aftermath(t, s, x86) == [Stop(t, SIGSTOP)] + DetachTrace(t, s.detach);
        SignalsConcat([Stop(t, SIGSTOP)], DetachTrace(t, s.detach), back);
        OneSignal(Stop(t, SIGSTOP), back);
      case ContinueFailed(sig, gone) =>
        assert Aftermath(t, s, x86) == [Stop(t, sig)] + if gone then [Gone(t)] else [];
        SignalsConcat([Stop(t, sig)], if gone then [Gone(t)] else [], back);
        OneSignal(Stop(t, sig), back);
        OneSignal(Gone(t), back);
      case NotStopped(gone) =>
        OneSignal(Gone(t), back);
      case WaitFailed =>
    }
  }

  lemma {:induction false} ThreadSplit(t: Tid, s: Script, x86: bool)
    requires s.Attaches?
    ensures ThreadTrace(t, s, x86) == [Attach(t)] + (WaitTrace(t, s.waits) + Aftermath(t, s, x86))
  {
  }

  lemma {:induction false} ThreadSignals(t: Tid, s: Script, x86: bool, back: bool)
    requires s.Attaches? && s.Valid()
    ensures Signals(ThreadTrace(t, s, x86), back)
         == Signals(WaitTrace(t, s.waits), back) + if s.ending.ContinueFailed? && !back then [s.ending.signal] else []
  {
    var a, w, e := [Attach(t)], WaitTrace(t, s.waits), Aftermath(t, s, x86);
    ThreadSplit(t, s, x86);
    SignalsConcat(a, w + e, back);
    SignalsConcat(w, e, back);
    OneSignal(Attach(t), back);
    AftermathSignals(t, s, x86, back);
  }

  /** The signal of a thread that could not be continued: taken, and not passed on. */
  function Lost(s: Script): seq<Signal> {
    if s.Attaches? && s.ending.ContinueFailed? then [s.ending.signal] else []
  }

  lemma {:induction false} ThreadSignalsConserved(t: Tid, s: Script, x86: bool)
    requires s.Valid()
    ensures Signals(ThreadTrace(t, s, x86), false) == Signals(ThreadTrace(t, s, x86), true) + Lost(s)
  {
    if s.Attaches? {
      ThreadSignals(t, s, x86, false);
      ThreadSignals(t, s, x86, true);
      WaitsPassSignals(t, s.waits);
    }
  }

  /** The signals that come in between, in order. */
  function Strays(waits: seq<Wait>): seq<Signal> {
    if waits == [] then []
    else if waits[0].Stray? then [waits[0].signal] + Strays(waits[1..])
    else Strays(waits[1..])
  }

  lemma {:induction false} StraysSnoc(waits: seq<Wait>, w: Wait)
    ensures Strays(waits + [w]) == Strays(waits) + if w.Stray? then [w.signal] else []
  {
    if waits == [] {
      assert waits + [w] == [w];
    } else {
      assert (waits + [w])[1..] == waits[1..] + [w];
      StraysSnoc(waits[1..], w);
    }
  }

  lemma {:induction false} WaitsPassStrays(t: Tid, waits: seq<Wait>)
    ensures Signals(WaitTrace(t, waits), true) == Strays(waits)
  {
    if waits != [] {
      var front, w := waits[..|waits| - 1], waits[|waits| - 1];
      WaitsPassStrays(t, front);
      StraysSnoc(front, w);
      assert waits == front + [w];
      if w.Stray? {
        SignalsConcat(WaitTrace(t, front), [Stop(t, w.signal), Reinject(t, w.signal)], true);
        SignalsConcat([Stop(t, w.signal)], [Reinject(t, w.signal)], true);
        assert [Stop(t, w.signal)] + [Reinject(t, w.signal)] == [Stop(t, w.signal), Reinject(t, w.signal)];
        OneSignal(Stop(t, w.signal), true);
        OneSignal(Reinject(t, w.signal), true);
      } else {
        assert WaitTrace(t, waits) == WaitTrace(t, front);
      }
    }
  }

  /** Each signal that comes in while a thread is suspended is passed on to it, in order. */
  lemma {:induction false} StraysArePassedOn(plan: Plan, tids: seq<Tid>, k: Kernel, x86: bool, stops: bool, t: Tid)
    requires Distinct(tids) && !plan.SameProcess? && !plan.InitFails?
    requires t in tids && k(t).Attaches? && k(t).Valid()
    ensures Signals(Project(RunTrace(plan, tids, k, x86, stops), t), true) == Strays(k(t).waits)
  {
    RunOfThread(plan, tids, k, x86, stops, t);
    ThreadSignals(t, k(t), x86, true);
    WaitsPassStrays(t, k(t).waits);
  }

  /**
   * Over every run, the signals other than SIGSTOP that a thread's stops consumed are exactly those
   * passed on to it, in order; only a signal whose continue failed is lost, with the thread.
   */
  lemma {:induction false} SignalsAreConserved(plan: Plan, tids: seq<Tid>, k: Kernel, x86: bool, stops: bool, t: Tid)
    requires Distinct(tids) && k(t).Valid()
    ensures var events := Project(RunTrace(plan, tids, k, x86, stops), t);
            Signals(events, false) == Signals(events, true) + if events == [] then [] else Lost(k(t))
  {
    RunOfThread(plan, tids, k, x86, stops, t);
    ThreadSignalsConserved(t, k(t), x86);
  }
}
