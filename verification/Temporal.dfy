/** Properties of runs over time: a caller stays open to its answer, a runnable thread waits for a
    bounded number of schedules, and when the idle context runs. */
module Temporal {
  import opened Words
  import opened Capabilities
  import opened Threads
  import opened Ipc
  import opened Trap
  import opened KernelInvariants
  import opened KernelRuns
  import opened StepEffects

  // ---- the reply window ----

  /** Thread a sends, and the send passes its check. */
  predicate SendsTo(k: Kernel, e: Event, a: nat, b: int)
    requires Shape(k) && Slot(a)
  {
    k.current == a && e.Syscall? && e.call.CallSend? && e.call.dest == b && SendAllowed(k, a, b)
  }

  /** Thread a's SYS_RECV returns a message from b. */
  predicate HearsFrom(k: Kernel, e: Event, a: nat, b: int)
    requires Shape(k) && Enabled(k, e)
  {
    var note := Step(k, e).note;
    k.current == a && NoteReceives(note) && ReceiveKind(k, e).AfterRecv? && NoteFrom(note, b)
  }

  /** The step ends the window in which b may answer a: a hears from b, or sends to another. */
  ghost predicate EndsWindow(k: Kernel, e: Event, a: nat, b: nat)
    requires Shape(k) && Enabled(k, e) && Slot(a)
  {
    HearsFrom(k, e, a, b) || (exists c: int | c != b :: SendsTo(k, e, a, c))
  }

  predicate Alive(t: Thread) {
    !t.state.Unused? && !t.state.Dead?
  }

  predicate Open(k: Kernel, a: nat, b: nat)
    requires Shape(k) && Slot(a)
  {
    k.threads[a].callTo == b
  }

  lemma OpenAllows(k: Kernel, a: nat, b: nat)
    requires Shape(k) && Inv(k) && Slot(a) && Slot(b) && Open(k, a, b)
    ensures SendAllowed(k, b, a)
  {
    assert ThreadOk(k.threads[b], b);
  }

  /** While a lives, its call to b is open after a step exactly if it was open and the step does not
      end it, or the step is a send to b. */
  lemma WindowStep(k: Kernel, e: Event, a: nat, b: nat)
    requires Shape(k) && Inv(k) && Enabled(k, e) && Slot(a) && Slot(b) && Alive(k.threads[a])
    ensures Open(Step(k, e).k, a, b) <==> (Open(k, a, b) && !EndsWindow(k, e, a, b)) || SendsTo(k, e, a, b)
  {
    CallToStep(k, e, a);
    AliveNotCreated(k, e, a);
    if k.current == a && e.Syscall? && e.call.CallSend? && SendAllowed(k, a, e.call.dest) {
      assert SendsTo(k, e, a, e.call.dest);
      SendReceivesNothing(k, e);
    }
  }

  lemma AliveNotCreated(k: Kernel, e: Event, a: nat)
    requires Shape(k) && Enabled(k, e) && Slot(a) && Alive(k.threads[a])
    ensures Step(k, e).note != Created(a)
  {
    if !Grants(e) {
      OtherStepsGrantNothing(k, e);
    }
  }

  lemma SendReceivesNothing(k: Kernel, e: Event)
    requires Shape(k) && Enabled(k, e) && e.Syscall? && e.call.CallSend?
    ensures !NoteReceives(Step(k, e).note)
  {
  }

  /** Step m leaves a's window to b open: a lives, and neither hears from b nor sends to another. */
  ghost predicate LeavesWindow(ss: seq<System>, es: seq<Event>, m: nat, a: nat, b: nat)
    requires Behavior(ss, es) && m < |es| && Slot(a)
  {
    var k, e := ss[m].k, es[m];
    Alive(k.threads[a]) && !EndsWindow(k, e, a, b)
  }

  lemma WindowAt(ss: seq<System>, es: seq<Event>, m: nat, a: nat, b: nat)
    requires Behavior(ss, es) && m < |es| && Slot(a) && Slot(b) && WellShaped(ss[m]) && WellShaped(ss[m + 1])
    requires SendsTo(ss[m].k, es[m], a, b) || (Open(ss[m].k, a, b) && LeavesWindow(ss, es, m, a, b))
    ensures Open(ss[m + 1].k, a, b)
  {
    Always(ss, es, m);
    assert ss[m + 1] == Next(ss[m], es[m]);
    if SendsTo(ss[m].k, es[m], a, b) {
      assert ThreadOk(ss[m].k.threads[a], a);
    }
    WindowStep(ss[m].k, es[m], a, b);
  }

  /** Once a's SYS_SEND to b has passed its check, and while a lives, has not heard from b and has
      not sent to another, b may send to a, whatever else happens. */
  lemma {:induction false} ReplyWindow(ss: seq<System>, es: seq<Event>, i: nat, j: nat, a: nat, b: nat)
    requires Behavior(ss, es) && i < j < |ss| && Slot(a) && Slot(b)
    requires WellShaped(ss[i]) && SendsTo(ss[i].k, es[i], a, b)
    requires forall m: nat | i < m < j :: LeavesWindow(ss, es, m, a, b)
    ensures WellShaped(ss[j]) && Open(ss[j].k, a, b) && SendAllowed(ss[j].k, b, a)
    decreases j
  {
    var m := j - 1;
    if m > i {
      ReplyWindow(ss, es, i, m, a, b);
      assert LeavesWindow(ss, es, m, a, b);
    }
    Always(ss, es, j);
    WindowAt(ss, es, m, a, b);
    OpenAllows(ss[j].k, a, b);
  }

  predicate InFault(t: Thread) {
    t.resume.FaultSend? || t.resume.FaultCall? || t.resume.FaultRecv?
  }

  /** Thread f, in a page fault, is blocked receiving the verdict of p. */
  predicate AwaitsVerdict(t: Thread, p: int) {
    t.state.Blocked? && t.resume.FaultRecv? && t.peer == p
  }

  /** A page fault opens no such window. Pager p may answer exactly if it or the faulting thread is
      thread 0, or it holds the endpoint, or has a call of the thread's open from before, or the
      thread is blocked receiving its verdict: not yet in its receive, or woken from it by an
      interrupt, is too early or too late. The answer reaches the thread exactly if it is also
      blocked in that receive, or in one from anybody; an answer that is allowed but does not find
      it there blocks the pager. */
  lemma VerdictExactly(k: Kernel, p: nat, f: nat, msg: Msg, stale: Word)
    requires Shape(k) && Inv(k) && Slot(f) && k.current == p && k.threads[p].resume.ToUser? && InFault(k.threads[f])
    ensures var note := Step(k, Syscall(CallSend(f, msg), stale)).note;
      && (SendAllowed(k, p, f) <==> p == 0 || f == 0 || Holds(k, p, f) || Open(k, f, p) || AwaitsVerdict(k.threads[f], p))
      && (note == Refused <==> !SendAllowed(k, p, f))
      && (note == Delivered(f, msg) <==> SendAllowed(k, p, f) && ReceiverReady(k.threads[f], p))
      && (note == Staged(f, msg) <==> SendAllowed(k, p, f) && !ReceiverReady(k.threads[f], p))
  {
    assert ThreadOk(k.threads[p], p) && ThreadOk(k.threads[f], f);
  }

  // ---- bounded waiting ----

  /** Thread i's step closer to running: it is dispatched, or it still waits and, if schedule() was
      called, is nearer in cyclic order to the thread that runs. The idle context counts as -1. */
  ghost predicate Nearer(k: Kernel, o: Outcome, i: nat)
    requires Shape(k) && Shape(o.k) && Slot(i)
  {
    || o.k.current == i
    || (&& o.k.threads[i].state.Runnable?
        && if o.yielded then Distance(o.k.current + 1, i) < Distance(k.current + 1, i) else o.k.current == k.current)
  }

  ghost predicate Waiting(k: Kernel, i: nat)
    requires Shape(k)
  {
    Slot(i) && i != k.current && k.threads[i].state.Runnable?
  }

  lemma FinishNearer(k: Kernel, self: nat, later: Resume, from: int, verdict: Word, i: nat)
    requires Shape(k) && Slot(self) && self == k.current && Waiting(k, i)
    ensures var r := Finish(k, self, later, from, verdict);
      Nearer(k, Outcome(r.0, Quiet, r.1), i)
  {
    if !later.AfterRecv? && verdict != 0 {
      ScheduleComesNearer(Put(k, self, Killed(k.threads[self])), i);
    }
  }

  lemma SendNearer(k: Kernel, self: nat, dest: int, msg: Msg, later: Resume, now: Resume, i: nat)
    requires Shape(k) && Slot(self) && self == k.current && Waiting(k, i)
    ensures Nearer(k, Send(k, self, dest, msg, later, now), i)
  {
    if Addressable(k, dest) && !ReceiverReady(k.threads[dest], k.threads[self].id) {
      ScheduleComesNearer(Put(k, self, StagedOn(k.threads[self], dest, msg, later)), i);
    }
  }

  lemma ReceiveNearer(k: Kernel, self: nat, src: int, later: Resume, stale: Word, i: nat)
    requires Shape(k) && Slot(self) && self == k.current && Waiting(k, i)
    ensures Nearer(k, Receive(k, self, src, later, stale), i)
  {
    var me := k.threads[self];
    var s := FindSender(k.threads, me.id, src, 0);
    if me.irqPending > 0 {
      FinishNearer(Put(k, self, LessIrq(me)), self, later, IRQ_SENDER, stale, i);
    } else if s < MAX_THREADS {
      FinishNearer(Put(k, s, Released(k.threads[s])), self, later, k.threads[s].id, k.threads[s].buf.data0, i);
    } else {
      ScheduleComesNearer(Put(k, self, WaitingFor(me, src, later)), i);
    }
  }

  lemma ContinueNearer(k: Kernel, self: nat, stale: Word, i: nat)
    requires Shape(k) && Slot(self) && self == k.current && Waiting(k, i)
    ensures Nearer(k, Continue(k, self, stale), i)
  {
    var me := k.threads[self];
    match me.resume
    case FaultCall => ReceiveNearer(k, self, k.pager, FaultRecv, stale, i);
    case AfterRecv => WokenNearer(k, self, stale, i);
    case FaultRecv => WokenNearer(k, self, stale, i);
    case _ =>
  }

  lemma WokenNearer(k: Kernel, self: nat, stale: Word, i: nat)
    requires Shape(k) && Slot(self) && self == k.current && Waiting(k, i) && InRecv(k.threads[self].resume)
    ensures Nearer(k, Continue(k, self, stale), i)
  {
    var me := k.threads[self];
    if me.ipcState.Receiving? {
      FinishNearer(Put(k, self, LessIrq(OutOfIpc(me))), self, me.resume, IRQ_SENDER, stale, i);
    } else {
      FinishNearer(Put(k, self, OutOfIpc(me)), self, me.resume, me.source, me.buf.data0, i);
    }
  }

  lemma SyscallNearer(k: Kernel, self: nat, call: Call, stale: Word, i: nat)
    requires Shape(k) && Inv(k) && Slot(self) && self == k.current && Waiting(k, i)
    ensures Nearer(k, DoSyscall(k, self, call, stale), i)
  {
    match call
    case CallSend(dest, msg) =>
      if SendAllowed(k, self, dest) {
        SendNearer(Put(k, self, k.threads[self].(callTo := dest)), self, dest, msg, AfterSend, ToUser, i);
      }
    case CallRecv(src) => ReceiveNearer(k, self, src, AfterRecv, stale, i);
    case CallExit => ScheduleComesNearer(Put(k, self, k.threads[self].(state := Dead)), i);
    case CallSpawn(prog) => OnlyStays(k, DoSpawn(k, self, prog), i);
    case _ => OnlyStays(k, DoSyscall(k, self, call, stale), i);
  }

  /** A step that does not call schedule() and leaves thread i runnable. */
  lemma OnlyStays(k: Kernel, o: Outcome, i: nat)
    requires Shape(k) && Shape(o.k) && Slot(i) && !o.yielded && o.k.current == k.current
    requires o.k.threads[i].state.Runnable?
    ensures Nearer(k, o, i)
  {
  }

  lemma StepNearer(k: Kernel, e: Event, i: nat)
    requires Shape(k) && Inv(k) && Enabled(k, e) && Waiting(k, i)
    ensures Nearer(k, Step(k, e), i)
  {
    var self := k.current;
    match e
    case Syscall(call, stale) => SyscallNearer(k, self, call, stale, i);
    case Tick => ScheduleComesNearer(k, i);
    case Irq(irq) => OnlyStays(k, DoIrq(k, irq), i);
    case Fault(addr) =>
      var id := k.threads[self].id;
      SendNearer(k, self, k.pager, Msg(MSG_FAULT, if id < 0 then 0 else id % TWO_64, addr, 0), FaultSend, FaultCall, i);
    case GoOn(stale) => ContinueNearer(k, self, stale, i);
  }

  function Yielded(s: System, e: Event): nat
    requires WellShaped(s) && Enabled(s.k, e)
  {
    if Step(s.k, e).yielded then 1 else 0
  }

  /** How many of the steps from lo up to hi called schedule(). */
  ghost function Schedules(ss: seq<System>, es: seq<Event>, lo: nat, hi: nat): nat
    requires Behavior(ss, es) && lo <= hi < |ss|
    decreases hi
  {
    if lo == hi then 0
    else Schedules(ss, es, lo, hi - 1) + Yielded(ss[hi - 1], es[hi - 1])
  }

  /** How far thread i is from its turn. */
  ghost function Ahead(k: Kernel, i: nat): nat
    requires Shape(k)
  {
    Distance(k.current + 1, i)
  }

  lemma ShrinkStep(s: System, e: Event, t: nat)
    requires SystemInv(s) && Enabled(s.k, e) && Waiting(s.k, t) && Next(s, e).k.current != t
    ensures Waiting(Next(s, e).k, t)
    ensures Yielded(s, e) + Ahead(Next(s, e).k, t) <= Ahead(s.k, t)
  {
    StepNearer(s.k, e, t);
  }

  lemma ShrinkAt(ss: seq<System>, es: seq<Event>, m: nat, t: nat)
    requires Behavior(ss, es) && m < |es| && WellShaped(ss[m]) && Waiting(ss[m].k, t) && ss[m + 1].k.current != t
    ensures WellShaped(ss[m + 1]) && Waiting(ss[m + 1].k, t)
    ensures Yielded(ss[m], es[m]) + Ahead(ss[m + 1].k, t) <= Ahead(ss[m].k, t)
  {
    Always(ss, es, m);
    assert ss[m + 1] == Next(ss[m], es[m]);
    ShrinkStep(ss[m], es[m], t);
  }

  lemma {:induction false} DistanceShrinks(ss: seq<System>, es: seq<Event>, lo: nat, hi: nat, t: nat)
    requires Behavior(ss, es) && lo <= hi < |ss| && Slot(t)
    requires WellShaped(ss[lo]) && Waiting(ss[lo].k, t)
    requires forall m: nat | lo < m <= hi :: ss[m].k.current != t
    ensures WellShaped(ss[hi]) && Waiting(ss[hi].k, t)
    ensures Schedules(ss, es, lo, hi) + Ahead(ss[hi].k, t) <= Ahead(ss[lo].k, t)
    decreases hi
  {
    if lo == hi {
    } else {
      DistanceShrinks(ss, es, lo, hi - 1, t);
      ShrinkAt(ss, es, hi - 1, t);
    }
  }

  /** A runnable thread is dispatched within sixteen calls of schedule(), whatever other threads
      block, wake, exit or are created meanwhile. */
  lemma BoundedWaiting(ss: seq<System>, es: seq<Event>, lo: nat, hi: nat, t: nat)
    requires Behavior(ss, es) && lo <= hi < |ss| && Slot(t)
    requires WellShaped(ss[lo]) && Waiting(ss[lo].k, t) && Schedules(ss, es, lo, hi) >= MAX_THREADS
    ensures exists m: nat | lo < m <= hi :: ss[m].k.current == t
  {
    if forall m: nat | lo < m <= hi :: ss[m].k.current != t {
      DistanceShrinks(ss, es, lo, hi, t);
    }
  }

  // ---- the idle context ----

  lemma NoneFound(ts: seq<Thread>, start: nat)
    requires |ts| == MAX_THREADS && start <= MAX_THREADS
    ensures FindRunnable(ts, start, 0) == -1 <==> forall i | Slot(i) :: !ts[i].state.Runnable?
  {
    FindsNearest(ts, start, 0);
    if i :| Slot(i) && ts[i].state.Runnable? {
      assert Distance(start, i) >= 0;
    }
  }

  lemma ScheduleRuns(k: Kernel)
    requires Shape(k)
    ensures Schedule(k).current == FindRunnable(k.threads, k.current + 1, 0)
  {
  }

  /** schedule() turns to the idle context exactly when no thread is runnable on entry, and a thread
      that is still running does not count as one. */
  lemma IdleExactly(k: Kernel)
    requires Shape(k) && Inv(k)
    ensures Schedule(k).current == IDLE <==> forall i | Slot(i) :: !k.threads[i].state.Runnable?
  {
    NoneFound(k.threads, k.current + 1);
    ScheduleRuns(k);
  }

  /** From the idle context, schedule() runs the only runnable thread. */
  lemma SoleRunnable(k: Kernel, i: nat)
    requires Shape(k) && k.current == IDLE && Slot(i)
    requires forall j | Slot(j) :: k.threads[j].state.Runnable? <==> j == i
    ensures Schedule(k) == Kernel(k.threads[i := k.threads[i].(state := Running)], i, k.pager, k.irqTid)
  {
    FindsNearest(k.threads, 0, 0);
    assert Distance(0, i) >= 0;
  }

  /** So when one thread runs and no other can, a tick idles the machine, and the next tick runs that
      thread again, unchanged. */
  lemma SoleThreadIdles(k: Kernel)
    requires Shape(k) && Inv(k) && k.current != IDLE && k.threads[k.current].resume.ToUser?
    requires forall i | Slot(i) :: !k.threads[i].state.Runnable?
    ensures var k1 := Step(k, Tick).k;
      k1.current == IDLE && Enabled(k1, Tick) && Step(k1, Tick).k == k
  {
    var c := k.current;
    IdleExactly(k);
    var k1 := Schedule(k);
    assert k1 == Kernel(k.threads[c := k.threads[c].(state := Runnable)], IDLE, k.pager, k.irqTid);
    SoleRunnable(k1, c);
    assert Schedule(k1).threads == k.threads;
  }
}
