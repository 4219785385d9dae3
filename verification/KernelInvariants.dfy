/** What every step of the kernel keeps: thread states and message states fit together, no sender
    and receiver wait past each other, and nobody sleeps on a pending interrupt. */
module KernelInvariants {
  import opened Words
  import opened Capabilities
  import opened Threads
  import opened Ipc
  import opened Trap

  predicate InSend(r: Resume) { r.AfterSend? || r.FaultSend? }
  predicate InRecv(r: Resume) { r.AfterRecv? || r.FaultRecv? }

  /** A thread's scheduling state, message state and place in the kernel agree. */
  ghost predicate ThreadOk(t: Thread, i: int) {
    && t.id == i && TableOk(t.caps)
    && match t.state
       case Unused => t.ipcState.NoIpc? && t.resume.ToUser?
       case Dead => t.ipcState.NoIpc? && t.resume.ToUser?
       case Blocked =>
         || (t.ipcState.Sending? && InSend(t.resume))
         || (t.ipcState.Receiving? && InRecv(t.resume) && t.irqPending == 0)
       case _ =>
         || t.ipcState.NoIpc?
         || (t.ipcState.Receiving? && InRecv(t.resume) && t.irqPending >= 1)
  }

  /** A sender blocked on r, and r blocked receiving from it. */
  predicate Stranded(s: Thread, r: Thread) {
    s.state.Blocked? && s.ipcState.Sending? && s.peer == r.id && ReceiverReady(r, s.id)
  }

  ghost predicate NoLostRendezvous(k: Kernel)
    requires Shape(k)
  {
    forall s, r | Slot(s) && Slot(r) :: !Stranded(k.threads[s], k.threads[r])
  }

  /** Everything but who is running. */
  ghost predicate TableInv(k: Kernel)
    requires Shape(k)
  {
    (forall i | Slot(i) :: ThreadOk(k.threads[i], i)) && NoLostRendezvous(k)
  }

  /** Exactly the current thread is running; nobody is when the idle context is current. */
  ghost predicate RunningIsCurrent(k: Kernel)
    requires Shape(k)
  {
    forall i | Slot(i) :: k.threads[i].state.Running? <==> i == k.current
  }

  ghost predicate Inv(k: Kernel)
    requires Shape(k)
  {
    TableInv(k) && RunningIsCurrent(k) && -1 <= k.pager < MAX_THREADS
  }

  /** The state on entry to schedule(): the current thread may have blocked or died, but it is not
      runnable, and no other thread is running. */
  ghost predicate AtSchedule(k: Kernel)
    requires Shape(k)
  {
    && TableInv(k) && -1 <= k.pager < MAX_THREADS
    && (forall i | Slot(i) && k.threads[i].state.Running? :: i == k.current)
    && (k.current != IDLE ==> !k.threads[k.current].state.Runnable?)
  }

  /** Threads that differ at most in which of them runs. */
  ghost predicate SameButRunning(k: Kernel, k': Kernel)
    requires Shape(k) && Shape(k')
  {
    && k'.pager == k.pager && k'.irqTid == k.irqTid
    && forall i | Slot(i) :: SameThread(k.threads[i], k'.threads[i])
  }

  predicate SameThread(t: Thread, t': Thread) {
    || t' == t
    || (t.state.Runnable? && t' == t.(state := Running))
    || (t.state.Running? && t' == t.(state := Runnable))
  }

  lemma ScheduleKeeps(k: Kernel)
    requires Shape(k) && AtSchedule(k)
    ensures Inv(Schedule(k)) && SameButRunning(k, Schedule(k))
  {
    var k' := Schedule(k);
    FindsNearest(k.threads, k.current + 1, 0);
    forall i | Slot(i)
      ensures SameThread(k.threads[i], k'.threads[i]) && ThreadOk(k'.threads[i], i)
      ensures k'.threads[i].state.Running? <==> i == k'.current
    {
      assert ThreadOk(k.threads[i], i);
    }
    forall s, r | Slot(s) && Slot(r)
      ensures !Stranded(k'.threads[s], k'.threads[r])
    {
      assert !Stranded(k.threads[s], k.threads[r]);
    }
  }

  /** A tick's schedule(): the current thread may still be running. */
  lemma InvAtSchedule(k: Kernel)
    requires Shape(k) && Inv(k)
    ensures AtSchedule(k)
  {
  }

  // ---- one thread at a time ----

  /** Replacing a thread by one that is not blocked strands nobody. */
  lemma PutAwake(k: Kernel, i: nat, t: Thread)
    requires Shape(k) && Slot(i) && TableInv(k) && ThreadOk(t, i) && !t.state.Blocked?
    ensures TableInv(Put(k, i, t))
  {
    var k' := Put(k, i, t);
    forall s, r | Slot(s) && Slot(r)
      ensures !Stranded(k'.threads[s], k'.threads[r])
    {
      assert !Stranded(k.threads[s], k.threads[r]);
    }
    forall j | Slot(j)
      ensures ThreadOk(k'.threads[j], j)
    {
      assert ThreadOk(k.threads[j], j);
    }
  }

  /** Replacing a thread by one that waits for the same peer in the same way strands nobody. */
  lemma PutSameWait(k: Kernel, i: nat, t: Thread)
    requires Shape(k) && Slot(i) && TableInv(k) && ThreadOk(t, i)
    requires t.state == k.threads[i].state && t.ipcState == k.threads[i].ipcState && t.peer == k.threads[i].peer
    ensures TableInv(Put(k, i, t))
  {
    var k' := Put(k, i, t);
    forall s, r | Slot(s) && Slot(r)
      ensures !Stranded(k'.threads[s], k'.threads[r])
    {
      assert !Stranded(k.threads[s], k.threads[r]);
      assert k.threads[i].id == i by { assert ThreadOk(k.threads[i], i); }
    }
    forall j | Slot(j)
      ensures ThreadOk(k'.threads[j], j)
    {
      assert ThreadOk(k.threads[j], j);
    }
  }

  lemma PutBlocked(k: Kernel, i: nat, t: Thread)
    requires Shape(k) && Slot(i) && TableInv(k) && ThreadOk(t, i) && t.state.Blocked?
    requires forall j | Slot(j) && j != i :: !Stranded(t, k.threads[j]) && !Stranded(k.threads[j], t)
    ensures TableInv(Put(k, i, t))
  {
    var k' := Put(k, i, t);
    forall s, r | Slot(s) && Slot(r)
      ensures !Stranded(k'.threads[s], k'.threads[r])
    {
      assert !Stranded(k.threads[s], k.threads[r]);
    }
    forall j | Slot(j)
      ensures ThreadOk(k'.threads[j], j)
    {
      assert ThreadOk(k.threads[j], j);
    }
  }

  // ---- steps ----

  /** A thread in user code, or about to receive in a page fault. */
  ghost predicate CanCall(k: Kernel, self: nat)
    requires Shape(k)
  {
    Slot(self) && self == k.current && Inv(k) && k.threads[self].ipcState.NoIpc?
  }

  lemma SendKeeps(k: Kernel, self: nat, dest: int, msg: Msg, later: Resume, now: Resume)
    requires Shape(k) && CanCall(k, self) && InSend(later)
    ensures Inv(Send(k, self, dest, msg, later, now).k)
  {
    var me := k.threads[self];
    assert ThreadOk(me, self);
    if !Addressable(k, dest) {
      PutAwake(k, self, WithResume(me, now));
    } else {
      assert ThreadOk(k.threads[dest], dest);
      if ReceiverReady(k.threads[dest], me.id) {
        var k1 := Put(k, dest, Handed(k.threads[dest], me.id, msg));
        PutAwake(k, dest, Handed(k.threads[dest], me.id, msg));
        PutAwake(k1, self, WithResume(me, now));
      } else {
        var waiting := StagedOn(me, dest, msg, later);
        forall j | Slot(j) && j != self
          ensures !Stranded(waiting, k.threads[j]) && !Stranded(k.threads[j], waiting)
        {
          assert ThreadOk(k.threads[j], j);
        }
        PutBlocked(k, self, waiting);
        ScheduleKeeps(Put(k, self, waiting));
      }
    }
  }

  lemma FinishKeeps(k: Kernel, self: nat, later: Resume, from: int, verdict: Word)
    requires Shape(k) && CanCall(k, self)
    ensures Inv(Finish(k, self, later, from, verdict).0)
  {
    var me := k.threads[self];
    assert ThreadOk(me, self);
    if later.AfterRecv? {
      PutAwake(k, self, Answered(me, from));
    } else if verdict != 0 {
      var k1 := Put(k, self, Killed(me));
      PutAwake(k, self, Killed(me));
      ScheduleKeeps(k1);
    } else {
      PutAwake(k, self, WithResume(me, ToUser));
    }
  }

  lemma ReceiveBlocksKeeps(k: Kernel, self: nat, src: int, later: Resume)
    requires Shape(k) && CanCall(k, self) && InRecv(later) && k.threads[self].irqPending == 0
    requires FindSender(k.threads, k.threads[self].id, src, 0) == MAX_THREADS
    ensures Inv(Schedule(Put(k, self, WaitingFor(k.threads[self], src, later))))
  {
    var me := k.threads[self];
    assert ThreadOk(me, self);
    var waiting := WaitingFor(me, src, later);
    forall j | Slot(j) && j != self
      ensures !Stranded(waiting, k.threads[j]) && !Stranded(k.threads[j], waiting)
    {
      assert ThreadOk(k.threads[j], j);
      assert !WaitingSender(k.threads[j], me.id, src);
    }
    PutBlocked(k, self, waiting);
    ScheduleKeeps(Put(k, self, waiting));
  }

  lemma ReceiveTakesKeeps(k: Kernel, self: nat, s: nat, later: Resume)
    requires Shape(k) && CanCall(k, self) && Slot(s) && WaitingSender(k.threads[s], k.threads[self].id, ANY)
    ensures var snd := k.threads[s];
      Inv(Finish(Put(k, s, Released(snd)), self, later, snd.id, snd.buf.data0).0)
  {
    var snd := k.threads[s];
    assert ThreadOk(snd, s) && ThreadOk(k.threads[self], self);
    PutAwake(k, s, Released(snd));
    FinishKeeps(Put(k, s, Released(snd)), self, later, snd.id, snd.buf.data0);
  }

  lemma ReceiveKeeps(k: Kernel, self: nat, src: int, later: Resume, stale: Word)
    requires Shape(k) && CanCall(k, self) && InRecv(later)
    ensures Inv(Receive(k, self, src, later, stale).k)
  {
    var me := k.threads[self];
    var s := FindSender(k.threads, me.id, src, 0);
    if me.irqPending > 0 {
      PendingIrqKeeps(k, self, later, stale);
    } else if s < MAX_THREADS {
      ReceiveTakesKeeps(k, self, s, later);
    } else {
      ReceiveBlocksKeeps(k, self, src, later);
    }
  }

  lemma PendingIrqKeeps(k: Kernel, self: nat, later: Resume, stale: Word)
    requires Shape(k) && CanCall(k, self) && k.threads[self].irqPending > 0
    ensures Inv(ReturnIrq(k, self, LessIrq(k.threads[self]), later, stale).k)
  {
    var t := LessIrq(k.threads[self]);
    assert ThreadOk(k.threads[self], self);
    TakeIrqKeeps(k, self, t, later, IRQ_SENDER, stale);
  }

  /** A receive that returns after changing only its own thread's record. */
  lemma TakeIrqKeeps(k: Kernel, self: nat, t: Thread, later: Resume, from: int, verdict: Word)
    requires Shape(k) && Inv(k) && Slot(self) && self == k.current && ThreadOk(t, self)
    requires t.state.Running? && t.ipcState.NoIpc?
    ensures Inv(Finish(Put(k, self, t), self, later, from, verdict).0)
  {
    PutAwake(k, self, t);
    FinishKeeps(Put(k, self, t), self, later, from, verdict);
  }

  lemma WokenByIrqKeeps(k: Kernel, self: nat, stale: Word)
    requires Shape(k) && Inv(k) && Slot(self) && self == k.current && k.threads[self].ipcState.Receiving?
    ensures var me := k.threads[self];
      Inv(ReturnIrq(k, self, LessIrq(OutOfIpc(me)), me.resume, stale).k)
  {
    var me := k.threads[self];
    assert ThreadOk(me, self);
    TakeIrqKeeps(k, self, LessIrq(OutOfIpc(me)), me.resume, IRQ_SENDER, stale);
  }

  lemma WokenByMessageKeeps(k: Kernel, self: nat)
    requires Shape(k) && Inv(k) && Slot(self) && self == k.current
    ensures Inv(ReturnMessage(k, self, k.threads[self]).k)
  {
    var me := k.threads[self];
    assert ThreadOk(me, self);
    TakeIrqKeeps(k, self, OutOfIpc(me), me.resume, me.source, me.buf.data0);
  }

  lemma ContinueKeeps(k: Kernel, self: nat, stale: Word)
    requires Shape(k) && Inv(k) && Slot(self) && self == k.current
    ensures Inv(Continue(k, self, stale).k)
  {
    var me := k.threads[self];
    assert ThreadOk(me, self);
    match me.resume
    case ToUser =>
    case AfterSend => PutAwake(k, self, WithResume(OutOfIpc(me), ToUser));
    case FaultSend => PutAwake(k, self, WithResume(OutOfIpc(me), FaultCall));
    case FaultCall => ReceiveKeeps(k, self, k.pager, FaultRecv, stale);
    case _ => WokenReceiveKeeps(k, self, stale);
  }

  lemma WokenReceiveKeeps(k: Kernel, self: nat, stale: Word)
    requires Shape(k) && Inv(k) && Slot(self) && self == k.current && InRecv(k.threads[self].resume)
    ensures Inv(Continue(k, self, stale).k)
  {
    if k.threads[self].ipcState.Receiving? {
      WokenByIrqKeeps(k, self, stale);
      assert Continue(k, self, stale) == ReturnIrq(k, self, LessIrq(OutOfIpc(k.threads[self])), k.threads[self].resume, stale);
    } else {
      WokenByMessageKeeps(k, self);
    }
  }

  lemma GrantKeeps(k: Kernel, tid: nat, caps: Table)
    requires Shape(k) && Inv(k) && Slot(tid) && TableOk(caps)
    ensures Inv(Put(k, tid, k.threads[tid].(caps := caps)))
  {
    assert ThreadOk(k.threads[tid], tid);
    PutSameWait(k, tid, k.threads[tid].(caps := caps));
  }

  lemma CreateKeeps(k: Kernel)
    requires Shape(k) && Inv(k)
    ensures Inv(Create(k))
  {
    var i := FirstFree(k.threads);
    if i < MAX_THREADS {
      assert ThreadOk(k.threads[i], i);
      PutAwake(k, i, Fresh(k.threads[i]));
    }
  }

  lemma SyscallKeeps(k: Kernel, self: nat, call: Call, stale: Word)
    requires Shape(k) && CanCall(k, self) && k.threads[self].resume.ToUser?
    ensures Inv(DoSyscall(k, self, call, stale).k)
  {
    var me := k.threads[self];
    assert ThreadOk(me, self);
    match call
    case CallSend(dest, msg) =>
      if SendAllowed(k, self, dest) {
        PutAwake(k, self, me.(callTo := dest));
        SendKeeps(Put(k, self, me.(callTo := dest)), self, dest, msg, AfterSend, ToUser);
      }
    case CallRecv(src) => ReceiveKeeps(k, self, src, AfterRecv, stale);
    case CallExit =>
      PutAwake(k, self, me.(state := Dead));
      ScheduleKeeps(Put(k, self, me.(state := Dead)));
    case CallSpawn(prog) => SpawnKeeps(k, self, prog);
    case CallGrantIo(tid, base, len) =>
      if Slot(tid) {
        GrantIoKeeps(k, tid, base, len);
      }
    case CallGrantCap(tid, ep) =>
      if Slot(tid) {
        GrantCapKeeps(k, tid, ep);
      }
    case _ =>
  }

  lemma SpawnKeeps(k: Kernel, self: nat, prog: int)
    requires Shape(k) && CanCall(k, self) && k.threads[self].resume.ToUser?
    ensures Inv(DoSpawn(k, self, prog).k)
  {
    var me, child := k.threads[self], FirstFree(k.threads);
    assert ThreadOk(me, self);
    if 0 <= prog < PROG_COUNT && child < MAX_THREADS {
      CreateKeeps(k);
      GrantEndpointOk(me.caps, child);
      GrantKeeps(Create(k), self, GrantEndpoint(me.caps, child));
    }
  }

  lemma GrantIoKeeps(k: Kernel, tid: nat, base: Port, len: Port)
    requires Shape(k) && Inv(k) && Slot(tid)
    ensures Inv(Put(k, tid, k.threads[tid].(caps := GrantIo(k.threads[tid].caps, base, len))))
  {
    assert ThreadOk(k.threads[tid], tid);
    GrantIoOk(k.threads[tid].caps, base, len);
    GrantKeeps(k, tid, GrantIo(k.threads[tid].caps, base, len));
  }

  lemma GrantCapKeeps(k: Kernel, tid: nat, ep: int)
    requires Shape(k) && Inv(k) && Slot(tid)
    ensures Inv(Put(k, tid, k.threads[tid].(caps := GrantEndpoint(k.threads[tid].caps, ep))))
  {
    assert ThreadOk(k.threads[tid], tid);
    GrantEndpointOk(k.threads[tid].caps, ep);
    GrantKeeps(k, tid, GrantEndpoint(k.threads[tid].caps, ep));
  }

  lemma IrqKeeps(k: Kernel, irq: nat)
    requires Shape(k) && Inv(k) && irq < 16
    ensures Inv(DoIrq(k, irq).k)
  {
    var tid := k.irqTid[irq];
    if Addressable(k, tid) {
      var t := k.threads[tid];
      assert ThreadOk(t, tid);
      var d := t.(irqPending := t.irqPending + 1);
      if t.state.Blocked? && t.ipcState.Receiving? {
        PutAwake(k, tid, Wake(d));
      } else {
        PutSameWait(k, tid, d);
      }
    }
  }

  /** Every step keeps the invariant. */
  lemma StepKeeps(k: Kernel, e: Event)
    requires Shape(k) && Inv(k) && Enabled(k, e)
    ensures Inv(Step(k, e).k)
  {
    if k.current != IDLE {
      assert ThreadOk(k.threads[k.current], k.current);
    }
    match e
    case Syscall(call, stale) => SyscallKeeps(k, k.current, call, stale);
    case Tick =>
      InvAtSchedule(k);
      ScheduleKeeps(k);
    case Irq(irq) => IrqKeeps(k, irq);
    case Fault(addr) =>
      var id := k.threads[k.current].id;
      SendKeeps(k, k.current, k.pager, Msg(MSG_FAULT, id % TWO_64, addr, 0), FaultSend, FaultCall);
    case GoOn(stale) => ContinueKeeps(k, k.current, stale);
  }

  lemma BootedInv()
    ensures Inv(Booted())
  {
    var k := Initial();
    assert forall i | Slot(i) :: ThreadOk(k.threads[i], i);
    CreateKeeps(k);
  }
}
