/** Every step of the kernel keeps the record true of the kernel's buffers: whatever the schedule,
    each message that a send accepts is returned by exactly one receive of its destination. */
module DeliverySteps {
  import opened Words
  import opened Capabilities
  import opened Threads
  import opened Ipc
  import opened Trap
  import opened KernelInvariants
  import opened Delivery

  ghost predicate Agrees(k: Kernel, h: History)
    requires Shape(k) && HistShape(h)
  {
    HistInv(k.threads, h)
  }

  /** An outcome whose note fits the acting thread and keeps the record true. */
  ghost predicate Recorded(o: Outcome, h: History, self: int)
    requires Shape(o.k) && HistShape(h)
  {
    NoteShape(o.note) && (NeedsActor(o.note) ==> Slot(self)) && Agrees(o.k, Record(h, self, o.note))
  }

  lemma ScheduleAgrees(k: Kernel, h: History)
    requires Shape(k) && HistShape(h) && Agrees(k, h) && AtSchedule(k)
    ensures Agrees(Schedule(k), h)
  {
    ScheduleKeeps(k);
    forall i | Slot(i)
      ensures SameView(k.threads[i], Schedule(k).threads[i])
    {
      assert SameThread(k.threads[i], Schedule(k).threads[i]);
    }
    SameViewKeeps(k.threads, Schedule(k).threads, h);
  }

  /** A receive that has returned leaves a thread that is in no send and holds no message. */
  lemma FinishAgrees(k: Kernel, h: History, self: nat, later: Resume, from: int, verdict: Word)
    requires Shape(k) && HistShape(h) && CanCall(k, self) && Agrees(k, h) && Neutral(k.threads[self])
    ensures Agrees(Finish(k, self, later, from, verdict).0, h)
  {
    var me := k.threads[self];
    assert ThreadOk(me, self) && ThreadHist(k.threads, h, self);
    if later.AfterRecv? {
      PutNeutral(k.threads, h, self, Answered(me, from), h);
    } else if verdict != 0 {
      var t := Killed(me);
      PutNeutral(k.threads, h, self, t, h);
      PutAwake(k, self, t);
      ScheduleAgrees(Put(k, self, t), h);
    } else {
      PutNeutral(k.threads, h, self, WithResume(me, ToUser), h);
    }
  }

  lemma SendRecorded(k: Kernel, h: History, self: nat, dest: int, msg: Msg, later: Resume, now: Resume)
    requires Shape(k) && HistShape(h) && CanCall(k, self) && Agrees(k, h)
    requires Neutral(k.threads[self]) && InSend(later) && (now.ToUser? || now.FaultCall?)
    ensures Recorded(Send(k, self, dest, msg, later, now), h, self)
  {
    var me := k.threads[self];
    assert ThreadOk(me, self) && ThreadHist(k.threads, h, self);
    if !Addressable(k, dest) {
      PutNeutral(k.threads, h, self, WithResume(me, now), h);
    } else {
      assert ThreadOk(k.threads[dest], dest);
      if ReceiverReady(k.threads[dest], me.id) {
        SendDeliversRecorded(k, h, self, dest, msg, now);
      } else {
        SendStagesRecorded(k, h, self, dest, msg, later);
      }
    }
  }

  lemma SendDeliversRecorded(k: Kernel, h: History, self: nat, dest: nat, msg: Msg, now: Resume)
    requires Shape(k) && HistShape(h) && CanCall(k, self) && Agrees(k, h) && Neutral(k.threads[self])
    requires Slot(dest) && ReceiverReady(k.threads[dest], self) && (now.ToUser? || now.FaultCall?)
    ensures var k1 := Put(k, dest, Handed(k.threads[dest], self, msg));
      Agrees(Put(k1, self, WithResume(k1.threads[self], now)), Record(h, self, Delivered(dest, msg)))
  {
    assert ThreadOk(k.threads[dest], dest);
    var k1 := Put(k, dest, Handed(k.threads[dest], self, msg));
    var h' := Record(h, self, Delivered(dest, msg));
    RecordDelivered(k.threads, h, self, dest, msg);
    assert ThreadHist(k1.threads, h', self);
    PutNeutral(k1.threads, h', self, WithResume(k1.threads[self], now), h');
  }

  lemma SendStagesRecorded(k: Kernel, h: History, self: nat, dest: nat, msg: Msg, later: Resume)
    requires Shape(k) && HistShape(h) && CanCall(k, self) && Agrees(k, h) && Neutral(k.threads[self])
    requires Slot(dest) && Addressable(k, dest) && !ReceiverReady(k.threads[dest], k.threads[self].id) && InSend(later)
    ensures var waiting := StagedOn(k.threads[self], dest, msg, later);
      Agrees(Schedule(Put(k, self, waiting)), Record(h, self, Staged(dest, msg)))
  {
    var me := k.threads[self];
    assert ThreadOk(me, self);
    var waiting := StagedOn(me, dest, msg, later);
    RecordStaged(k.threads, h, self, dest, msg, later);
    forall j | Slot(j) && j != self
      ensures !Stranded(waiting, k.threads[j]) && !Stranded(k.threads[j], waiting)
    {
      assert ThreadOk(k.threads[j], j);
    }
    PutBlocked(k, self, waiting);
    ScheduleAgrees(Put(k, self, waiting), Record(h, self, Staged(dest, msg)));
  }

  lemma ReceiveRecorded(k: Kernel, h: History, self: nat, src: int, later: Resume, stale: Word)
    requires Shape(k) && HistShape(h) && CanCall(k, self) && Agrees(k, h)
    requires Neutral(k.threads[self]) && InRecv(later)
    ensures Recorded(Receive(k, self, src, later, stale), h, self)
  {
    var me := k.threads[self];
    var s := FindSender(k.threads, me.id, src, 0);
    if me.irqPending > 0 {
      PendingRecorded(k, h, self, later, stale);
    } else if s < MAX_THREADS {
      TakeRecorded(k, h, self, s, later);
    } else {
      BlockRecorded(k, h, self, src, later);
    }
  }

  lemma PendingRecorded(k: Kernel, h: History, self: nat, later: Resume, stale: Word)
    requires Shape(k) && HistShape(h) && CanCall(k, self) && Agrees(k, h)
    requires Neutral(k.threads[self]) && k.threads[self].irqPending > 0 && InRecv(later)
    ensures Agrees(ReturnIrq(k, self, LessIrq(k.threads[self]), later, stale).k,
                   Record(h, self, IrqTaken(later.AfterRecv?)))
  {
    assert ThreadOk(k.threads[self], self);
    IrqReturnRecorded(k, h, self, LessIrq(k.threads[self]), later, stale);
  }

  /** A receive that returns an interrupt, at once or on waking. */
  lemma IrqReturnRecorded(k: Kernel, h: History, self: nat, t: Thread, later: Resume, stale: Word)
    requires Shape(k) && HistShape(h) && Slot(self) && self == k.current && Inv(k) && Agrees(k, h)
    requires Neutral(k.threads[self]) && k.threads[self].irqPending > 0
    requires ThreadOk(t, self) && t.state.Running? && t.ipcState.NoIpc? && t.irqPending == k.threads[self].irqPending - 1
    requires !InSend(t.resume) && InRecv(later)
    ensures Agrees(ReturnIrq(k, self, t, later, stale).k, Record(h, self, IrqTaken(later.AfterRecv?)))
  {
    var u := WithResume(t, ToUser);
    var h' := Record(h, self, IrqTaken(later.AfterRecv?));
    assert ThreadHist(k.threads, h, self);
    PutNeutral(k.threads, h, self, u, h');
    PutAwake(k, self, u);
    FinishAgrees(Put(k, self, u), h', self, later, IRQ_SENDER, stale);
    assert Finish(Put(k, self, t), self, later, IRQ_SENDER, stale).0 == Finish(Put(k, self, u), self, later, IRQ_SENDER, stale).0 by {
      FinishForgets(k, self, t, u, later, IRQ_SENDER, stale);
    }
  }

  /** Where the thread was in the kernel does not matter once its receive has returned. */
  lemma FinishForgets(k: Kernel, self: nat, t: Thread, u: Thread, later: Resume, from: int, verdict: Word)
    requires Shape(k) && Slot(self) && u == WithResume(t, ToUser)
    ensures Finish(Put(k, self, t), self, later, from, verdict) == Finish(Put(k, self, u), self, later, from, verdict)
  {
    var k1, k2 := Put(k, self, t), Put(k, self, u);
    assert Put(k1, self, Answered(t, from)) == Put(k2, self, Answered(u, from));
    assert Put(k1, self, Killed(t)) == Put(k2, self, Killed(u));
    assert Put(k1, self, WithResume(t, ToUser)) == Put(k2, self, WithResume(u, ToUser));
  }

  lemma TakeRecorded(k: Kernel, h: History, self: nat, s: nat, later: Resume)
    requires Shape(k) && HistShape(h) && CanCall(k, self) && Agrees(k, h) && Neutral(k.threads[self])
    requires Slot(s) && WaitingSender(k.threads[s], k.threads[self].id, ANY)
    ensures var snd := k.threads[s];
      Agrees(Finish(Put(k, s, Released(snd)), self, later, snd.id, snd.buf.data0).0,
             Record(h, self, Taken(s, snd.id, snd.buf)))
  {
    var snd := k.threads[s];
    assert ThreadOk(snd, s) && ThreadOk(k.threads[self], self);
    RecordTaken(k.threads, h, self, s);
    PutAwake(k, s, Released(snd));
    FinishAgrees(Put(k, s, Released(snd)), Record(h, self, Taken(s, snd.id, snd.buf)), self, later, snd.id, snd.buf.data0);
  }

  lemma BlockRecorded(k: Kernel, h: History, self: nat, src: int, later: Resume)
    requires Shape(k) && HistShape(h) && CanCall(k, self) && Agrees(k, h) && Neutral(k.threads[self]) && InRecv(later)
    requires k.threads[self].irqPending == 0 && FindSender(k.threads, k.threads[self].id, src, 0) == MAX_THREADS
    ensures Agrees(Schedule(Put(k, self, WaitingFor(k.threads[self], src, later))), h)
  {
    var me := k.threads[self];
    assert ThreadOk(me, self) && ThreadHist(k.threads, h, self);
    var waiting := WaitingFor(me, src, later);
    PutNeutral(k.threads, h, self, waiting, h);
    forall j | Slot(j) && j != self
      ensures !Stranded(waiting, k.threads[j]) && !Stranded(k.threads[j], waiting)
    {
      assert ThreadOk(k.threads[j], j);
      assert !WaitingSender(k.threads[j], me.id, src);
    }
    PutBlocked(k, self, waiting);
    ScheduleAgrees(Put(k, self, waiting), h);
  }

  lemma ContinueRecorded(k: Kernel, h: History, self: nat, stale: Word)
    requires Shape(k) && HistShape(h) && Inv(k) && Slot(self) && self == k.current && Agrees(k, h)
    ensures Recorded(Continue(k, self, stale), h, self)
  {
    var me := k.threads[self];
    assert ThreadOk(me, self);
    match me.resume
    case ToUser =>
    case AfterSend => RecordDone(k.threads, h, self, WithResume(OutOfIpc(me), ToUser));
    case FaultSend => RecordDone(k.threads, h, self, WithResume(OutOfIpc(me), FaultCall));
    case FaultCall => ReceiveRecorded(k, h, self, k.pager, FaultRecv, stale);
    case _ => WokenRecorded(k, h, self, stale);
  }

  lemma WokenRecorded(k: Kernel, h: History, self: nat, stale: Word)
    requires Shape(k) && HistShape(h) && Inv(k) && Slot(self) && self == k.current && Agrees(k, h)
    requires InRecv(k.threads[self].resume)
    ensures Recorded(Continue(k, self, stale), h, self)
  {
    var me := k.threads[self];
    assert ThreadOk(me, self);
    if me.ipcState.Receiving? {
      IrqReturnRecorded(k, h, self, LessIrq(OutOfIpc(me)), me.resume, stale);
    } else {
      WokenWithMessage(k, h, self);
    }
  }

  lemma WokenWithMessage(k: Kernel, h: History, self: nat)
    requires Shape(k) && HistShape(h) && Inv(k) && Slot(self) && self == k.current && Agrees(k, h)
    requires InRecv(k.threads[self].resume) && k.threads[self].ipcState.NoIpc?
    ensures Agrees(ReturnMessage(k, self, k.threads[self]).k, Record(h, self, Returned(k.threads[self].source, k.threads[self].buf)))
  {
    var me := k.threads[self];
    var t, u := OutOfIpc(me), WithResume(me, ToUser);
    assert ThreadOk(me, self);
    RecordReturned(k.threads, h, self, u);
    PutAwake(k, self, u);
    FinishAgrees(Put(k, self, u), Record(h, self, Returned(me.source, me.buf)), self, me.resume, me.source, me.buf.data0);
    FinishForgets(k, self, t, u, me.resume, me.source, me.buf.data0);
  }

  lemma PutCaps(k: Kernel, h: History, tid: nat, caps: Table)
    requires Shape(k) && HistShape(h) && Agrees(k, h) && Slot(tid)
    ensures Agrees(Put(k, tid, k.threads[tid].(caps := caps)), h)
  {
    SameViewKeeps(k.threads, Put(k, tid, k.threads[tid].(caps := caps)).threads, h);
  }

  lemma CreateRecorded(k: Kernel, h: History)
    requires Shape(k) && HistShape(h) && Inv(k) && Agrees(k, h) && FirstFree(k.threads) < MAX_THREADS
    ensures Agrees(Create(k), Renewed(h, FirstFree(k.threads)))
  {
    var i := FirstFree(k.threads);
    assert ThreadOk(k.threads[i], i);
    PutNeutral(k.threads, h, i, Fresh(k.threads[i]), Renewed(h, i));
  }

  lemma SpawnRecorded(k: Kernel, h: History, self: nat, prog: int)
    requires Shape(k) && HistShape(h) && CanCall(k, self) && Agrees(k, h)
    ensures Recorded(DoSpawn(k, self, prog), h, self)
  {
    var child := FirstFree(k.threads);
    if 0 <= prog < PROG_COUNT && child < MAX_THREADS {
      CreateRecorded(k, h);
      PutCaps(Create(k), Record(h, self, Created(child)), self, GrantEndpoint(Create(k).threads[self].caps, child));
    }
  }

  lemma DoSendRecorded(k: Kernel, h: History, self: nat, dest: int, msg: Msg)
    requires Shape(k) && HistShape(h) && CanCall(k, self) && Agrees(k, h) && k.threads[self].resume.ToUser?
    ensures Recorded(DoSend(k, self, dest, msg), h, self)
  {
    var me := k.threads[self];
    assert ThreadOk(me, self) && ThreadHist(k.threads, h, self);
    if SendAllowed(k, self, dest) {
      var t := me.(callTo := dest);
      PutNeutral(k.threads, h, self, t, h);
      PutAwake(k, self, t);
      SendRecorded(Put(k, self, t), h, self, dest, msg, AfterSend, ToUser);
    }
  }

  lemma SyscallRecorded(k: Kernel, h: History, self: nat, call: Call, stale: Word)
    requires Shape(k) && HistShape(h) && CanCall(k, self) && Agrees(k, h) && k.threads[self].resume.ToUser?
    ensures Recorded(DoSyscall(k, self, call, stale), h, self)
  {
    var me := k.threads[self];
    assert ThreadOk(me, self) && ThreadHist(k.threads, h, self);
    match call
    case CallSend(dest, msg) => DoSendRecorded(k, h, self, dest, msg);
    case CallRecv(src) => ReceiveRecorded(k, h, self, src, AfterRecv, stale);
    case CallExit =>
      var t := me.(state := Dead);
      PutNeutral(k.threads, h, self, t, h);
      PutAwake(k, self, t);
      ScheduleAgrees(Put(k, self, t), h);
    case CallSpawn(prog) => SpawnRecorded(k, h, self, prog);
    case CallGrantIo(tid, base, len) =>
      if Slot(tid) {
        PutCaps(k, h, tid, GrantIo(k.threads[tid].caps, base, len));
      }
    case CallGrantCap(tid, ep) =>
      if Slot(tid) {
        PutCaps(k, h, tid, GrantEndpoint(k.threads[tid].caps, ep));
      }
    case _ =>
  }

  lemma IrqRecorded(k: Kernel, h: History, irq: nat)
    requires Shape(k) && HistShape(h) && Inv(k) && irq < 16 && Agrees(k, h)
    ensures Recorded(DoIrq(k, irq), h, k.current)
  {
    var tid := k.irqTid[irq];
    if Addressable(k, tid) {
      var t := k.threads[tid];
      assert ThreadOk(t, tid) && ThreadHist(k.threads, h, tid);
      var d := t.(irqPending := t.irqPending + 1);
      var h' := Record(h, k.current, IrqPosted(tid));
      if t.state.Blocked? && t.ipcState.Receiving? {
        PutNeutral(k.threads, h, tid, Wake(d), h');
      } else {
        CountIrq(k.threads, h, tid, d, h');
      }
    }
  }

  /** Every step keeps the record true of the kernel. */
  lemma StepRecorded(k: Kernel, h: History, e: Event)
    requires Shape(k) && HistShape(h) && Inv(k) && Enabled(k, e) && Agrees(k, h)
    ensures Recorded(Step(k, e), h, k.current)
  {
    if k.current != IDLE {
      assert ThreadOk(k.threads[k.current], k.current);
    }
    match e
    case Syscall(call, stale) => SyscallRecorded(k, h, k.current, call, stale);
    case Tick =>
      InvAtSchedule(k);
      ScheduleAgrees(k, h);
    case Irq(irq) => IrqRecorded(k, h, irq);
    case Fault(addr) =>
      var id := k.threads[k.current].id;
      SendRecorded(k, h, k.current, k.pager, Msg(MSG_FAULT, id % TWO_64, addr, 0), FaultSend, FaultCall);
    case GoOn(stale) => ContinueRecorded(k, h, k.current, stale);
  }
}
