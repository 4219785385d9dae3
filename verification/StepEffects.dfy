/** What one step does to capability tables and to the open call of a thread: everything it can do
    to either, written as the value after the step. */
module StepEffects {
  import opened Options
  import opened Words
  import opened Capabilities
  import opened Threads
  import opened Ipc
  import opened Trap
  import opened KernelInvariants

  predicate SameRights(t: Thread, t': Thread) {
    t'.caps == t.caps && t'.callTo == t.callTo
  }

  ghost predicate Steady(k: Kernel, k': Kernel)
    requires Shape(k) && Shape(k')
  {
    forall i | Slot(i) :: SameRights(k.threads[i], k'.threads[i])
  }

  lemma ScheduleSteady(k: Kernel)
    requires Shape(k)
    ensures Steady(k, Schedule(k))
  {
  }

  lemma SendSteady(k: Kernel, self: nat, dest: int, msg: Msg, later: Resume, now: Resume)
    requires Shape(k) && Slot(self)
    ensures Steady(k, Send(k, self, dest, msg, later, now).k)
  {
    var waiting := StagedOn(k.threads[self], dest, msg, later);
    ScheduleSteady(Put(k, self, waiting));
  }

  /** A receive of thread `self` that returned a message from `from` closed the call to `from`, if
      it was a system call, and changed no other right. */
  ghost predicate ClosesOnly(k: Kernel, k': Kernel, self: nat, later: Resume, from: int)
    requires Shape(k) && Shape(k') && Slot(self)
  {
    && (forall i | Slot(i) && i != self :: SameRights(k.threads[i], k'.threads[i]))
    && k'.threads[self].caps == k.threads[self].caps
    && k'.threads[self].callTo == (if later.AfterRecv? && from == k.threads[self].callTo then -1 else k.threads[self].callTo)
  }

  lemma FinishCloses(k: Kernel, self: nat, later: Resume, from: int, verdict: Word)
    requires Shape(k) && Slot(self)
    ensures ClosesOnly(k, Finish(k, self, later, from, verdict).0, self, later, from)
  {
    ScheduleSteady(Put(k, self, Killed(k.threads[self])));
  }

  /** The sender that a receive names on its return. */
  predicate NoteFrom(note: Note, from: int) {
    match note
    case Taken(_, f, _) => f == from
    case Returned(f, _) => f == from
    case IrqTaken(_) => from == IRQ_SENDER
    case _ => false
  }

  predicate NoteReceives(note: Note) {
    note.Taken? || note.Returned? || note.IrqTaken?
  }

  function FromOf(note: Note): (from: int)
    requires NoteReceives(note)
    ensures NoteFrom(note, from)
  {
    match note
    case Taken(_, f, _) => f
    case Returned(f, _) => f
    case IrqTaken(_) => IRQ_SENDER
  }

  ghost predicate ReceiveEffect(k: Kernel, o: Outcome, self: nat, later: Resume)
    requires Shape(k) && Shape(o.k) && Slot(self)
  {
    if NoteReceives(o.note) then ClosesOnly(k, o.k, self, later, FromOf(o.note)) else Steady(k, o.k)
  }

  lemma ReturnIrqCloses(k: Kernel, self: nat, t: Thread, later: Resume, stale: Word)
    requires Shape(k) && Slot(self) && SameRights(k.threads[self], t)
    ensures ReceiveEffect(k, ReturnIrq(k, self, t, later, stale), self, later)
  {
    FinishCloses(Put(k, self, t), self, later, IRQ_SENDER, stale);
  }

  lemma ReceiveCloses(k: Kernel, self: nat, src: int, later: Resume, stale: Word)
    requires Shape(k) && Slot(self)
    ensures ReceiveEffect(k, Receive(k, self, src, later, stale), self, later)
  {
    var me := k.threads[self];
    var s := FindSender(k.threads, me.id, src, 0);
    if me.irqPending > 0 {
      ReturnIrqCloses(k, self, LessIrq(me), later, stale);
    } else if s < MAX_THREADS {
      FinishCloses(Put(k, s, Released(k.threads[s])), self, later, k.threads[s].id, k.threads[s].buf.data0);
    } else {
      ScheduleSteady(Put(k, self, WaitingFor(me, src, later)));
    }
  }

  /** In which kind of receive a step that returns one is. */
  function ReceiveKind(k: Kernel, e: Event): Resume
    requires Shape(k)
  {
    if e.Syscall? then AfterRecv
    else if k.current != IDLE && k.threads[k.current].resume.AfterRecv? then AfterRecv
    else FaultRecv
  }

  lemma ContinueCloses(k: Kernel, self: nat, stale: Word)
    requires Shape(k) && Slot(self) && self == k.current
    ensures ReceiveEffect(k, Continue(k, self, stale), self, ReceiveKind(k, GoOn(stale)))
  {
    var me := k.threads[self];
    match me.resume
    case FaultCall => ReceiveCloses(k, self, k.pager, FaultRecv, stale);
    case AfterRecv => WokenCloses(k, self, stale);
    case FaultRecv => WokenCloses(k, self, stale);
    case _ =>
  }

  lemma WokenCloses(k: Kernel, self: nat, stale: Word)
    requires Shape(k) && Slot(self) && InRecv(k.threads[self].resume)
    ensures ReceiveEffect(k, Continue(k, self, stale), self, k.threads[self].resume)
  {
    var me := k.threads[self];
    if me.ipcState.Receiving? {
      ReturnIrqCloses(k, self, LessIrq(OutOfIpc(me)), me.resume, stale);
    } else {
      FinishCloses(Put(k, self, OutOfIpc(me)), self, me.resume, me.source, me.buf.data0);
    }
  }

  // ---- tables ----

  predicate Grants(e: Event) {
    e.Syscall? && (e.call.CallGrantCap? || e.call.CallGrantIo? || e.call.CallSpawn?)
  }

  lemma OtherStepsGrantNothing(k: Kernel, e: Event)
    requires Shape(k) && Enabled(k, e) && !Grants(e)
    ensures forall i | Slot(i) :: Step(k, e).k.threads[i].caps == k.threads[i].caps
    ensures !Step(k, e).note.Created?
  {
    var self := k.current;
    match e
    case Syscall(call, stale) =>
      match call {
        case CallSend(dest, msg) =>
          if SendAllowed(k, self, dest) {
            SendSteady(Put(k, self, k.threads[self].(callTo := dest)), self, dest, msg, AfterSend, ToUser);
          }
        case CallRecv(src) => ReceiveCloses(k, self, src, AfterRecv, stale);
        case CallExit => ScheduleSteady(Put(k, self, k.threads[self].(state := Dead)));
        case _ =>
      }
    case Tick => ScheduleSteady(k);
    case Irq(_) =>
    case Fault(addr) =>
      var id := k.threads[self].id;
      SendSteady(k, self, k.pager, Msg(MSG_FAULT, if id < 0 then 0 else id % TWO_64, addr, 0), FaultSend, FaultCall);
    case GoOn(stale) => ContinueCloses(k, self, stale);
  }

  /** Whether thread t holds the endpoint of thread e. */
  predicate Holds(k: Kernel, t: nat, e: int)
    requires Shape(k) && Slot(t)
  {
    HasEndpoint(k.threads[t].caps, e)
  }

  /** A SYS_GRANT_CAP of e to t by thread 0 or by a holder of e. */
  predicate GrantsTo(k: Kernel, ev: Event, t: nat, e: int)
    requires Shape(k)
  {
    && ev.Syscall? && ev.call == CallGrantCap(t, e)
    && Slot(k.current) && (k.current == 0 || Holds(k, k.current, e))
  }

  /** A SYS_SPAWN by t that created thread e. */
  predicate SpawnedBy(k: Kernel, ev: Event, t: nat, e: int)
    requires Shape(k) && Enabled(k, ev)
  {
    k.current == t && Step(k, ev).note.Created? && Step(k, ev).note.tid == e
  }

  /** A thread holds an endpoint after a step exactly if its slot was not made anew in the step and
      it held it before, or was granted it by thread 0 or a holder, or spawned it; the last two
      fail if its table is full. */
  lemma HoldStep(k: Kernel, ev: Event, t: nat, e: int)
    requires Shape(k) && Inv(k) && Enabled(k, ev) && Slot(t)
    ensures Holds(Step(k, ev).k, t, e) <==>
      && Step(k, ev).note != Created(t)
      && (Holds(k, t, e) || ((GrantsTo(k, ev, t, e) || SpawnedBy(k, ev, t, e)) && !Full(k.threads[t].caps)))
  {
    if !Grants(ev) {
      OtherStepsGrantNothing(k, ev);
    } else {
      match ev.call
      case CallGrantCap(tid, ep) => GrantCapHolds(k, tid, ep, t, e);
      case CallGrantIo(tid, base, len) => GrantIoHolds(k, tid, base, len, t, e);
      case CallSpawn(prog) => SpawnHolds(k, prog, t, e);
    }
  }

  lemma GrantCapHolds(k: Kernel, tid: int, ep: int, t: nat, e: int)
    requires Shape(k) && Inv(k) && Slot(k.current) && Slot(t)
    ensures var o := DoSyscall(k, k.current, CallGrantCap(tid, ep), 0);
      && o.note.Quiet?
      && (Holds(o.k, t, e) <==>
          Holds(k, t, e) || (tid == t && ep == e && (k.current == 0 || Holds(k, k.current, ep)) && !Full(k.threads[t].caps)))
  {
    assert ThreadOk(k.threads[t], t) && ThreadOk(k.threads[k.current], k.current);
    GrantEndpointOk(k.threads[t].caps, ep);
  }

  lemma GrantIoHolds(k: Kernel, tid: int, base: Port, len: Port, t: nat, e: int)
    requires Shape(k) && Inv(k) && Slot(k.current) && Slot(t)
    ensures var o := DoSyscall(k, k.current, CallGrantIo(tid, base, len), 0);
      o.note.Quiet? && (Holds(o.k, t, e) <==> Holds(k, t, e))
  {
    assert ThreadOk(k.threads[t], t);
    GrantIoOk(k.threads[t].caps, base, len);
  }

  lemma SpawnHolds(k: Kernel, prog: int, t: nat, e: int)
    requires Shape(k) && Inv(k) && Slot(k.current) && Slot(t)
    ensures var o := DoSpawn(k, k.current, prog);
      && (o.note.Quiet? || (o.note.Created? && k.current != o.note.tid))
      && (Holds(o.k, t, e) <==>
          o.note != Created(t) && (Holds(k, t, e) || (t == k.current && o.note.Created? && o.note.tid == e && !Full(k.threads[t].caps))))
  {
    assert ThreadOk(k.threads[t], t) && ThreadOk(k.threads[k.current], k.current);
    GrantEndpointOk(k.threads[t].caps, FirstFree(k.threads));
  }

  /** A SYS_GRANT_IO by thread 0 that finds room in the table of t. */
  predicate GrantsPorts(k: Kernel, ev: Event, t: nat, base: Port, len: Port)
    requires Shape(k) && Slot(t)
  {
    ev.Syscall? && ev.call == CallGrantIo(t, base, len) && k.current == 0 && !Full(k.threads[t].caps)
  }

  /** A step changes the port ranges of a thread only by adding one that thread 0 grants, or by
      making its slot anew. */
  lemma PortStep(k: Kernel, ev: Event, t: nat, r: (Port, Port))
    requires Shape(k) && Inv(k) && Enabled(k, ev) && Slot(t)
    ensures r in PortRanges(Step(k, ev).k.threads[t].caps) <==>
      && Step(k, ev).note != Created(t)
      && (r in PortRanges(k.threads[t].caps) || GrantsPorts(k, ev, t, r.0, r.1))
  {
    if !Grants(ev) {
      OtherStepsGrantNothing(k, ev);
    } else {
      match ev.call
      case CallGrantCap(tid, ep) => GrantCapRanges(k, tid, ep, t);
      case CallGrantIo(tid, base, len) => GrantIoRanges(k, tid, base, len, t);
      case CallSpawn(prog) => SpawnRanges(k, prog, t);
    }
  }

  lemma GrantCapRanges(k: Kernel, tid: int, ep: int, t: nat)
    requires Shape(k) && Inv(k) && Slot(k.current) && Slot(t)
    ensures var o := DoSyscall(k, k.current, CallGrantCap(tid, ep), 0);
      o.note.Quiet? && PortRanges(o.k.threads[t].caps) == PortRanges(k.threads[t].caps)
  {
    assert ThreadOk(k.threads[t], t);
    GrantEndpointOk(k.threads[t].caps, ep);
  }

  lemma GrantIoRanges(k: Kernel, tid: int, base: Port, len: Port, t: nat)
    requires Shape(k) && Inv(k) && Slot(k.current) && Slot(t)
    ensures var o := DoSyscall(k, k.current, CallGrantIo(tid, base, len), 0);
      && o.note.Quiet?
      && PortRanges(o.k.threads[t].caps) ==
         PortRanges(k.threads[t].caps) + (if t == tid && k.current == 0 && !Full(k.threads[t].caps) then {(base, len)} else {})
  {
    assert ThreadOk(k.threads[t], t) && ThreadOk(k.threads[k.current], k.current);
    GrantIoOk(k.threads[t].caps, base, len);
  }

  lemma SpawnRanges(k: Kernel, prog: int, t: nat)
    requires Shape(k) && Inv(k) && Slot(k.current) && Slot(t)
    ensures var o := DoSpawn(k, k.current, prog);
      && (o.note.Quiet? || o.note.Created?)
      && PortRanges(o.k.threads[t].caps) == if o.note == Created(t) then {} else PortRanges(k.threads[t].caps)
  {
    assert ThreadOk(k.threads[t], t) && ThreadOk(k.threads[k.current], k.current);
    GrantEndpointOk(k.threads[t].caps, FirstFree(k.threads));
  }

  // ---- open calls ----

  /** The open call of thread a after a step, in full. */
  function CallAfter(k: Kernel, e: Event, a: nat): int
    requires Shape(k) && Enabled(k, e) && Slot(a)
  {
    var note := Step(k, e).note;
    if note == Created(a) then -1
    else if k.current != a then k.threads[a].callTo
    else if e.Syscall? && e.call.CallSend? && SendAllowed(k, a, e.call.dest) then e.call.dest
    else if NoteReceives(note) && ReceiveKind(k, e).AfterRecv? && NoteFrom(note, k.threads[a].callTo) then -1
    else k.threads[a].callTo
  }

  lemma SendCallTo(k: Kernel, self: nat, dest: int, msg: Msg, a: nat)
    requires Shape(k) && Slot(self) && Slot(a)
    ensures var o := DoSend(k, self, dest, msg);
      && o.k.threads[a].callTo == (if a == self && SendAllowed(k, self, dest) then dest else k.threads[a].callTo)
      && !o.note.Created? && !NoteReceives(o.note)
  {
    if SendAllowed(k, self, dest) {
      SendSteady(Put(k, self, k.threads[self].(callTo := dest)), self, dest, msg, AfterSend, ToUser);
    }
  }

  lemma SyscallCallTo(k: Kernel, call: Call, stale: Word, a: nat)
    requires Shape(k) && Inv(k) && Enabled(k, Syscall(call, stale)) && Slot(a)
    ensures DoSyscall(k, k.current, call, stale).k.threads[a].callTo == CallAfter(k, Syscall(call, stale), a)
  {
    var self := k.current;
    match call
    case CallSend(dest, msg) => SendCallTo(k, self, dest, msg, a);
    case CallRecv(src) => ReceiveCloses(k, self, src, AfterRecv, stale);
    case CallExit => ScheduleSteady(Put(k, self, k.threads[self].(state := Dead)));
    case _ =>
  }

  lemma CallToStep(k: Kernel, e: Event, a: nat)
    requires Shape(k) && Inv(k) && Enabled(k, e) && Slot(a)
    ensures Step(k, e).k.threads[a].callTo == CallAfter(k, e, a)
  {
    var self := k.current;
    match e
    case Syscall(call, stale) => SyscallCallTo(k, call, stale, a);
    case Tick => ScheduleSteady(k);
    case Irq(_) =>
    case Fault(addr) =>
      var id := k.threads[self].id;
      SendSteady(k, self, k.pager, Msg(MSG_FAULT, if id < 0 then 0 else id % TWO_64, addr, 0), FaultSend, FaultCall);
    case GoOn(stale) => ContinueCloses(k, self, stale);
  }

  // ---- what rax tells ----

  /** A system call that returns -1 has changed nothing; but a send that passes its check and finds no
      living thread leaves an open call to that slot. */
  lemma FailureChangesNothing(k: Kernel, call: Call, stale: Word)
    requires Shape(k) && Inv(k) && Enabled(k, Syscall(call, stale))
    ensures var self := k.current; var o := DoSyscall(k, self, call, stale);
      Rax(k, self, call, o.note) == Some(-1) ==>
        (o.k == k <==> !(call.CallSend? && SendAllowed(k, self, call.dest) && k.threads[self].callTo != call.dest))
  {
    var self := k.current;
    var me := k.threads[self];
    assert ThreadOk(me, self);
    match call
    case CallSend(dest, msg) =>
      if SendAllowed(k, self, dest) {
        var t := me.(callTo := dest);
        assert Put(k, self, t).threads[self] == t;
        if !Addressable(k, dest) && me.callTo == dest {
          assert Put(Put(k, self, t), self, WithResume(t, ToUser)).threads == k.threads;
        }
      }
    case CallRecv(src) =>
      var s := FindSender(k.threads, me.id, src, 0);
      assert s < MAX_THREADS ==> ThreadOk(k.threads[s], s);
    case CallGrantIo(tid, base, len) =>
      if Slot(tid) && Full(k.threads[tid].caps) {
        assert k.threads[tid := k.threads[tid]] == k.threads;
      }
    case CallGrantCap(tid, ep) =>
      if Slot(tid) && Full(k.threads[tid].caps) {
        assert k.threads[tid := k.threads[tid]] == k.threads;
      }
    case _ =>
  }

  /** A grant that returns 0 has been made, and a spawn returns the thread it has made. */
  lemma SuccessTells(k: Kernel, call: Call, stale: Word)
    requires Shape(k) && Inv(k) && Enabled(k, Syscall(call, stale))
    ensures var o := DoSyscall(k, k.current, call, stale); var rax := Rax(k, k.current, call, o.note);
      match call
      case CallGrantCap(tid, ep) => rax == Some(0) ==> Slot(tid) && Holds(o.k, tid, ep)
      case CallGrantIo(tid, base, len) =>
        rax == Some(0) ==> Slot(tid) && (base, len) in PortRanges(o.k.threads[tid].caps)
      case CallSpawn(_) => rax.Some? && (rax.value != -1 ==>
          && Slot(rax.value) && (k.threads[rax.value].state.Unused? || k.threads[rax.value].state.Dead?)
          && o.k.threads[rax.value] == Fresh(k.threads[rax.value])
          && (Holds(o.k, k.current, rax.value) || Full(k.threads[k.current].caps)))
      case _ => true
  {
    assert ThreadOk(k.threads[k.current], k.current);
    match call
    case CallGrantCap(tid, ep) =>
      if Slot(tid) {
        assert ThreadOk(k.threads[tid], tid);
        GrantEndpointOk(k.threads[tid].caps, ep);
      }
    case CallGrantIo(tid, base, len) =>
      if Slot(tid) {
        assert ThreadOk(k.threads[tid], tid);
        GrantIoOk(k.threads[tid].caps, base, len);
      }
    case CallSpawn(_) => GrantEndpointOk(k.threads[k.current].caps, FirstFree(k.threads));
    case _ =>
  }
}
