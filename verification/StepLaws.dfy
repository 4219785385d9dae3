/** What one step does to each thread: where it goes on, whether it sleeps, wakes or dies, and what
    became of its call. The laws speak of the step's event and its note, for every thread. */
module StepLaws {
  import opened Options
  import opened Words
  import opened Capabilities
  import opened Threads
  import opened Ipc
  import opened Trap
  import opened KernelInvariants
  import opened StepEffects

  // ---- who runs ----

  /** t' is t, but perhaps made to run or to wait its turn. */
  predicate Turned(t: Thread, t': Thread) {
    t' == t.(state := t'.state) && (t'.state == t.state || (CanRun(t) && CanRun(t')))
  }

  predicate CanRun(t: Thread) {
    t.state.Runnable? || t.state.Running?
  }

  lemma ScheduleTurns(k: Kernel, i: nat)
    requires Shape(k) && Slot(i)
    ensures Turned(k.threads[i], Schedule(k).threads[i])
    ensures Schedule(k).pager == k.pager && Schedule(k).irqTid == k.irqTid
  {
  }

  /** schedule() runs the runnable thread that comes first after the current one, and the idle context
      only if there is none. */
  ghost predicate NextInTurn(from: int, k': Kernel)
    requires Shape(k') && IDLE <= from < MAX_THREADS
  {
    forall i | Slot(i) && i != from && i != k'.current && k'.threads[i].state.Runnable? ::
      k'.current != IDLE && Distance(from + 1, k'.current) < Distance(from + 1, i)
  }

  lemma ScheduleInTurn(k: Kernel)
    requires Shape(k)
    ensures NextInTurn(k.current, Schedule(k))
  {
    var start, k' := k.current + 1, Schedule(k);
    FindsNearest(k.threads, start, 0);
    forall i | Slot(i) && i != k.current && i != k'.current && k'.threads[i].state.Runnable?
      ensures k'.current != IDLE && Distance(start, k'.current) < Distance(start, i)
    {
      assert k.threads[i].state.Runnable? && Distance(start, i) >= 0;
      DistanceTells(start, k'.current, i);
    }
  }

  lemma DistanceTells(start: nat, i: int, j: nat)
    requires start <= MAX_THREADS && Slot(j)
    ensures Slot(i) && i != j ==> Distance(start, i) != Distance(start, j)
  {
  }

  // ---- the laws ----

  /** The first data word of what a receive returned; after an interrupt the caller's variable holds
      what it held. */
  function VerdictOf(note: Note, stale: Word): Word
    requires NoteReceives(note)
  {
    match note
    case Taken(_, _, msg) => msg.data0
    case Returned(_, msg) => msg.data0
    case IrqTaken(_) => stale
  }

  /** A step whose note is this wakes thread i, which is t before it. */
  predicate Wakes(note: Note, t: Thread, i: nat) {
    match note
    case Delivered(dest, _) => dest == i
    case Taken(sender, _, _) => sender == i
    case IrqPosted(tid) => tid == i && t.ipcState.Receiving?
    case _ => false
  }

  /** What outcome o does to thread i, which is t before and t' after: the acting thread goes on at
      `resume`, sleeps or dies; another one sleeps on unless it is woken. */
  ghost predicate Law(t: Thread, t': Thread, note: Note, acts: bool, i: nat, resume: Resume, sleeps: bool, dies: bool) {
    if acts then t'.resume == resume && t'.state.Blocked? == sleeps && t'.state.Dead? == dies
    else
      && t'.resume == t.resume && t'.state.Dead? == t.state.Dead?
      && t'.state.Blocked? == (t.state.Blocked? && !Wakes(note, t, i))
  }

  /** The law for every thread, and for who runs next. */
  ghost predicate Lawful(k: Kernel, o: Outcome, self: int, i: nat, resume: Resume, sleeps: bool, dies: bool)
    requires Shape(k) && Shape(o.k) && Slot(i)
  {
    && Law(k.threads[i], o.k.threads[i], o.note, i == self, i, resume, sleeps, dies)
    && (o.yielded == (sleeps || dies)) && (if o.yielded then NextInTurn(k.current, o.k) else o.k.current == k.current)
    && o.k.irqTid == k.irqTid && o.k.pager == k.pager
  }

  lemma YieldLawful(k: Kernel, k1: Kernel, note: Note, self: nat, i: nat, resume: Resume, dies: bool)
    requires Shape(k) && Shape(k1) && Slot(self) && Slot(i) && k1.current == k.current == self
    requires Law(k.threads[i], k1.threads[i], note, i == self, i, resume, !dies, dies)
    requires k1.irqTid == k.irqTid && k1.pager == k.pager
    ensures Lawful(k, Outcome(Schedule(k1), note, true), self, i, resume, !dies, dies)
  {
    ScheduleTurns(k1, i);
    ScheduleInTurn(k1);
  }

  /** A thread that runs, and is in no send or receive. */
  ghost predicate Acts(k: Kernel, self: nat)
    requires Shape(k)
  {
    Slot(self) && self == k.current && Inv(k) && k.threads[self].ipcState.NoIpc?
  }

  lemma SendLawful(k: Kernel, self: nat, dest: int, msg: Msg, later: Resume, now: Resume, i: nat)
    requires Shape(k) && Acts(k, self) && Slot(i)
    ensures var o := Send(k, self, dest, msg, later, now); var staged := o.note.Staged?;
      Lawful(k, o, self, i, if staged then later else now, staged, false)
  {
    var me := k.threads[self];
    assert ThreadOk(me, self) && ThreadOk(k.threads[i], i);
    if Addressable(k, dest) && !ReceiverReady(k.threads[dest], me.id) {
      YieldLawful(k, Put(k, self, StagedOn(me, dest, msg, later)), Staged(dest, msg), self, i, later, false);
    }
  }

  lemma FinishLawful(k: Kernel, k1: Kernel, note: Note, self: nat, later: Resume, from: int, verdict: Word, i: nat)
    requires Shape(k) && Shape(k1) && Slot(self) && Slot(i) && k1.current == k.current == self && NoteShape(note)
    requires k1.threads[self].state.Running? && k1.irqTid == k.irqTid && k1.pager == k.pager
    requires i != self ==> Law(k.threads[i], k1.threads[i], note, false, i, ToUser, false, false)
    ensures var r := Finish(k1, self, later, from, verdict);
      Lawful(k, Outcome(r.0, note, r.1), self, i, ToUser, false, !later.AfterRecv? && verdict != 0)
  {
    if !later.AfterRecv? && verdict != 0 {
      YieldLawful(k, Put(k1, self, Killed(k1.threads[self])), note, self, i, ToUser, true);
    }
  }

  lemma ReceiveLawful(k: Kernel, self: nat, src: int, later: Resume, stale: Word, i: nat)
    requires Shape(k) && Acts(k, self) && Slot(i)
    ensures var o := Receive(k, self, src, later, stale); var got := NoteReceives(o.note);
      Lawful(k, o, self, i, if got then ToUser else later, !got, got && !later.AfterRecv? && VerdictOf(o.note, stale) != 0)
  {
    var me := k.threads[self];
    assert ThreadOk(me, self) && ThreadOk(k.threads[i], i);
    var s := FindSender(k.threads, me.id, src, 0);
    if me.irqPending > 0 {
      FinishLawful(k, Put(k, self, LessIrq(me)), IrqTaken(later.AfterRecv?), self, later, IRQ_SENDER, stale, i);
    } else if s < MAX_THREADS {
      var snd := k.threads[s];
      FinishLawful(k, Put(k, s, Released(snd)), Taken(s, snd.id, snd.buf), self, later, snd.id, snd.buf.data0, i);
    } else {
      YieldLawful(k, Put(k, self, WaitingFor(me, src, later)), Quiet, self, i, later, false);
    }
  }

  lemma WokenLawful(k: Kernel, self: nat, stale: Word, i: nat)
    requires Shape(k) && Inv(k) && Slot(self) && self == k.current && Slot(i) && InRecv(k.threads[self].resume)
    ensures var o := Continue(k, self, stale);
      && NoteReceives(o.note)
      && Lawful(k, o, self, i, ToUser, false, !k.threads[self].resume.AfterRecv? && VerdictOf(o.note, stale) != 0)
  {
    var me := k.threads[self];
    assert ThreadOk(me, self) && ThreadOk(k.threads[i], i);
    if me.ipcState.Receiving? {
      FinishLawful(k, Put(k, self, LessIrq(OutOfIpc(me))), IrqTaken(me.resume.AfterRecv?), self, me.resume, IRQ_SENDER, stale, i);
    } else {
      FinishLawful(k, Put(k, self, OutOfIpc(me)), Returned(me.source, me.buf), self, me.resume, me.source, me.buf.data0, i);
    }
  }

  // ---- every step ----

  /** The step is, or ends, a receive of the acting thread. */
  predicate InReceive(k: Kernel, e: Event)
    requires Shape(k) && Enabled(k, e)
  {
    || (e.Syscall? && e.call.CallRecv?)
    || (e.GoOn? && k.current != IDLE && (InRecv(k.threads[k.current].resume) || k.threads[k.current].resume.FaultCall?))
  }

  /** The step puts the acting thread to sleep: its message waits, or it waits for one. */
  predicate Sleeps(k: Kernel, e: Event)
    requires Shape(k) && Enabled(k, e)
  {
    var note := Step(k, e).note;
    note.Staged? || (InReceive(k, e) && !NoteReceives(note))
  }

  function StaleOf(e: Event): Word {
    match e
    case Syscall(_, stale) => stale
    case GoOn(stale) => stale
    case _ => 0
  }

  /** The step ends the acting thread: it exits, or a page fault of its gets a verdict other than 0. */
  predicate Dies(k: Kernel, e: Event)
    requires Shape(k) && Enabled(k, e)
  {
    var note := Step(k, e).note;
    || (e.Syscall? && e.call.CallExit?)
    || (NoteReceives(note) && ReceiveKind(k, e).FaultRecv? && VerdictOf(note, StaleOf(e)) != 0)
  }

  /** Where the acting thread goes on after the step. */
  function GoesOnAt(k: Kernel, e: Event): Resume
    requires Shape(k) && Enabled(k, e) && k.current != IDLE
  {
    var note, here := Step(k, e).note, k.threads[k.current].resume;
    if note.Staged? then (if e.Fault? then FaultSend else AfterSend)
    else if e.Fault? then FaultCall
    else if note.SendDone? then (if here.FaultSend? then FaultCall else ToUser)
    else if InReceive(k, e) && !NoteReceives(note) then (if here.FaultCall? then FaultRecv else AfterRecv)
    else if NoteReceives(note) then ToUser
    else here
  }

  /** Where each thread goes on after a step. A new thread starts in user code. A fault leaves user code
      for good until a receive of the thread returns; so does a blocked call until it is done. */
  lemma ResumeStep(k: Kernel, e: Event, i: nat)
    requires Shape(k) && Inv(k) && Enabled(k, e) && Slot(i)
    ensures Step(k, e).k.threads[i].resume ==
      if Step(k, e).note == Created(i) then ToUser
      else if i == k.current then GoesOnAt(k, e)
      else k.threads[i].resume
  {
    StepLawful(k, e, i);
  }

  /** Which threads are blocked after a step: who was and was not woken, and who goes to sleep in it. */
  lemma BlockedStep(k: Kernel, e: Event, i: nat)
    requires Shape(k) && Inv(k) && Enabled(k, e) && Slot(i)
    ensures Step(k, e).k.threads[i].state.Blocked? <==>
      if i == k.current then Sleeps(k, e)
      else k.threads[i].state.Blocked? && !Wakes(Step(k, e).note, k.threads[i], i)
  {
    StepLawful(k, e, i);
    assert ThreadOk(k.threads[i], i);
  }

  /** A thread dies exactly by its exit or by a verdict, and stays dead until its slot is made anew. */
  lemma DeadStep(k: Kernel, e: Event, i: nat)
    requires Shape(k) && Inv(k) && Enabled(k, e) && Slot(i)
    ensures Step(k, e).k.threads[i].state.Dead? <==>
      if i == k.current then Dies(k, e)
      else k.threads[i].state.Dead? && Step(k, e).note != Created(i)
  {
    StepLawful(k, e, i);
  }

  /** The processor changes hands exactly at a tick and when the acting thread sleeps or dies, and then
      goes to the runnable thread that comes next in cyclic order. */
  lemma YieldStep(k: Kernel, e: Event)
    requires Shape(k) && Inv(k) && Enabled(k, e)
    ensures var o := Step(k, e);
      if e.Tick? || Sleeps(k, e) || Dies(k, e) then NextInTurn(k.current, o.k) else o.k.current == k.current
  {
    StepLawful(k, e, 0);
  }

  /** The pager is the last thread to have asked for it, and so is the handler of an interrupt line. */
  lemma RegistersStep(k: Kernel, e: Event)
    requires Shape(k) && Inv(k) && Enabled(k, e)
    ensures var k' := Step(k, e).k;
      && k'.pager == (if e.Syscall? && e.call.CallSetPager? then k.current else k.pager)
      && forall line | 0 <= line < 16 ::
           k'.irqTid[line] == if e.Syscall? && e.call == CallIrqRegister(line) then k.current else k.irqTid[line]
  {
    StepLawful(k, e, 0);
    if k.current != IDLE {
      assert ThreadOk(k.threads[k.current], k.current);
    }
  }

  /** The laws in one. */
  ghost predicate Obeys(k: Kernel, e: Event, o: Outcome, i: nat)
    requires Shape(k) && Enabled(k, e) && Shape(o.k) && Slot(i)
  {
    var t, t' := k.threads[i], o.k.threads[i];
    && (o.note == Created(i) ==> i != k.current && t'.resume.ToUser? && !t.state.Blocked? && t'.state.Runnable?)
    && (o.note != Created(i) ==>
          && (i == k.current ==>
                t'.resume == GoesOnAt(k, e) && t'.state.Blocked? == Sleeps(k, e) && t'.state.Dead? == Dies(k, e))
          && (i != k.current ==>
                && t'.resume == t.resume && t'.state.Dead? == t.state.Dead?
                && t'.state.Blocked? == (t.state.Blocked? && !Wakes(o.note, t, i))))
    && (if e.Tick? || Sleeps(k, e) || Dies(k, e) then NextInTurn(k.current, o.k) else o.k.current == k.current)
    && (!(e.Syscall? && (e.call.CallSetPager? || e.call.CallIrqRegister?)) ==> o.k.pager == k.pager && o.k.irqTid == k.irqTid)
  }

  lemma SyscallLawful(k: Kernel, call: Call, stale: Word, i: nat)
    requires Shape(k) && Inv(k) && Enabled(k, Syscall(call, stale)) && Slot(i)
    ensures Obeys(k, Syscall(call, stale), Step(k, Syscall(call, stale)), i)
  {
    match call
    case CallSend(dest, msg) => DoSendLawful(k, dest, msg, stale, i);
    case CallRecv(src) => DoRecvLawful(k, src, stale, i);
    case CallExit => ExitLawful(k, stale, i);
    case CallSpawn(prog) => SpawnLawful(k, prog, stale, i);
    case _ => OtherLawful(k, call, stale, i);
  }

  lemma DoRecvLawful(k: Kernel, src: int, stale: Word, i: nat)
    requires Shape(k) && Inv(k) && Enabled(k, Syscall(CallRecv(src), stale)) && Slot(i)
    ensures var e := Syscall(CallRecv(src), stale); Obeys(k, e, Step(k, e), i)
  {
    assert ThreadOk(k.threads[k.current], k.current);
    ReceiveLawful(k, k.current, src, AfterRecv, stale, i);
  }

  lemma ExitLawful(k: Kernel, stale: Word, i: nat)
    requires Shape(k) && Inv(k) && Enabled(k, Syscall(CallExit, stale)) && Slot(i)
    ensures var e := Syscall(CallExit, stale); Obeys(k, e, Step(k, e), i)
  {
    var self := k.current;
    assert ThreadOk(k.threads[i], i) && ThreadOk(k.threads[self], self);
    YieldLawful(k, Put(k, self, k.threads[self].(state := Dead)), Quiet, self, i, ToUser, true);
  }

  lemma SpawnLawful(k: Kernel, prog: int, stale: Word, i: nat)
    requires Shape(k) && Inv(k) && Enabled(k, Syscall(CallSpawn(prog), stale)) && Slot(i)
    ensures var e := Syscall(CallSpawn(prog), stale); Obeys(k, e, Step(k, e), i)
  {
    assert ThreadOk(k.threads[i], i) && ThreadOk(k.threads[k.current], k.current);
  }

  /** The other calls change neither states nor places. */
  lemma OtherLawful(k: Kernel, call: Call, stale: Word, i: nat)
    requires Shape(k) && Inv(k) && Enabled(k, Syscall(call, stale)) && Slot(i)
    requires !call.CallSend? && !call.CallRecv? && !call.CallExit? && !call.CallSpawn?
    ensures var e := Syscall(call, stale); Obeys(k, e, Step(k, e), i)
  {
    assert ThreadOk(k.threads[i], i) && ThreadOk(k.threads[k.current], k.current);
  }

  lemma DoSendLawful(k: Kernel, dest: int, msg: Msg, stale: Word, i: nat)
    requires Shape(k) && Inv(k) && Enabled(k, Syscall(CallSend(dest, msg), stale)) && Slot(i)
    ensures var e := Syscall(CallSend(dest, msg), stale); Obeys(k, e, Step(k, e), i)
  {
    var self := k.current;
    var me := k.threads[self];
    assert ThreadOk(me, self) && ThreadOk(k.threads[i], i);
    if SendAllowed(k, self, dest) {
      var t := me.(callTo := dest);
      PutAwake(k, self, t);
      SendLawful(Put(k, self, t), self, dest, msg, AfterSend, ToUser, i);
    }
  }

  lemma StepLawful(k: Kernel, e: Event, i: nat)
    requires Shape(k) && Inv(k) && Enabled(k, e) && Slot(i)
    ensures Obeys(k, e, Step(k, e), i)
  {
    match e
    case Syscall(call, stale) => SyscallLawful(k, call, stale, i);
    case Tick => TickLawful(k, i);
    case Irq(irq) => IrqLawful(k, irq, i);
    case Fault(addr) => FaultLawful(k, addr, i);
    case GoOn(stale) => GoOnLawful(k, stale, i);
  }

  lemma TickLawful(k: Kernel, i: nat)
    requires Shape(k) && Inv(k) && Enabled(k, Tick) && Slot(i)
    ensures Obeys(k, Tick, Step(k, Tick), i)
  {
    assert ThreadOk(k.threads[i], i);
    ScheduleTurns(k, i);
    ScheduleInTurn(k);
  }

  lemma IrqLawful(k: Kernel, irq: nat, i: nat)
    requires Shape(k) && Inv(k) && Enabled(k, Irq(irq)) && Slot(i)
    ensures Obeys(k, Irq(irq), Step(k, Irq(irq)), i)
  {
    assert ThreadOk(k.threads[i], i);
  }

  lemma FaultLawful(k: Kernel, addr: Word, i: nat)
    requires Shape(k) && Inv(k) && Enabled(k, Fault(addr)) && Slot(i)
    ensures Obeys(k, Fault(addr), Step(k, Fault(addr)), i)
  {
    var self := k.current;
    assert ThreadOk(k.threads[i], i) && ThreadOk(k.threads[self], self);
    SendLawful(k, self, k.pager, Msg(MSG_FAULT, k.threads[self].id % TWO_64, addr, 0), FaultSend, FaultCall, i);
  }

  lemma GoOnLawful(k: Kernel, stale: Word, i: nat)
    requires Shape(k) && Inv(k) && Enabled(k, GoOn(stale)) && Slot(i)
    ensures Obeys(k, GoOn(stale), Step(k, GoOn(stale)), i)
  {
    match k.threads[k.current].resume
    case FaultCall => FaultCallLawful(k, stale, i);
    case AfterRecv => WokenObeys(k, stale, i);
    case FaultRecv => WokenObeys(k, stale, i);
    case _ => SendDoneLawful(k, stale, i);
  }

  lemma FaultCallLawful(k: Kernel, stale: Word, i: nat)
    requires Shape(k) && Inv(k) && Enabled(k, GoOn(stale)) && Slot(i) && k.threads[k.current].resume.FaultCall?
    ensures Obeys(k, GoOn(stale), Step(k, GoOn(stale)), i)
  {
    assert ThreadOk(k.threads[k.current], k.current);
    ReceiveLawful(k, k.current, k.pager, FaultRecv, stale, i);
  }

  lemma WokenObeys(k: Kernel, stale: Word, i: nat)
    requires Shape(k) && Inv(k) && Enabled(k, GoOn(stale)) && Slot(i) && InRecv(k.threads[k.current].resume)
    ensures Obeys(k, GoOn(stale), Step(k, GoOn(stale)), i)
  {
    WokenLawful(k, k.current, stale, i);
  }

  lemma SendDoneLawful(k: Kernel, stale: Word, i: nat)
    requires Shape(k) && Inv(k) && Enabled(k, GoOn(stale)) && Slot(i) && InSend(k.threads[k.current].resume)
    ensures Obeys(k, GoOn(stale), Step(k, GoOn(stale)), i)
  {
    assert ThreadOk(k.threads[k.current], k.current) && ThreadOk(k.threads[i], i);
  }

  // ---- verdicts ----

  /** A page fault's receive that returns decides by the first data word: the faulting thread dies
      exactly if that is not 0, and otherwise goes on in user code at once. The word is the pager's
      message's, or, after an interrupt, whatever the reply variable held. */
  lemma VerdictDecides(k: Kernel, e: Event)
    requires Shape(k) && Inv(k) && Enabled(k, e) && NoteReceives(Step(k, e).note)
    requires k.threads[k.current].resume.FaultCall? || k.threads[k.current].resume.FaultRecv?
    ensures var f := k.current; var k' := Step(k, e).k; var t := k'.threads[f];
      if VerdictOf(Step(k, e).note, StaleOf(e)) != 0 then t.state.Dead? && k'.current != f
      else t.state.Running? && k'.current == f && t.resume.ToUser?
  {
    StepLawful(k, e, k.current);
    StepKeeps(k, e);
  }

  /** No word that SYS_RECV returns kills: its caller goes on in user code at once. */
  lemma ReceiveSpares(k: Kernel, e: Event)
    requires Shape(k) && Inv(k) && Enabled(k, e) && NoteReceives(Step(k, e).note) && ReceiveKind(k, e).AfterRecv?
    ensures var k' := Step(k, e).k;
      k'.current == k.current && k'.threads[k.current].state.Running? && k'.threads[k.current].resume.ToUser?
  {
    StepLawful(k, e, k.current);
    StepKeeps(k, e);
  }

  // ---- sends, faults and spawns ----

  /** Thread t is blocked receiving from thread p alone. */
  predicate WaitsOnlyFor(t: Thread, p: int) {
    t.state.Blocked? && t.ipcState.Receiving? && t.peer == p
  }

  /** Thread t is blocked receiving from thread p, or from anybody. */
  predicate WaitsFor(t: Thread, p: int) {
    WaitsOnlyFor(t, p) || WaitsOnlyFor(t, ANY)
  }

  predicate Lives(k: Kernel, i: int)
    requires Shape(k)
  {
    Slot(i) && !k.threads[i].state.Unused? && !k.threads[i].state.Dead?
  }

  /** SYS_SEND, for any destination: who may send, and what becomes of the message. */
  lemma SendExactly(k: Kernel, dest: int, msg: Msg, stale: Word)
    requires Shape(k) && Inv(k) && Enabled(k, Syscall(CallSend(dest, msg), stale))
    ensures var p, note := k.current, Step(k, Syscall(CallSend(dest, msg), stale)).note;
      var allowed := p == 0 || dest == 0 || Holds(k, p, dest)
                     || (Slot(dest) && (k.threads[dest].callTo == p || WaitsOnlyFor(k.threads[dest], p)));
      note == if !allowed || !Lives(k, dest) then Refused
              else if WaitsFor(k.threads[dest], p) then Delivered(dest, msg)
              else Staged(dest, msg)
  {
    assert ThreadOk(k.threads[k.current], k.current);
    if Slot(dest) {
      assert ThreadOk(k.threads[dest], dest);
    }
  }

  /** A page fault tells the pager who faulted, and where. */
  lemma FaultTells(k: Kernel, addr: Word)
    requires Shape(k) && Inv(k) && Enabled(k, Fault(addr))
    ensures var note := Step(k, Fault(addr)).note; var msg := Msg(MSG_FAULT, k.current, addr, 0);
      note == if !Lives(k, k.pager) then Refused
              else if WaitsFor(k.threads[k.pager], k.current) then Delivered(k.pager, msg)
              else Staged(k.pager, msg)
  {
    var self, msg := k.current, Msg(MSG_FAULT, k.current, addr, 0);
    assert ThreadOk(k.threads[self], self);
    NumberFits(self);
    assert Step(k, Fault(addr)) == Send(k, self, k.pager, msg, FaultSend, FaultCall);
    SendNote(k, self, k.pager, msg, FaultSend, FaultCall);
  }

  lemma NumberFits(id: nat)
    requires Slot(id)
    ensures id % TWO_64 == id
  {
  }

  lemma SendNote(k: Kernel, self: nat, dest: int, msg: Msg, later: Resume, now: Resume)
    requires Shape(k) && Slot(self) && k.threads[self].id == self
    ensures Send(k, self, dest, msg, later, now).note ==
      if !Lives(k, dest) then Refused else if WaitsFor(k.threads[dest], self) then Delivered(dest, msg) else Staged(dest, msg)
  {
  }

  lemma {:induction false} LowestFree(ts: seq<Thread>, j: nat)
    requires j < FirstFree(ts)
    ensures j < |ts| && !ts[j].state.Unused? && !ts[j].state.Dead?
    decreases |ts|
  {
    if j == 0 {
    } else {
      LowestFree(ts[1..], j - 1);
    }
  }

  /** SYS_SPAWN makes a thread exactly if there is such a program and a slot without a living thread,
      and takes the first one. */
  lemma SpawnExactly(k: Kernel, prog: int, stale: Word)
    requires Shape(k) && Inv(k) && Enabled(k, Syscall(CallSpawn(prog), stale))
    ensures var o := Step(k, Syscall(CallSpawn(prog), stale));
      && (o.note.Created? <==> 0 <= prog < 12 && exists i | Slot(i) :: !Lives(k, i))
      && (o.note.Created? ==> !Lives(k, o.note.tid) && forall i | 0 <= i < o.note.tid :: Lives(k, i))
      && (!o.note.Created? ==> o.k == k)
  {
    var c := FirstFree(k.threads);
    forall i | 0 <= i < c
      ensures i < MAX_THREADS && Lives(k, i)
    {
      LowestFree(k.threads, i);
    }
  }
}
