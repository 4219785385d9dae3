/** What a receive returns: a message from whom it asked for, to the thread that asked, with its
    sender in rax; or an interrupt, of which every one that came for the thread is counted. */
module ReceiveLaws {
  import opened Options
  import opened Words
  import opened Capabilities
  import opened Threads
  import opened Ipc
  import opened Trap
  import opened KernelInvariants
  import opened Delivery
  import opened DeliverySteps
  import opened KernelRuns
  import opened StepEffects
  import opened StepLaws

  // ---- whom a receive asks for ----

  /** In this step thread t begins to receive from src: by SYS_RECV, or in a page fault, from the thread
      that is the pager then. */
  predicate Asks(k: Kernel, e: Event, t: nat, src: int)
    requires Shape(k) && Slot(t)
  {
    k.current == t &&
    ((e.Syscall? && e.call == CallRecv(src)) || (e.GoOn? && k.threads[t].resume.FaultCall? && src == k.pager))
  }

  /** Thread s is blocked sending to thread t. */
  predicate SendsToIt(k: Kernel, s: int, t: int)
    requires Shape(k)
  {
    Slot(s) && k.threads[s].state.Blocked? && k.threads[s].ipcState.Sending? && k.threads[s].peer == t
  }

  predicate Matches(src: int, from: int) {
    src == ANY || from == src
  }

  /** A receive takes a pending interrupt first; or else the message of the first thread, by number, of
      those asked for that is blocked sending to it; or else it sleeps, waiting for whom it asked. */
  lemma AsksExactly(k: Kernel, e: Event, t: nat, src: int)
    requires Shape(k) && Inv(k) && Slot(t) && Enabled(k, e) && Asks(k, e, t, src)
    ensures var o := Step(k, e);
      && (o.note.IrqTaken? <==> k.threads[t].irqPending > 0)
      && (o.note.Taken? <==> k.threads[t].irqPending == 0 && exists s | Slot(s) :: SendsToIt(k, s, t) && Matches(src, s))
      && (o.note.Taken? ==> var s := o.note.sender;
            && SendsToIt(k, s, t) && Matches(src, s) && o.note.from == s && o.note.msg == k.threads[s].buf
            && forall i | 0 <= i < s :: !(SendsToIt(k, i, t) && Matches(src, i)))
      && (!o.note.IrqTaken? && !o.note.Taken? ==> o.note.Quiet? && WaitsOnlyFor(o.k.threads[t], src))
  {
    var me := k.threads[t];
    assert ThreadOk(me, t);
    var s := FindSender(k.threads, t, src, 0);
    forall i | Slot(i)
      ensures WaitingSender(k.threads[i], t, src) <==> SendsToIt(k, i, t) && Matches(src, i)
    {
      assert ThreadOk(k.threads[i], i);
    }
    if me.irqPending == 0 && s == MAX_THREADS {
      ScheduleTurns(Put(k, t, WaitingFor(me, src, if e.Syscall? then AfterRecv else FaultRecv)), t);
    }
  }

  // ---- what another thread's step does to one's mail ----

  /** What a step by `self` does to another thread, i: its messages and interrupts change only as the
      note says. */
  ghost predicate Mail(t: Thread, t': Thread, note: Note, i: nat, self: int) {
    && t'.peer == t.peer
    && t'.source == (if note.Delivered? && note.dest == i then self else t.source)
    && t'.buf == (if note.Delivered? && note.dest == i then note.msg else t.buf)
    && t'.ipcState == (if (note.Delivered? && note.dest == i) || (note.Taken? && note.sender == i) then NoIpc else t.ipcState)
    && t'.irqPending == t.irqPending
    && (note.Delivered? && note.dest == i ==> ReceiverReady(t, self))
    && (note.Taken? && note.sender == i ==> t.ipcState.Sending?)
  }

  ghost predicate MailOf(k: Kernel, o: Outcome, i: nat, self: int)
    requires Shape(k) && Shape(o.k) && Slot(i)
  {
    Mail(k.threads[i], o.k.threads[i], o.note, i, self)
  }

  lemma SendMail(k: Kernel, self: nat, dest: int, msg: Msg, later: Resume, now: Resume, i: nat)
    requires Shape(k) && Slot(self) && k.threads[self].id == self && Slot(i) && i != self
    ensures MailOf(k, Send(k, self, dest, msg, later, now), i, self)
  {
    var me := k.threads[self];
    if Addressable(k, dest) && !ReceiverReady(k.threads[dest], self) {
      ScheduleTurns(Put(k, self, StagedOn(me, dest, msg, later)), i);
    }
  }

  lemma FinishTurns(k: Kernel, self: nat, later: Resume, from: int, verdict: Word, i: nat)
    requires Shape(k) && Slot(self) && Slot(i) && i != self
    ensures Turned(k.threads[i], Finish(k, self, later, from, verdict).0.threads[i])
  {
    ScheduleTurns(Put(k, self, Killed(k.threads[self])), i);
  }

  lemma ReceiveMail(k: Kernel, self: nat, src: int, later: Resume, stale: Word, i: nat)
    requires Shape(k) && Slot(self) && k.threads[self].id == self && Slot(i) && i != self
    ensures MailOf(k, Receive(k, self, src, later, stale), i, self)
  {
    var me := k.threads[self];
    var s := FindSender(k.threads, me.id, src, 0);
    if me.irqPending > 0 {
      FinishTurns(Put(k, self, LessIrq(me)), self, later, IRQ_SENDER, stale, i);
    } else if s < MAX_THREADS {
      FinishTurns(Put(k, s, Released(k.threads[s])), self, later, k.threads[s].id, k.threads[s].buf.data0, i);
    } else {
      ScheduleTurns(Put(k, self, WaitingFor(me, src, later)), i);
    }
  }

  lemma ContinueMail(k: Kernel, self: nat, stale: Word, i: nat)
    requires Shape(k) && Slot(self) && k.threads[self].id == self && Slot(i) && i != self
    ensures MailOf(k, Continue(k, self, stale), i, self)
  {
    var me := k.threads[self];
    match me.resume
    case FaultCall => ReceiveMail(k, self, k.pager, FaultRecv, stale, i);
    case AfterRecv => WokenMail(k, self, stale, i);
    case FaultRecv => WokenMail(k, self, stale, i);
    case _ =>
  }

  lemma WokenMail(k: Kernel, self: nat, stale: Word, i: nat)
    requires Shape(k) && Slot(self) && InRecv(k.threads[self].resume) && Slot(i) && i != self
    ensures MailOf(k, Continue(k, self, stale), i, self)
  {
    var me := k.threads[self];
    if me.ipcState.Receiving? {
      FinishTurns(Put(k, self, LessIrq(OutOfIpc(me))), self, me.resume, IRQ_SENDER, stale, i);
    } else {
      FinishTurns(Put(k, self, OutOfIpc(me)), self, me.resume, me.source, me.buf.data0, i);
    }
  }

  lemma SyscallMail(k: Kernel, call: Call, stale: Word, i: nat)
    requires Shape(k) && Inv(k) && Enabled(k, Syscall(call, stale)) && Slot(i) && i != k.current
    ensures var o := Step(k, Syscall(call, stale)); o.note != Created(i) ==> MailOf(k, o, i, k.current)
  {
    var self := k.current;
    var me := k.threads[self];
    assert ThreadOk(me, self);
    match call
    case CallSend(dest, msg) =>
      if SendAllowed(k, self, dest) {
        SendMail(Put(k, self, me.(callTo := dest)), self, dest, msg, AfterSend, ToUser, i);
      }
    case CallRecv(src) => ReceiveMail(k, self, src, AfterRecv, stale, i);
    case CallExit => ScheduleTurns(Put(k, self, me.(state := Dead)), i);
    case _ =>
  }

  lemma StepMail(k: Kernel, e: Event, i: nat)
    requires Shape(k) && Inv(k) && Enabled(k, e) && !e.Irq? && Slot(i) && i != k.current
    ensures Step(k, e).note != Created(i) ==> MailOf(k, Step(k, e), i, k.current)
  {
    if k.current != IDLE {
      assert ThreadOk(k.threads[k.current], k.current);
    }
    match e
    case Syscall(call, stale) => SyscallMail(k, call, stale, i);
    case Tick => ScheduleTurns(k, i);
    case Fault(addr) =>
      SendMail(k, k.current, k.pager, Msg(MSG_FAULT, k.threads[k.current].id % TWO_64, addr, 0), FaultSend, FaultCall, i);
    case GoOn(stale) => ContinueMail(k, k.current, stale, i);
  }

  // ---- a receive returns what it asked for ----

  /** Thread t is in a receive from src; a message that has reached it is from there. */
  ghost predicate ReceivesFrom(t: Thread, src: int) {
    && InRecv(t.resume) && t.peer == src && !t.ipcState.Sending?
    && (t.ipcState.NoIpc? ==> Matches(src, t.source))
  }

  lemma AsksWaits(k: Kernel, e: Event, t: nat, src: int)
    requires Shape(k) && Inv(k) && Slot(t) && Enabled(k, e) && Asks(k, e, t, src) && !NoteReceives(Step(k, e).note)
    ensures ReceivesFrom(Step(k, e).k.threads[t], src)
  {
    AsksExactly(k, e, t, src);
    StepLawful(k, e, t);
  }

  lemma StillReceives(k: Kernel, e: Event, t: nat, src: int)
    requires Shape(k) && Inv(k) && Slot(t) && Enabled(k, e) && ReceivesFrom(k.threads[t], src) && k.current != t
    ensures ReceivesFrom(Step(k, e).k.threads[t], src)
  {
    ReceiverNotMade(k, e, t, src);
    if e.Irq? {
      IrqExactly(k, e.irq, t);
    } else {
      StepMail(k, e, t);
      ResumeStep(k, e, t);
      MailReceives(k.threads[t], Step(k, e).k.threads[t], Step(k, e).note, t, k.current, src);
    }
  }

  lemma MailReceives(t: Thread, t': Thread, note: Note, i: nat, self: int, src: int)
    requires ReceivesFrom(t, src) && Mail(t, t', note, i, self) && t'.resume == t.resume
    ensures ReceivesFrom(t', src)
  {
  }

  lemma ReceiverNotMade(k: Kernel, e: Event, t: nat, src: int)
    requires Shape(k) && Inv(k) && Slot(t) && Enabled(k, e) && ReceivesFrom(k.threads[t], src)
    ensures Step(k, e).note != Created(t)
  {
    assert ThreadOk(k.threads[t], t);
    if Step(k, e).note == Created(t) {
      CreatedIsFree(k, e, t);
    }
  }

  lemma CreatedIsFree(k: Kernel, e: Event, t: nat)
    requires Shape(k) && Inv(k) && Enabled(k, e) && Slot(t) && Step(k, e).note == Created(t)
    ensures k.threads[t].state.Unused? || k.threads[t].state.Dead?
  {
    if !Grants(e) {
      OtherStepsGrantNothing(k, e);
    }
  }

  lemma ReceiveEnds(k: Kernel, e: Event, t: nat, src: int)
    requires Shape(k) && Inv(k) && Slot(t) && Enabled(k, e) && ReceivesFrom(k.threads[t], src) && k.current == t
    ensures var note := Step(k, e).note;
      NoteReceives(note) && (note.IrqTaken? || Matches(src, FromOf(note)))
  {
    assert ThreadOk(k.threads[t], t);
    assert e.GoOn?;
  }

  /** Thread t has not run since step i, in which it began to receive. */
  ghost predicate AsleepSince(ss: seq<System>, es: seq<Event>, i: nat, j: nat, t: nat)
    requires Behavior(ss, es) && j < |es|
  {
    forall m: nat | i < m < j :: WellShaped(ss[m]) && ss[m].k.current != t
  }

  lemma {:induction false} WaitsUntil(ss: seq<System>, es: seq<Event>, i: nat, j: nat, t: nat, src: int)
    requires Behavior(ss, es) && i < j < |es| && Slot(t) && WellShaped(ss[i]) && Asks(ss[i].k, es[i], t, src)
    requires !NoteReceives(Step(ss[i].k, es[i]).note) && AsleepSince(ss, es, i, j, t)
    ensures WellShaped(ss[j]) && ReceivesFrom(ss[j].k.threads[t], src)
    decreases j
  {
    Always(ss, es, j);
    if j == i + 1 {
      WaitsFirst(ss, es, i, t, src);
    } else {
      WaitsUntil(ss, es, i, j - 1, t, src);
      WaitsOn(ss, es, j - 1, t, src);
    }
  }

  lemma WaitsFirst(ss: seq<System>, es: seq<Event>, i: nat, t: nat, src: int)
    requires Behavior(ss, es) && i < |es| && Slot(t) && WellShaped(ss[i]) && WellShaped(ss[i + 1])
    requires Asks(ss[i].k, es[i], t, src) && !NoteReceives(Step(ss[i].k, es[i]).note)
    ensures ReceivesFrom(ss[i + 1].k.threads[t], src)
  {
    Always(ss, es, i);
    assert ss[i + 1] == Next(ss[i], es[i]);
    AsksWaits(ss[i].k, es[i], t, src);
  }

  lemma WaitsOn(ss: seq<System>, es: seq<Event>, m: nat, t: nat, src: int)
    requires Behavior(ss, es) && m < |es| && Slot(t) && WellShaped(ss[m]) && WellShaped(ss[m + 1])
    requires ReceivesFrom(ss[m].k.threads[t], src) && ss[m].k.current != t
    ensures ReceivesFrom(ss[m + 1].k.threads[t], src)
  {
    Always(ss, es, m);
    assert ss[m + 1] == Next(ss[m], es[m]);
    StillReceives(ss[m].k, es[m], t, src);
  }

  /** A receive ends when its thread next runs, at once or after others have run; and what it returns is
      a message from whom it asked for, or an interrupt. */
  lemma ReturnsAsked(ss: seq<System>, es: seq<Event>, i: nat, j: nat, t: nat, src: int)
    requires Behavior(ss, es) && i <= j < |es| && Slot(t)
    requires WellShaped(ss[i]) && Asks(ss[i].k, es[i], t, src)
    requires i < j ==> !NoteReceives(Step(ss[i].k, es[i]).note) && AsleepSince(ss, es, i, j, t)
    requires WellShaped(ss[j]) && ss[j].k.current == t
    ensures var note := Step(ss[j].k, es[j]).note;
      && (i < j ==> NoteReceives(note))
      && (NoteReceives(note) && !note.IrqTaken? ==> Matches(src, FromOf(note)))
  {
    Always(ss, es, j);
    if i == j {
      AsksExactly(ss[i].k, es[i], t, src);
      if NoteReceives(Step(ss[i].k, es[i]).note) {
        NotReturned(ss[i].k, es[i], t, src);
      }
    } else {
      WaitsUntil(ss, es, i, j, t, src);
      ReceiveEnds(ss[j].k, es[j], t, src);
    }
  }

  lemma NotReturned(k: Kernel, e: Event, t: nat, src: int)
    requires Shape(k) && Inv(k) && Slot(t) && Enabled(k, e) && Asks(k, e, t, src)
    ensures !Step(k, e).note.Returned?
  {
  }

  // ---- who gets it, and what rax says ----

  /** A receive that returns a message is recorded for the acting thread, with the message and its
      sender; and SYS_RECV leaves the sender's number in rax. */
  lemma RaxIsSender(s: System, e: Event)
    requires SystemInv(s) && Enabled(s.k, e) && NoteReceives(Step(s.k, e).note)
    ensures var note, h' := Step(s.k, e).note, Next(s, e).h;
      if note.IrqTaken? then RaxOf(note) == Some(-2) && h'.receipts == s.h.receipts
      else
        && |h'.receipts| == |s.h.receipts| + 1
        && var r := h'.receipts[|s.h.receipts|];
           && r.tid == s.k.current && r.call < |s.h.calls| && RaxOf(note) == Some(r.source)
           && r.source == s.h.calls[r.call].source && r.msg == s.h.calls[r.call].msg && r.msg == note.msg
           && h'.calls[r.call].phase.Received?
  {
    var note, self := Step(s.k, e).note, s.k.current;
    if note.Taken? {
      TakenFacts(s, e);
      assert ThreadHist(s.k.threads, s.h, note.sender);
      assert CallOk(s.k.threads, s.h, s.h.sendOf[note.sender]);
      TakenNote(s, e);
    } else if note.Returned? {
      ReturnedFacts(s, e);
      assert ThreadHist(s.k.threads, s.h, self);
      assert CallOk(s.k.threads, s.h, s.h.inBuf[self]);
      ReturnedNote(s, e);
    }
  }

  lemma TakenNote(s: System, e: Event)
    requires SystemInv(s) && Enabled(s.k, e) && Step(s.k, e).note.Taken?
    ensures var note := Step(s.k, e).note; note.from == note.sender && note.msg == s.k.threads[note.sender].buf
  {
    assert ThreadOk(s.k.threads[Step(s.k, e).note.sender], Step(s.k, e).note.sender);
  }

  lemma ReturnedNote(s: System, e: Event)
    requires SystemInv(s) && Enabled(s.k, e) && Step(s.k, e).note.Returned?
    ensures var note, me := Step(s.k, e).note, s.k.threads[s.k.current]; note.from == me.source && note.msg == me.buf
  {
  }

  // ---- every interrupt counts ----

  /** An interrupt on this line is for thread t: it is registered for the line, and lives. */
  predicate ComesFor(k: Kernel, e: Event, t: nat)
    requires Shape(k) && Enabled(k, e)
  {
    e.Irq? && k.irqTid[e.irq] == t && Lives(k, t)
  }

  /** A device interrupt adds one to the count of the thread it is for, whatever is pending already, and
      wakes it if it sleeps in a receive; nothing else changes. */
  lemma IrqExactly(k: Kernel, irq: nat, t: nat)
    requires Shape(k) && Inv(k) && Enabled(k, Irq(irq)) && Slot(t)
    ensures var x, x' := k.threads[t], Step(k, Irq(irq)).k.threads[t];
      if ComesFor(k, Irq(irq), t) then
        && x'.irqPending == x.irqPending + 1
        && x' == x.(irqPending := x'.irqPending,
                    state := if x.state.Blocked? && x.ipcState.Receiving? then Runnable else x.state)
      else x' == x
    ensures var k' := Step(k, Irq(irq)).k; k'.current == k.current && k'.pager == k.pager && k'.irqTid == k.irqTid
  {
  }

  /** How many interrupts have come for the thread that is in slot t at state n. */
  ghost function Arrivals(ss: seq<System>, es: seq<Event>, n: nat, t: nat): nat
    requires Behavior(ss, es) && n < |ss| && Slot(t)
    decreases n
  {
    if n == 0 then 0
    else
      var k, e := ss[n - 1].k, es[n - 1];
      if Step(k, e).note == Created(t) then 0
      else Arrivals(ss, es, n - 1, t) + if ComesFor(k, e, t) then 1 else 0
  }

  lemma PostedStep(s: System, e: Event, t: nat)
    requires SystemInv(s) && Enabled(s.k, e) && Slot(t)
    ensures Next(s, e).h.posted[t] ==
      if Step(s.k, e).note == Created(t) then 0 else s.h.posted[t] + if ComesFor(s.k, e, t) then 1 else 0
  {
    if !e.Irq? {
      OnlyIrqsPost(s.k, e);
    }
  }

  lemma OnlyIrqsPost(k: Kernel, e: Event)
    requires Shape(k) && Inv(k) && Enabled(k, e) && !e.Irq?
    ensures !Step(k, e).note.IrqPosted?
  {
  }

  lemma {:induction false} PostedIsArrivals(ss: seq<System>, es: seq<Event>, n: nat, t: nat)
    requires Behavior(ss, es) && n < |ss| && Slot(t)
    ensures WellShaped(ss[n]) && ss[n].h.posted[t] == Arrivals(ss, es, n, t)
    decreases n
  {
    Always(ss, es, n);
    if n == 0 {
    } else {
      PostedIsArrivals(ss, es, n - 1, t);
      PostedAt(ss, es, n - 1, t);
    }
  }

  lemma PostedAt(ss: seq<System>, es: seq<Event>, m: nat, t: nat)
    requires Behavior(ss, es) && m < |es| && Slot(t) && WellShaped(ss[m]) && WellShaped(ss[m + 1])
    ensures ss[m + 1].h.posted[t] ==
      if Step(ss[m].k, es[m]).note == Created(t) then 0 else ss[m].h.posted[t] + if ComesFor(ss[m].k, es[m], t) then 1 else 0
  {
    Always(ss, es, m);
    PostedStep(ss[m], es[m], t);
    assert ss[m + 1] == Next(ss[m], es[m]);
  }

  /** Of the interrupts that have come for a thread, every one is pending, has been returned to its user
      code, or was lost to its page faults. */
  lemma NoInterruptLost(ss: seq<System>, es: seq<Event>, n: nat, t: nat)
    requires Behavior(ss, es) && n < |ss| && Slot(t)
    ensures WellShaped(ss[n])
    ensures Arrivals(ss, es, n, t) == ss[n].h.taken[t] + ss[n].h.swallowed[t] + ss[n].k.threads[t].irqPending
  {
    PostedIsArrivals(ss, es, n, t);
    InterruptsConserved(ss, es, n, t);
  }
}
