/** Whole runs of the kernel, under every interleaving of system calls, ticks, interrupts and page
    faults: no rendezvous is lost, messages are delivered exactly once, interrupts are conserved. */
module KernelRuns {
  import opened Words
  import opened Capabilities
  import opened Threads
  import opened Ipc
  import opened Trap
  import opened KernelInvariants
  import opened Delivery
  import opened DeliverySteps

  datatype System = System(k: Kernel, h: History)

  predicate WellShaped(s: System) {
    Shape(s.k) && HistShape(s.h)
  }

  function Next(s: System, e: Event): (s': System)
    requires WellShaped(s) && Enabled(s.k, e)
    ensures WellShaped(s')
  {
    var o := Step(s.k, e);
    System(o.k, Record(s.h, s.k.current, o.note))
  }

  function Start(): (s: System)
    ensures WellShaped(s)
  {
    System(Booted(), NoHistory())
  }

  /** The states ss of a run from start-up whose steps are es. */
  ghost predicate Behavior(ss: seq<System>, es: seq<Event>) {
    && |ss| == |es| + 1 && ss[0] == Start()
    && forall i: nat {:trigger es[i]} | i < |es| :: WellShaped(ss[i]) && Enabled(ss[i].k, es[i]) && ss[i + 1] == Next(ss[i], es[i])
  }

  ghost predicate SystemInv(s: System) {
    WellShaped(s) && Inv(s.k) && Agrees(s.k, s.h)
  }

  lemma StartInv()
    ensures SystemInv(Start())
  {
    BootedInv();
    var s := Start();
    forall i | Slot(i)
      ensures ThreadHist(s.k.threads, s.h, i)
    {
    }
  }

  /** Every reachable state satisfies the invariants. */
  lemma {:induction false} Always(ss: seq<System>, es: seq<Event>, i: nat)
    requires Behavior(ss, es) && i < |ss|
    ensures SystemInv(ss[i])
  {
    if i == 0 {
      StartInv();
    } else {
      Always(ss, es, i - 1);
      StepKeeps(ss[i - 1].k, es[i - 1]);
      StepRecorded(ss[i - 1].k, ss[i - 1].h, es[i - 1]);
      assert ss[i] == Next(ss[i - 1], es[i - 1]);
    }
  }

  /** In no reachable state does a sender wait for a receiver that waits for it. */
  lemma NeverStranded(ss: seq<System>, es: seq<Event>, i: nat, s: nat, r: nat)
    requires Behavior(ss, es) && i < |ss| && Slot(s) && Slot(r)
    ensures WellShaped(ss[i])
    ensures var ts := ss[i].k.threads;
      !(ts[s].state.Blocked? && ts[s].ipcState.Sending? && ts[s].peer == r &&
        ts[r].state.Blocked? && ts[r].ipcState.Receiving? && (ts[r].peer == ANY || ts[r].peer == s))
  {
    Always(ss, es, i);
    var ts := ss[i].k.threads;
    assert ThreadOk(ts[s], s) && ThreadOk(ts[r], r) && !Stranded(ts[s], ts[r]);
  }

  // ---- exactly-once delivery ----

  /** Where a message is: untouched in its blocked sender's buffer; or handed over, untouched in
      the buffer of its awake destination; or returned by exactly one receive, of its destination,
      with its content and its sender's number. A send call has returned 0 only in the last two. */
  ghost predicate Accounted(s: System, n: nat)
    requires WellShaped(s) && n < |s.h.calls|
  {
    var c := s.h.calls[n];
    && Slot(c.source) && Slot(c.dest)
    && match c.phase
       case InSender =>
         && !c.done && (forall at: nat | at < |s.h.receipts| :: s.h.receipts[at].call != n)
         && s.k.threads[c.source].state.Blocked? && s.k.threads[c.source].buf == c.msg
       case InReceiver =>
         && (forall at: nat | at < |s.h.receipts| :: s.h.receipts[at].call != n)
         && Holding(s.k.threads[c.dest]) && s.k.threads[c.dest].buf == c.msg && s.k.threads[c.dest].source == c.source
       case Received(at) =>
         && at < |s.h.receipts| && s.h.receipts[at] == Receipt(c.dest, c.source, c.msg, n)
         && forall b: nat | b < |s.h.receipts| && s.h.receipts[b].call == n :: b == at
  }

  lemma ExactlyOnce(ss: seq<System>, es: seq<Event>, i: nat, n: nat)
    requires Behavior(ss, es) && i < |ss| && n < |ss[i].h.calls|
    ensures WellShaped(ss[i]) && Accounted(ss[i], n)
  {
    Always(ss, es, i);
    var s := ss[i];
    assert CallOk(s.k.threads, s.h, n);
    forall at: nat | at < |s.h.receipts| && s.h.receipts[at].call == n
      ensures s.h.calls[n].phase == Received(at)
    {
      assert ReceiptOk(s.h, at);
    }
  }

  /** Every message a receive has returned was sent, to that thread and by the sender it names. */
  lemma NothingInvented(ss: seq<System>, es: seq<Event>, i: nat, at: nat)
    requires Behavior(ss, es) && i < |ss| && at < |ss[i].h.receipts|
    ensures var h := ss[i].h; var r := h.receipts[at];
      && r.call < |h.calls| && h.calls[r.call].phase == Received(at)
      && r == Receipt(h.calls[r.call].dest, h.calls[r.call].source, h.calls[r.call].msg, r.call)
  {
    Always(ss, es, i);
    assert ReceiptOk(ss[i].h, at);
    assert CallOk(ss[i].k.threads, ss[i].h, ss[i].h.receipts[at].call);
  }

  predicate Further(p: Phase, q: Phase) {
    match p
    case InSender => true
    case InReceiver => !q.InSender?
    case Received(_) => q == p
  }

  /** A recorded call keeps its sender, its destination and its message, and only moves on. */
  ghost predicate CallsGrow(h: History, h': History) {
    && |h.calls| <= |h'.calls|
    && forall n: nat | n < |h.calls| ::
      var c, c' := h.calls[n], h'.calls[n];
      && c'.source == c.source && c'.dest == c.dest && c'.msg == c.msg && c'.sentTo == c.sentTo
      && Further(c.phase, c'.phase) && (c.done ==> c'.done) && (c.phase.Received? ==> c'.readBy == c.readBy)
  }

  lemma StepGrows(s: System, e: Event)
    requires SystemInv(s) && Enabled(s.k, e)
    ensures CallsGrow(s.h, Next(s, e).h)
  {
    var note, self := Step(s.k, e).note, s.k.current;
    if note.Taken? {
      TakenFacts(s, e);
      assert ThreadHist(s.k.threads, s.h, note.sender);
      ReceiveGrows(s.h, s.h.sendOf[note.sender], self, note.from, note.msg);
    } else if note.Returned? {
      ReturnedFacts(s, e);
      assert ThreadHist(s.k.threads, s.h, self);
      ReceiveGrows(s.h, s.h.inBuf[self], self, note.from, note.msg);
    } else {
      OtherGrows(s.h, self, note);
    }
  }

  lemma ReceiveGrows(h: History, n: nat, tid: nat, source: int, msg: Msg)
    requires HistShape(h) && Slot(tid) && n < |h.calls| && !h.calls[n].phase.Received?
    ensures CallsGrow(h, Receive1(h, n, tid, source, msg))
  {
  }

  lemma OtherGrows(h: History, self: int, note: Note)
    requires HistShape(h) && NoteShape(note) && (NeedsActor(note) ==> Slot(self)) && !note.Taken? && !note.Returned?
    ensures CallsGrow(h, Record(h, self, note))
  {
  }

  lemma TakenFacts(s: System, e: Event)
    requires SystemInv(s) && Enabled(s.k, e) && Step(s.k, e).note.Taken?
    ensures var t := s.k.threads[Step(s.k, e).note.sender]; t.state.Blocked? && InSend(t.resume)
  {
    var self := s.k.current;
    assert Slot(self) && ThreadOk(s.k.threads[self], self);
    assert ThreadOk(s.k.threads[Step(s.k, e).note.sender], Step(s.k, e).note.sender);
  }

  lemma ReturnedFacts(s: System, e: Event)
    requires SystemInv(s) && Enabled(s.k, e) && Step(s.k, e).note.Returned?
    ensures Slot(s.k.current) && Holding(s.k.threads[s.k.current])
  {
    var self := s.k.current;
    assert Slot(self) && ThreadOk(s.k.threads[self], self);
  }

  lemma {:induction false} CallsGrowAlong(ss: seq<System>, es: seq<Event>, i: nat, j: nat)
    requires Behavior(ss, es) && i <= j < |ss|
    ensures CallsGrow(ss[i].h, ss[j].h)
    decreases j
  {
    if i == j {
    } else {
      CallsGrowAlong(ss, es, i, j - 1);
      Always(ss, es, j - 1);
      StepGrows(ss[j - 1], es[j - 1]);
      assert ss[j] == Next(ss[j - 1], es[j - 1]);
      GrowTrans(ss[i].h, ss[j - 1].h, ss[j].h);
    }
  }

  lemma GrowTrans(h: History, h1: History, h2: History)
    requires CallsGrow(h, h1) && CallsGrow(h1, h2)
    ensures CallsGrow(h, h2)
  {
  }

  // ---- interrupts ----

  /** Interrupts posted to a thread since it was created are all pending or returned, and no thread
      sleeps in a receive while one is pending. A woken receiver that no sender has reached has one
      to return. */
  lemma InterruptsConserved(ss: seq<System>, es: seq<Event>, i: nat, t: nat)
    requires Behavior(ss, es) && i < |ss| && Slot(t)
    ensures WellShaped(ss[i])
    ensures var s := ss[i]; s.h.posted[t] == s.h.taken[t] + s.h.swallowed[t] + s.k.threads[t].irqPending
    ensures var x := ss[i].k.threads[t];
      && (x.state.Blocked? && x.ipcState.Receiving? ==> x.irqPending == 0)
      && (!x.state.Blocked? && x.ipcState.Receiving? ==> x.irqPending >= 1)
  {
    Always(ss, es, i);
    assert ThreadHist(ss[i].k.threads, ss[i].h, t) && ThreadOk(ss[i].k.threads[t], t);
  }

  /** An interrupt is lost to user code exactly when the page-fault path receives while one is
      pending, or is woken by one. */
  lemma SwallowedExactly(s: System, e: Event)
    requires SystemInv(s) && Enabled(s.k, e)
    ensures Step(s.k, e).note == IrqTaken(false) <==>
      && s.k.current != IDLE && e.GoOn?
      && var me := s.k.threads[s.k.current];
         (me.resume.FaultCall? && me.irqPending > 0) || (me.resume.FaultRecv? && me.ipcState.Receiving?)
  {
  }
}
