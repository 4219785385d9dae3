/** Which thread of a slot a message reaches: messages name a slot, and a slot may be made anew while
    one waits for it. */
module Incarnations {
  import opened Words
  import opened Capabilities
  import opened Threads
  import opened Ipc
  import opened Trap
  import opened KernelInvariants
  import opened Delivery
  import opened KernelRuns
  import opened StepEffects

  /** A message handed over is in the buffer of the very thread it was sent to. */
  ghost predicate HandedOk(h: History)
    requires HistShape(h)
  {
    forall n: nat | n < |h.calls| && h.calls[n].phase.InReceiver? ::
      Slot(h.calls[n].dest) && h.calls[n].sentTo == h.made[h.calls[n].dest]
  }

  /** A thread that holds a message is not made anew. */
  lemma CreatedHoldsNothing(s: System, e: Event, t: nat)
    requires SystemInv(s) && Enabled(s.k, e) && Step(s.k, e).note == Created(t)
    ensures Slot(t) && !Awake(s.k.threads[t])
  {
  }

  lemma RecordKeepsHanded(h: History, self: int, note: Note)
    requires HistShape(h) && HandedOk(h) && NoteShape(note) && (NeedsActor(note) ==> Slot(self))
    requires note.Created? ==> forall n: nat | n < |h.calls| && h.calls[n].phase.InReceiver? :: h.calls[n].dest != note.tid
    ensures HandedOk(Record(h, self, note))
  {
  }

  lemma HandedStep(s: System, e: Event)
    requires SystemInv(s) && Enabled(s.k, e) && HandedOk(s.h)
    ensures HandedOk(Next(s, e).h)
  {
    var note := Step(s.k, e).note;
    if note.Created? {
      CreatedHoldsNothing(s, e, note.tid);
      forall n: nat | n < |s.h.calls| && s.h.calls[n].phase.InReceiver?
        ensures s.h.calls[n].dest != note.tid
      {
        assert CallOk(s.k.threads, s.h, n);
      }
    }
    RecordKeepsHanded(s.h, s.k.current, note);
  }

  lemma HandedAt(ss: seq<System>, es: seq<Event>, m: nat)
    requires Behavior(ss, es) && m < |es| && WellShaped(ss[m]) && HandedOk(ss[m].h)
    ensures WellShaped(ss[m + 1]) && HandedOk(ss[m + 1].h)
  {
    Always(ss, es, m);
    assert ss[m + 1] == Next(ss[m], es[m]);
    HandedStep(ss[m], es[m]);
  }

  lemma {:induction false} HandedAlways(ss: seq<System>, es: seq<Event>, i: nat)
    requires Behavior(ss, es) && i < |ss|
    ensures WellShaped(ss[i]) && HandedOk(ss[i].h)
  {
    if i == 0 {
    } else {
      HandedAlways(ss, es, i - 1);
      HandedAt(ss, es, i - 1);
    }
  }

  // ---- how often a slot is made anew ----

  /** Some step from lo on, and before hi, makes slot t anew. */
  ghost predicate Remade(ss: seq<System>, es: seq<Event>, lo: nat, hi: nat, t: nat)
    requires Behavior(ss, es) && hi < |ss|
  {
    exists m: nat | lo <= m < hi :: Remakes(ss, es, m, t)
  }

  ghost predicate Remakes(ss: seq<System>, es: seq<Event>, m: nat, t: nat)
    requires Behavior(ss, es) && m < |es|
  {
    Step(ss[m].k, es[m]).note == Created(t)
  }

  lemma MadeAt(ss: seq<System>, es: seq<Event>, m: nat, t: nat)
    requires Behavior(ss, es) && m < |es| && Slot(t) && WellShaped(ss[m]) && WellShaped(ss[m + 1])
    ensures ss[m + 1].h.made[t] == ss[m].h.made[t] + if Remakes(ss, es, m, t) then 1 else 0
  {
    assert ss[m + 1] == Next(ss[m], es[m]);
  }

  lemma RemadeNext(ss: seq<System>, es: seq<Event>, i: nat, m: nat, t: nat)
    requires Behavior(ss, es) && i <= m < |es|
    ensures Remade(ss, es, i, m + 1, t) <==> Remade(ss, es, i, m, t) || Remakes(ss, es, m, t)
  {
    if Remade(ss, es, i, m, t) {
      var x: nat :| i <= x < m && Remakes(ss, es, x, t);
    }
  }

  /** The count stays exactly if the slot is not made anew. */
  lemma {:induction false} MadeAlong(ss: seq<System>, es: seq<Event>, i: nat, j: nat, t: nat)
    requires Behavior(ss, es) && i <= j < |ss| && Slot(t)
    ensures WellShaped(ss[i]) && WellShaped(ss[j])
    ensures ss[i].h.made[t] <= ss[j].h.made[t]
    ensures ss[i].h.made[t] == ss[j].h.made[t] <==> !Remade(ss, es, i, j, t)
    decreases j
  {
    Always(ss, es, j);
    if i < j {
      MadeAlong(ss, es, i, j - 1, t);
      MadeAt(ss, es, j - 1, t);
      RemadeNext(ss, es, i, j - 1, t);
    }
  }

  // ---- who receives ----

  /** Step i is the send of message n, handed over at once or staged. */
  ghost predicate SentBy(ss: seq<System>, es: seq<Event>, i: nat, n: nat)
    requires Behavior(ss, es)
  {
    i < |es| && WellShaped(ss[i]) && WellShaped(ss[i + 1]) && n == |ss[i].h.calls| < |ss[i + 1].h.calls|
  }

  /** Step j is the receive that returns message n. */
  ghost predicate ReadIn(ss: seq<System>, es: seq<Event>, j: nat, n: nat)
    requires Behavior(ss, es)
  {
    && j < |es| && WellShaped(ss[j]) && WellShaped(ss[j + 1]) && n < |ss[j].h.calls| && n < |ss[j + 1].h.calls|
    && !ss[j].h.calls[n].phase.Received? && ss[j + 1].h.calls[n].phase.Received?
  }

  lemma SentStep(s: System, e: Event)
    requires SystemInv(s) && Enabled(s.k, e) && |Next(s, e).h.calls| > |s.h.calls|
    ensures var c := Next(s, e).h.calls[|s.h.calls|]; var note := Step(s.k, e).note;
      && |Next(s, e).h.calls| == |s.h.calls| + 1 && Slot(c.dest) && c.sentTo == s.h.made[c.dest]
      && (note.Delivered? ==> c.phase.InReceiver?)
  {
  }

  lemma SentAt(ss: seq<System>, es: seq<Event>, i: nat, n: nat)
    requires Behavior(ss, es) && SentBy(ss, es, i, n)
    ensures var c := ss[i + 1].h.calls[n];
      && Slot(c.dest) && c.sentTo == ss[i].h.made[c.dest]
      && (Step(ss[i].k, es[i]).note.Delivered? ==> c.phase.InReceiver?)
  {
    Always(ss, es, i);
    assert ss[i + 1] == Next(ss[i], es[i]);
    SentStep(ss[i], es[i]);
  }

  lemma ReadStep(s: System, e: Event, n: nat)
    requires SystemInv(s) && Enabled(s.k, e) && HandedOk(s.h) && n < |s.h.calls|
    requires !s.h.calls[n].phase.Received? && Next(s, e).h.calls[n].phase.Received?
    ensures var c, c' := s.h.calls[n], Next(s, e).h.calls[n];
      && Slot(c.dest) && c'.readBy == s.h.made[c.dest] && (c.phase.InReceiver? ==> c.sentTo == s.h.made[c.dest])
  {
    var self, note := s.k.current, Step(s.k, e).note;
    OthersReadNothing(s.h, self, note, n);
    if note.Taken? {
      TakenFacts(s, e);
      TakenBy(s, e);
      ReadTaken(s.k.threads, s.h, self, note, n);
    } else {
      ReturnedFacts(s, e);
      ReadReturned(s.k.threads, s.h, self, note, n);
    }
  }

  /** Only a receive that returns a message makes one received. */
  lemma OthersReadNothing(h: History, self: int, note: Note, n: nat)
    requires HistShape(h) && NoteShape(note) && (NeedsActor(note) ==> Slot(self)) && n < |h.calls|
    requires !h.calls[n].phase.Received? && n < |Record(h, self, note).calls| && Record(h, self, note).calls[n].phase.Received?
    ensures note.Taken? || note.Returned?
  {
  }

  lemma ReadTaken(ts: seq<Thread>, h: History, self: nat, note: Note, n: nat)
    requires |ts| == MAX_THREADS && HistShape(h) && HistInv(ts, h) && Slot(self) && note.Taken? && Slot(note.sender)
    requires var t := ts[note.sender]; t.state.Blocked? && InSend(t.resume) && t.ipcState.Sending? && t.peer == self
    requires n < |h.calls| && !h.calls[n].phase.Received? && Record(h, self, note).calls[n].phase.Received?
    ensures var c := h.calls[n]; c.dest == self && c.phase.InSender? && Record(h, self, note).calls[n].readBy == h.made[self]
  {
    assert CallOk(ts, h, n) && ThreadHist(ts, h, note.sender);
  }

  lemma ReadReturned(ts: seq<Thread>, h: History, self: nat, note: Note, n: nat)
    requires |ts| == MAX_THREADS && HistShape(h) && HistInv(ts, h) && Slot(self) && note.Returned? && Holding(ts[self])
    requires n < |h.calls| && !h.calls[n].phase.Received? && Record(h, self, note).calls[n].phase.Received?
    ensures h.calls[n].dest == self && Record(h, self, note).calls[n].readBy == h.made[self]
  {
    assert CallOk(ts, h, n) && ThreadHist(ts, h, self);
  }

  lemma ReadAt(ss: seq<System>, es: seq<Event>, j: nat, n: nat)
    requires Behavior(ss, es) && ReadIn(ss, es, j, n)
    ensures var c, c' := ss[j].h.calls[n], ss[j + 1].h.calls[n];
      && Slot(c.dest) && c'.readBy == ss[j].h.made[c.dest] && (c.phase.InReceiver? ==> c.sentTo == ss[j].h.made[c.dest])
  {
    Always(ss, es, j);
    HandedAlways(ss, es, j);
    assert ss[j + 1] == Next(ss[j], es[j]);
    ReadStep(ss[j], es[j], n);
  }

  /** The sender whose message is taken was sending to the thread that takes it. */
  lemma TakenBy(s: System, e: Event)
    requires SystemInv(s) && Enabled(s.k, e) && Step(s.k, e).note.Taken?
    ensures var t := s.k.threads[Step(s.k, e).note.sender]; t.ipcState.Sending? && t.peer == s.k.current
  {
    assert ThreadOk(s.k.threads[s.k.current], s.k.current);
  }

  /** Between its send and its receive a call keeps its destination, and does not go back. */
  lemma CallBetween(ss: seq<System>, es: seq<Event>, i: nat, j: nat, n: nat)
    requires Behavior(ss, es) && SentBy(ss, es, i, n) && ReadIn(ss, es, j, n)
    ensures i < j
    ensures var a, b, c := ss[i + 1].h.calls[n], ss[j].h.calls[n], ss[j + 1].h.calls[n];
      && a.dest == b.dest == c.dest && a.sentTo == b.sentTo == c.sentTo && Further(a.phase, b.phase)
  {
    if j <= i {
      CallsGrowAlong(ss, es, j, i);
      assert false;
    }
    CallsGrowAlong(ss, es, i + 1, j);
    CallsGrowAlong(ss, es, j, j + 1);
  }

  /** The thread that receives a message is the one that was in the slot when it was sent exactly if
      the slot has not been made anew between; and it always is if the receiver was waiting when the
      message was sent. */
  lemma WhoReceives(ss: seq<System>, es: seq<Event>, i: nat, j: nat, n: nat)
    requires Behavior(ss, es) && SentBy(ss, es, i, n) && ReadIn(ss, es, j, n)
    ensures i < j
    ensures var c := ss[j + 1].h.calls[n];
      && (c.readBy == c.sentTo <==> !Remade(ss, es, i, j, c.dest))
      && (Step(ss[i].k, es[i]).note.Delivered? ==> c.readBy == c.sentTo)
  {
    CallBetween(ss, es, i, j, n);
    SentAt(ss, es, i, n);
    ReadAt(ss, es, j, n);
    MadeAlong(ss, es, i, j, ss[j].h.calls[n].dest);
  }

  // ---- rights ----

  /** Rights name a slot too: when slot x is made anew, whoever held its endpoint holds it still, and
      may send to the new thread; a call open to it stays open, and the new thread may answer. */
  lemma RightsOutlive(k: Kernel, e: Event, t: nat, x: nat)
    requires Shape(k) && Inv(k) && Enabled(k, e) && Slot(t) && t != x && Step(k, e).note == Created(x)
    ensures var k' := Step(k, e).k;
      && (Holds(k, t, x) ==> Holds(k', t, x) && SendAllowed(k', t, x))
      && (k.threads[t].callTo == x ==> k'.threads[t].callTo == x && SendAllowed(k', x, t))
  {
    StepKeeps(k, e);
    HoldStep(k, e, t, x);
    CallToStep(k, e, t);
    assert ThreadOk(Step(k, e).k.threads[x], x);
    assert e.Syscall? && e.call.CallSpawn? by {
      if !Grants(e) {
        OtherStepsGrantNothing(k, e);
      }
    }
  }
}
