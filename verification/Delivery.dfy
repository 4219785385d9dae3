/** The record of a run: every send call and what became of its message, every message a receive
    has returned, and the interrupts posted to each thread. The record is kept by slot and by call
    number alone, so that what it says of messages is said of the kernel's buffers by proof. */
module Delivery {
  import opened Words
  import opened Capabilities
  import opened Threads
  import opened Ipc
  import opened Trap
  import opened KernelInvariants

  /** Where the message of a send call is. */
  datatype Phase = InSender | InReceiver | Received(at: nat)

  /** `done` once the call has returned 0 to its caller. `sentTo` counts the threads that had been
      made in the destination's slot when the message was sent, and `readBy` when it was returned:
      the two are equal if the same thread was in the slot. */
  datatype SendCall = SendCall(source: nat, dest: nat, msg: Msg, sentTo: nat, phase: Phase, done: bool, readBy: nat)

  /** A message returned by a receive of thread `tid`, and the call it is taken to come from. */
  datatype Receipt = Receipt(tid: nat, source: int, msg: Msg, call: nat)

  /** `sendOf` and `inBuf` give, by slot, the call a sending thread is in and the call whose message
      a slot's buffer was last handed. `posted`, `taken` and `swallowed` count, since the slot's
      thread was created, the interrupts posted to it, those returned to its user code, and those
      returned inside the page-fault path. `made` counts the threads made in the slot. */
  datatype History = History(
    calls: seq<SendCall>, sendOf: seq<nat>, inBuf: seq<nat>, receipts: seq<Receipt>,
    posted: seq<nat>, taken: seq<nat>, swallowed: seq<nat>, made: seq<nat>)

  predicate HistShape(h: History) {
    && |h.sendOf| == MAX_THREADS && |h.inBuf| == MAX_THREADS
    && |h.posted| == MAX_THREADS && |h.taken| == MAX_THREADS && |h.swallowed| == MAX_THREADS && |h.made| == MAX_THREADS
  }

  function Bump(s: seq<nat>, i: nat): seq<nat>
    requires i < |s|
  {
    s[i := s[i] + 1]
  }

  /** The message of call n is returned to thread `tid`. */
  function Receive1(h: History, n: nat, tid: nat, source: int, msg: Msg): History
    requires HistShape(h) && Slot(tid)
  {
    if n < |h.calls| then
      h.(calls := h.calls[n := h.calls[n].(phase := Received(|h.receipts|), readBy := h.made[tid])],
         receipts := h.receipts + [Receipt(tid, source, msg, n)])
    else h
  }

  /** A thread is made in the slot: its interrupts count from 0. */
  function Renewed(h: History, tid: nat): (h': History)
    requires HistShape(h) && Slot(tid)
    ensures HistShape(h')
  {
    h.(posted := h.posted[tid := 0], taken := h.taken[tid := 0], swallowed := h.swallowed[tid := 0], made := Bump(h.made, tid))
  }

  function Done1(h: History, n: nat): History {
    if n < |h.calls| then h.(calls := h.calls[n := h.calls[n].(done := true)]) else h
  }

  /** The record after a step by thread `self`. */
  function Record(h: History, self: int, note: Note): (h': History)
    requires HistShape(h) && NoteShape(note) && (NeedsActor(note) ==> Slot(self))
    ensures HistShape(h')
  {
    match note
    case Quiet => h
    case Refused => h
    case Delivered(dest, msg) =>
      h.(calls := h.calls + [SendCall(self, dest, msg, h.made[dest], InReceiver, true, 0)], inBuf := h.inBuf[dest := |h.calls|])
    case Staged(dest, msg) =>
      h.(calls := h.calls + [SendCall(self, dest, msg, h.made[dest], InSender, false, 0)], sendOf := h.sendOf[self := |h.calls|])
    case Taken(sender, source, msg) => Receive1(h, h.sendOf[sender], self, source, msg)
    case Returned(source, msg) => Receive1(h, h.inBuf[self], self, source, msg)
    case SendDone => Done1(h, h.sendOf[self])
    case IrqTaken(user) =>
      if user then h.(taken := Bump(h.taken, self)) else h.(swallowed := Bump(h.swallowed, self))
    case IrqPosted(tid) => h.(posted := Bump(h.posted, tid))
    case Created(tid) => Renewed(h, tid)
  }

  function NoHistory(): (h: History)
    ensures HistShape(h)
  {
    var zero := seq(MAX_THREADS, i => 0);
    History([], zero, zero, [], zero, zero, zero, zero)
  }

  // ---- the record agrees with the kernel ----

  predicate Awake(t: Thread) {
    t.state.Runnable? || t.state.Running?
  }

  /** A thread woken with a message in its buffer that its receive has not returned yet. */
  predicate Holding(t: Thread) {
    Awake(t) && InRecv(t.resume) && t.ipcState.NoIpc?
  }

  ghost predicate CallOk(ts: seq<Thread>, h: History, n: nat)
    requires |ts| == MAX_THREADS && HistShape(h) && n < |h.calls|
  {
    var c := h.calls[n];
    && Slot(c.source) && Slot(c.dest)
    && (!c.done ==> h.sendOf[c.source] == n && InSend(ts[c.source].resume))
    && match c.phase
       case InSender =>
         var t := ts[c.source];
         !c.done && t.state.Blocked? && t.ipcState.Sending? && t.peer == c.dest && t.buf == c.msg
       case InReceiver =>
         var t := ts[c.dest];
         c.done && Holding(t) && h.inBuf[c.dest] == n && t.buf == c.msg && t.source == c.source
       case Received(at) =>
         at < |h.receipts| && h.receipts[at] == Receipt(c.dest, c.source, c.msg, n)
  }

  ghost predicate ThreadHist(ts: seq<Thread>, h: History, i: nat)
    requires |ts| == MAX_THREADS && HistShape(h) && Slot(i)
  {
    var t := ts[i];
    && (InSend(t.resume) ==>
          var n := h.sendOf[i];
          && n < |h.calls| && h.calls[n].source == i && !h.calls[n].done
          && (if t.state.Blocked? then h.calls[n].phase.InSender? else h.calls[n].phase.Received?))
    && (Holding(t) ==>
          var n := h.inBuf[i];
          n < |h.calls| && h.calls[n].dest == i && h.calls[n].phase.InReceiver?)
    && h.posted[i] == h.taken[i] + h.swallowed[i] + t.irqPending
  }

  ghost predicate ReceiptOk(h: History, at: nat)
    requires at < |h.receipts|
  {
    var n := h.receipts[at].call;
    n < |h.calls| && h.calls[n].phase == Received(at)
  }

  ghost predicate HistInv(ts: seq<Thread>, h: History)
    requires |ts| == MAX_THREADS && HistShape(h)
  {
    && (forall n: nat | n < |h.calls| :: CallOk(ts, h, n))
    && (forall i | Slot(i) :: ThreadHist(ts, h, i))
    && (forall at: nat | at < |h.receipts| :: ReceiptOk(h, at))
  }

  // ---- changes that the record does not see ----

  predicate SameView(t: Thread, t': Thread) {
    t'.state.Blocked? == t.state.Blocked? && Awake(t') == Awake(t) && t'.ipcState == t.ipcState && t'.peer == t.peer
    && t'.resume == t.resume && t'.buf == t.buf && t'.source == t.source && t'.irqPending == t.irqPending
  }

  lemma SameViewKeeps(ts: seq<Thread>, ts': seq<Thread>, h: History)
    requires |ts| == |ts'| == MAX_THREADS && HistShape(h) && HistInv(ts, h)
    requires forall i | Slot(i) :: SameView(ts[i], ts'[i])
    ensures HistInv(ts', h)
  {
    forall n: nat | n < |h.calls|
      ensures CallOk(ts', h, n)
    {
      assert CallOk(ts, h, n);
    }
    forall i | Slot(i)
      ensures ThreadHist(ts', h, i)
    {
      assert ThreadHist(ts, h, i);
    }
  }

  /** Neither in a send nor holding a message. */
  predicate Neutral(t: Thread) {
    !InSend(t.resume) && !Holding(t)
  }

  /** h' is h but for the interrupt counts of slot i. */
  ghost predicate OnlyCounts(h: History, h': History, i: nat)
    requires HistShape(h) && HistShape(h')
  {
    && h'.calls == h.calls && h'.sendOf == h.sendOf && h'.inBuf == h.inBuf && h'.receipts == h.receipts
    && forall j | Slot(j) && j != i ::
      h'.posted[j] == h.posted[j] && h'.taken[j] == h.taken[j] && h'.swallowed[j] == h.swallowed[j]
  }

  lemma PutNeutral(ts: seq<Thread>, h: History, i: nat, t: Thread, h': History)
    requires |ts| == MAX_THREADS && HistShape(h) && HistShape(h') && HistInv(ts, h) && Slot(i)
    requires OnlyCounts(h, h', i) && h'.posted[i] == h'.taken[i] + h'.swallowed[i] + t.irqPending
    requires Neutral(ts[i]) && Neutral(t)
    ensures HistInv(ts[i := t], h')
  {
    var ts' := ts[i := t];
    forall n: nat | n < |h.calls|
      ensures CallOk(ts', h', n)
    {
      assert CallOk(ts, h, n);
      assert ThreadHist(ts, h, i);
    }
    forall j | Slot(j)
      ensures ThreadHist(ts', h', j)
    {
      assert ThreadHist(ts, h, j);
    }
    forall at: nat | at < |h'.receipts|
      ensures ReceiptOk(h', at)
    {
      assert ReceiptOk(h, at);
    }
  }

  /** Counting an interrupt changes nothing else. */
  lemma CountIrq(ts: seq<Thread>, h: History, i: nat, t: Thread, h': History)
    requires |ts| == MAX_THREADS && HistShape(h) && HistShape(h') && HistInv(ts, h) && Slot(i)
    requires OnlyCounts(h, h', i) && h'.posted[i] == h'.taken[i] + h'.swallowed[i] + t.irqPending
    requires SameView(ts[i], t.(irqPending := ts[i].irqPending))
    ensures HistInv(ts[i := t], h')
  {
    var ts' := ts[i := t];
    forall n: nat | n < |h.calls|
      ensures CallOk(ts', h', n)
    {
      assert CallOk(ts, h, n);
    }
    forall j | Slot(j)
      ensures ThreadHist(ts', h', j)
    {
      assert ThreadHist(ts, h, j);
    }
    forall at: nat | at < |h'.receipts|
      ensures ReceiptOk(h', at)
    {
      assert ReceiptOk(h, at);
    }
  }

  // ---- what happens to messages ----

  lemma RecordDelivered(ts: seq<Thread>, h: History, self: nat, dest: nat, msg: Msg)
    requires |ts| == MAX_THREADS && HistShape(h) && HistInv(ts, h) && Slot(self) && Slot(dest)
    requires ts[dest].state.Blocked? && ts[dest].ipcState.Receiving? && InRecv(ts[dest].resume)
    ensures HistInv(ts[dest := Handed(ts[dest], self, msg)], Record(h, self, Delivered(dest, msg)))
  {
    var ts' := ts[dest := Handed(ts[dest], self, msg)];
    var h' := Record(h, self, Delivered(dest, msg));
    forall n: nat | n < |h'.calls|
      ensures CallOk(ts', h', n)
    {
      if n < |h.calls| {
        assert CallOk(ts, h, n);
      }
    }
    forall j | Slot(j)
      ensures ThreadHist(ts', h', j)
    {
      assert ThreadHist(ts, h, j);
    }
    forall at: nat | at < |h'.receipts|
      ensures ReceiptOk(h', at)
    {
      assert ReceiptOk(h, at);
    }
  }

  lemma RecordStaged(ts: seq<Thread>, h: History, self: nat, dest: nat, msg: Msg, later: Resume)
    requires |ts| == MAX_THREADS && HistShape(h) && HistInv(ts, h) && Slot(self) && Slot(dest)
    requires Neutral(ts[self]) && ts[self].ipcState.NoIpc? && InSend(later)
    ensures HistInv(ts[self := StagedOn(ts[self], dest, msg, later)],
                    Record(h, self, Staged(dest, msg)))
  {
    var ts' := ts[self := StagedOn(ts[self], dest, msg, later)];
    var h' := Record(h, self, Staged(dest, msg));
    forall n: nat | n < |h'.calls|
      ensures CallOk(ts', h', n)
    {
      if n < |h.calls| {
        assert CallOk(ts, h, n);
      }
    }
    forall j | Slot(j)
      ensures ThreadHist(ts', h', j)
    {
      assert ThreadHist(ts, h, j);
    }
    forall at: nat | at < |h'.receipts|
      ensures ReceiptOk(h', at)
    {
      assert ReceiptOk(h, at);
    }
  }

  lemma RecordTaken(ts: seq<Thread>, h: History, self: nat, s: nat)
    requires |ts| == MAX_THREADS && HistShape(h) && HistInv(ts, h) && Slot(self) && Slot(s) && s != self
    requires ts[s].state.Blocked? && ts[s].ipcState.Sending? && InSend(ts[s].resume) && ts[s].peer == self
    ensures HistInv(ts[s := Released(ts[s])], Record(h, self, Taken(s, s, ts[s].buf)))
  {
    var ts' := ts[s := Released(ts[s])];
    var h' := Record(h, self, Taken(s, s, ts[s].buf));
    assert ThreadHist(ts, h, s);
    assert CallOk(ts, h, h.sendOf[s]);
    forall n: nat | n < |h'.calls|
      ensures CallOk(ts', h', n)
    {
      assert CallOk(ts, h, n);
    }
    forall j | Slot(j)
      ensures ThreadHist(ts', h', j)
    {
      assert ThreadHist(ts, h, j);
    }
    forall at: nat | at < |h'.receipts|
      ensures ReceiptOk(h', at)
    {
      if at < |h.receipts| {
        assert ReceiptOk(h, at);
      }
    }
  }

  lemma RecordReturned(ts: seq<Thread>, h: History, self: nat, t: Thread)
    requires |ts| == MAX_THREADS && HistShape(h) && HistInv(ts, h) && Slot(self)
    requires Holding(ts[self]) && Neutral(t) && t.irqPending == ts[self].irqPending
    ensures HistInv(ts[self := t], Record(h, self, Returned(ts[self].source, ts[self].buf)))
  {
    var ts' := ts[self := t];
    var h' := Record(h, self, Returned(ts[self].source, ts[self].buf));
    assert ThreadHist(ts, h, self);
    assert CallOk(ts, h, h.inBuf[self]);
    forall n: nat | n < |h'.calls|
      ensures CallOk(ts', h', n)
    {
      assert CallOk(ts, h, n);
    }
    forall j | Slot(j)
      ensures ThreadHist(ts', h', j)
    {
      assert ThreadHist(ts, h, j);
    }
    forall at: nat | at < |h'.receipts|
      ensures ReceiptOk(h', at)
    {
      if at < |h.receipts| {
        assert ReceiptOk(h, at);
      }
    }
  }

  lemma RecordDone(ts: seq<Thread>, h: History, self: nat, t: Thread)
    requires |ts| == MAX_THREADS && HistShape(h) && HistInv(ts, h) && Slot(self)
    requires InSend(ts[self].resume) && Awake(ts[self]) && Neutral(t) && t.irqPending == ts[self].irqPending
    ensures HistInv(ts[self := t], Record(h, self, SendDone))
  {
    var ts' := ts[self := t];
    var h' := Record(h, self, SendDone);
    assert ThreadHist(ts, h, self);
    assert CallOk(ts, h, h.sendOf[self]);
    forall n: nat | n < |h'.calls|
      ensures CallOk(ts', h', n)
    {
      assert CallOk(ts, h, n);
    }
    forall j | Slot(j)
      ensures ThreadHist(ts', h', j)
    {
      assert ThreadHist(ts, h, j);
    }
    forall at: nat | at < |h'.receipts|
      ensures ReceiptOk(h', at)
    {
      assert ReceiptOk(h, at);
    }
  }
}
