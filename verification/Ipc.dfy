/** Synchronous message passing (kernel/ipc.c), as functions on the kernel state. A blocking call
    is cut at its call to schedule(): what runs before the cut is Send or Receive, and what runs
    when the thread is switched back to is Continue. */
module Ipc {
  import opened Words
  import opened Capabilities
  import opened Threads

  /** The tag of a message that stands for an interrupt, and its sender. */
  const IRQ_SENDER: int := -2

  /** What a step did, for the record of messages and interrupts. The acting thread is the one
      that was current. */
  datatype Note =
    | Quiet
    | Refused
    | Delivered(dest: nat, msg: Msg)      // a send found its receiver waiting, and returns 0
    | Staged(dest: nat, msg: Msg)         // a send blocks with its message in its own buffer
    | Taken(sender: nat, from: int, msg: Msg) // a receive returns a waiting sender's message
    | Returned(from: int, msg: Msg)       // a woken receive returns the message in its buffer
    | SendDone                            // a woken send returns 0
    | IrqTaken(user: bool)                // a receive returns an interrupt, to user code or not
    | IrqPosted(tid: nat)
    | Created(tid: nat)

  predicate NoteShape(note: Note) {
    match note
    case Delivered(dest, _) => Slot(dest)
    case Staged(dest, _) => Slot(dest)
    case Taken(sender, _, _) => Slot(sender)
    case IrqPosted(tid) => Slot(tid)
    case Created(tid) => Slot(tid)
    case _ => true
  }

  /** The notes about what the current thread did. */
  predicate NeedsActor(note: Note) {
    !note.Quiet? && !note.IrqPosted?
  }

  /** The state after a step, what it did, and whether it called schedule(). */
  datatype Outcome = Outcome(k: Kernel, note: Note, yielded: bool)

  // ---- send ----

  /** dst is blocked waiting to receive from `from`, or from anyone. */
  predicate ReceiverReady(dst: Thread, from: int) {
    dst.state.Blocked? && dst.ipcState.Receiving? && (dst.peer == ANY || dst.peer == from)
  }

  predicate Addressable(k: Kernel, dest: int)
    requires Shape(k)
  {
    Slot(dest) && !k.threads[dest].state.Unused? && !k.threads[dest].state.Dead?
  }

  function Handed(dst: Thread, from: int, msg: Msg): Thread {
    Wake(dst.(buf := msg, source := from, ipcState := NoIpc))
  }

  /** A sender blocked with its message in its own buffer. */
  function StagedOn(me: Thread, dest: int, msg: Msg, later: Resume): Thread {
    Block(me.(buf := msg, ipcState := Sending, peer := dest, resume := later))
  }

  function WithResume(me: Thread, r: Resume): Thread {
    me.(resume := r)
  }

  /** ipc_send_locked up to its return or to its call to schedule(). `later` says where a blocked
      send resumes, and `now` where control goes when it returns at once. */
  function Send(k: Kernel, self: nat, dest: int, msg: Msg, later: Resume, now: Resume): (o: Outcome)
    requires Shape(k) && Slot(self)
    ensures Shape(o.k) && NoteShape(o.note)
  {
    var me := k.threads[self];
    if !Addressable(k, dest) then
      Outcome(Put(k, self, WithResume(me, now)), Refused, false)
    else if ReceiverReady(k.threads[dest], me.id) then
      var k1 := Put(k, dest, Handed(k.threads[dest], me.id, msg));
      Outcome(Put(k1, self, WithResume(k1.threads[self], now)), Delivered(dest, msg), false)
    else
      Outcome(Schedule(Put(k, self, StagedOn(me, dest, msg, later))), Staged(dest, msg), true)
  }

  // ---- receive ----

  predicate WaitingSender(t: Thread, me: int, want: int) {
    t.state.Blocked? && t.ipcState.Sending? && t.peer == me && (want == ANY || want == t.id)
  }

  /** The lowest slot from i on whose thread is blocked sending to `me`, matching `want`. */
  function FindSender(ts: seq<Thread>, me: int, want: int, i: nat): (r: nat)
    requires i <= |ts|
    decreases |ts| - i
    ensures i <= r <= |ts| && (r < |ts| ==> WaitingSender(ts[r], me, want))
    ensures forall j | i <= j < r :: !WaitingSender(ts[j], me, want)
  {
    if i == |ts| || WaitingSender(ts[i], me, want) then i else FindSender(ts, me, want, i + 1)
  }

  /** A sender whose message has been taken. */
  function Released(snd: Thread): Thread {
    Wake(snd.(ipcState := NoIpc))
  }

  function WaitingFor(me: Thread, src: int, later: Resume): Thread {
    Block(me.(ipcState := Receiving, peer := src, resume := later))
  }

  function LessIrq(me: Thread): Thread {
    me.(irqPending := if me.irqPending > 0 then me.irqPending - 1 else 0)
  }

  function OutOfIpc(me: Thread): Thread {
    me.(ipcState := NoIpc)
  }

  /** SYS_RECV's last touch: the caller's open call is closed if its answer has come. */
  function Answered(me: Thread, from: int): Thread {
    me.(callTo := if from == me.callTo then -1 else me.callTo, resume := ToUser)
  }

  function Killed(me: Thread): Thread {
    me.(state := Dead, resume := ToUser)
  }

  /** A receive that has returned: SYS_RECV closes the caller's open call if its answer has come,
      and goes back to user code; a page fault obeys the verdict, the first data word. */
  function Finish(k: Kernel, self: nat, later: Resume, from: int, verdict: Word): (r: (Kernel, bool))
    requires Shape(k) && Slot(self)
    ensures Shape(r.0)
  {
    var me := k.threads[self];
    if later.AfterRecv? then
      (Put(k, self, Answered(me, from)), false)
    else if verdict != 0 then
      (Schedule(Put(k, self, Killed(me))), true)
    else
      (Put(k, self, WithResume(me, ToUser)), false)
  }

  /** A receive returns an interrupt, leaving the receiver's record as t. */
  function ReturnIrq(k: Kernel, self: nat, t: Thread, later: Resume, stale: Word): (o: Outcome)
    requires Shape(k) && Slot(self)
    ensures Shape(o.k) && NoteShape(o.note)
  {
    var r := Finish(Put(k, self, t), self, later, IRQ_SENDER, stale);
    Outcome(r.0, IrqTaken(later.AfterRecv?), r.1)
  }

  /** A woken receive returns the message in its buffer. */
  function ReturnMessage(k: Kernel, self: nat, t: Thread): (o: Outcome)
    requires Shape(k) && Slot(self)
    ensures Shape(o.k) && NoteShape(o.note)
  {
    var r := Finish(Put(k, self, OutOfIpc(t)), self, t.resume, t.source, t.buf.data0);
    Outcome(r.0, Returned(t.source, t.buf), r.1)
  }

  /** ipc_recv_locked up to its return or to its call to schedule(). `stale` is what the caller's
      message variable holds: an interrupt sets only its tag. */
  function Receive(k: Kernel, self: nat, src: int, later: Resume, stale: Word): (o: Outcome)
    requires Shape(k) && Slot(self)
    ensures Shape(o.k) && NoteShape(o.note)
  {
    var me := k.threads[self];
    var s := FindSender(k.threads, me.id, src, 0);
    if me.irqPending > 0 then
      ReturnIrq(k, self, LessIrq(me), later, stale)
    else if s < MAX_THREADS then
      var snd := k.threads[s];
      var k1 := Put(k, s, Released(snd));
      var r := Finish(k1, self, later, snd.id, snd.buf.data0);
      Outcome(r.0, Taken(s, snd.id, snd.buf), r.1)
    else
      Outcome(Schedule(Put(k, self, WaitingFor(me, src, later))), Quiet, true)
  }

  // ---- after the switch back ----

  /** What the current thread does when it is switched back to inside the kernel. */
  function Continue(k: Kernel, self: nat, stale: Word): (o: Outcome)
    requires Shape(k) && Slot(self)
    ensures Shape(o.k) && NoteShape(o.note)
  {
    var me := k.threads[self];
    match me.resume
    case ToUser => Outcome(k, Quiet, false)
    case AfterSend => Outcome(Put(k, self, WithResume(OutOfIpc(me), ToUser)), SendDone, false)
    case FaultSend => Outcome(Put(k, self, WithResume(OutOfIpc(me), FaultCall)), SendDone, false)
    case FaultCall => Receive(k, self, k.pager, FaultRecv, stale)
    case _ =>
      if me.ipcState.Receiving? then
        ReturnIrq(k, self, LessIrq(OutOfIpc(me)), me.resume, stale)
      else
        ReturnMessage(k, self, me)
  }
}
