/** Entry to the kernel (arch/x86_64/trap/trap.c) as a transition system: system calls, timer
    ticks, device interrupts, page faults, and the going on of a thread that was switched to in
    mid-call. Each step runs with interrupts off, so steps are atomic. */
module Trap {
  import opened Options
  import opened Words
  import opened Capabilities
  import opened Threads
  import opened Ipc

  const PROG_COUNT: int := 12
  const MSG_FAULT: Word := 4

  /** The system calls that touch this state, with their arguments; `Other` is any that does not. */
  datatype Call =
    | CallSend(dest: int, msg: Msg)
    | CallRecv(src: int)
    | CallExit
    | CallSpawn(prog: int)
    | CallSetPager
    | CallGrantIo(tid: int, base: Port, len: Port)
    | CallIrqRegister(irq: int)
    | CallGrantCap(tid: int, ep: int)
    | Other

  /** `stale` is the content of an uninitialised message variable. */
  datatype Event =
    | Syscall(call: Call, stale: Word)
    | Tick
    | Irq(irq: nat)
    | Fault(addr: Word)
    | GoOn(stale: Word)

  /** Root and the init endpoint are always reachable; otherwise the sender holds the endpoint, or
      the destination has an open call to it or is blocked receiving from it alone. */
  predicate SendAllowed(k: Kernel, self: nat, dest: int)
    requires Shape(k) && Slot(self)
  {
    var me := k.threads[self];
    || me.id == 0 || dest == 0
    || HasEndpoint(me.caps, dest)
    || (Slot(dest) && k.threads[dest].callTo == me.id)
    || (Slot(dest) && k.threads[dest].state.Blocked? && k.threads[dest].ipcState.Receiving? && k.threads[dest].peer == me.id)
  }

  function DoSend(k: Kernel, self: nat, dest: int, msg: Msg): (o: Outcome)
    requires Shape(k) && Slot(self)
    ensures Shape(o.k) && NoteShape(o.note)
  {
    if !SendAllowed(k, self, dest) then Outcome(k, Refused, false)
    else Send(Put(k, self, k.threads[self].(callTo := dest)), self, dest, msg, AfterSend, ToUser)
  }

  /** proc_spawn, then the parent's endpoint for its child. */
  function DoSpawn(k: Kernel, self: nat, prog: int): (o: Outcome)
    requires Shape(k) && Slot(self)
    ensures Shape(o.k) && NoteShape(o.note)
  {
    var child := FirstFree(k.threads);
    if prog < 0 || prog >= PROG_COUNT || child == MAX_THREADS then Outcome(k, Quiet, false)
    else
      var k1 := Create(k);
      var me := k1.threads[self];
      Outcome(Put(k1, self, me.(caps := GrantEndpoint(me.caps, child))), Created(child), false)
  }

  function DoSyscall(k: Kernel, self: nat, call: Call, stale: Word): (o: Outcome)
    requires Shape(k) && Slot(self)
    ensures Shape(o.k) && NoteShape(o.note)
  {
    var me := k.threads[self];
    match call
    case CallSend(dest, msg) => DoSend(k, self, dest, msg)
    case CallRecv(src) => Receive(k, self, src, AfterRecv, stale)
    case CallExit => Outcome(Schedule(Put(k, self, me.(state := Dead))), Quiet, true)
    case CallSpawn(prog) => DoSpawn(k, self, prog)
    case CallSetPager => Outcome(k.(pager := me.id), Quiet, false)
    case CallGrantIo(tid, base, len) =>
      if me.id != 0 || !Slot(tid) then Outcome(k, Quiet, false)
      else Outcome(Put(k, tid, k.threads[tid].(caps := GrantIo(k.threads[tid].caps, base, len))), Quiet, false)
    case CallIrqRegister(irq) =>
      if irq < 0 || irq >= 16 then Outcome(k, Quiet, false)
      else Outcome(k.(irqTid := k.irqTid[irq := me.id]), Quiet, false)
    case CallGrantCap(tid, ep) =>
      if (me.id != 0 && !HasEndpoint(me.caps, ep)) || !Slot(tid) then Outcome(k, Quiet, false)
      else Outcome(Put(k, tid, k.threads[tid].(caps := GrantEndpoint(k.threads[tid].caps, ep))), Quiet, false)
    case Other => Outcome(k, Quiet, false)
  }

  function Success(ok: bool): int {
    if ok then 0 else -1
  }

  /** What a send or a receive that has returned, as its note says, leaves in rax. */
  function RaxOf(note: Note): Option<int> {
    match note
    case Refused => Some(-1)
    case Delivered(_, _) => Some(0)
    case SendDone => Some(0)
    case Taken(_, from, _) => Some(from)
    case Returned(from, _) => Some(from)
    case IrqTaken(_) => Some(IRQ_SENDER)
    case _ => None
  }

  /** What a system call of thread `self` in state k leaves in rax when it returns at once, having
      done what the note says; None for one that blocks, ends the thread or is not modelled. */
  function Rax(k: Kernel, self: nat, call: Call, note: Note): Option<int>
    requires Shape(k) && Slot(self)
  {
    var me := k.threads[self];
    match call
    case CallSend(_, _) => RaxOf(note)
    case CallRecv(_) => RaxOf(note)
    case CallExit => None
    case CallSpawn(_) => Some(if note.Created? then note.tid else -1)
    case CallSetPager => Some(0)
    case CallGrantIo(tid, _, _) => Some(Success(me.id == 0 && Slot(tid) && !Full(k.threads[tid].caps)))
    case CallIrqRegister(irq) => Some(Success(0 <= irq < 16))
    case CallGrantCap(tid, ep) =>
      Some(Success((me.id == 0 || HasEndpoint(me.caps, ep)) && Slot(tid)
                   && (HasEndpoint(k.threads[tid].caps, ep) || !Full(k.threads[tid].caps))))
    case Other => None
  }

  /** A device interrupt is counted for the registered thread, which is woken if it is blocked
      receiving. */
  function DoIrq(k: Kernel, irq: nat): (o: Outcome)
    requires Shape(k) && irq < 16
    ensures Shape(o.k) && NoteShape(o.note)
  {
    var tid := k.irqTid[irq];
    if !Addressable(k, tid) then Outcome(k, Quiet, false)
    else
      var d := k.threads[tid].(irqPending := k.threads[tid].irqPending + 1);
      Outcome(Put(k, tid, if d.ipcState.Receiving? then Wake(d) else d), IrqPosted(tid), false)
  }

  /** A page fault in user code becomes a message to the pager; the receive of the verdict is the
      next step of the same thread. */
  function DoFault(k: Kernel, self: nat, addr: Word): (o: Outcome)
    requires Shape(k) && Slot(self)
    ensures Shape(o.k) && NoteShape(o.note)
  {
    var id := k.threads[self].id;
    Send(k, self, k.pager, Msg(MSG_FAULT, if id < 0 then 0 else id % TWO_64, addr, 0), FaultSend, FaultCall)
  }

  /** A thread that is in mid-call goes on before anything else happens. Only a thread makes system
      calls; a fault with no pager to take it, or in the pager, stops the machine. */
  predicate Enabled(k: Kernel, e: Event)
    requires Shape(k)
  {
    if k.current != IDLE && k.threads[k.current].resume != ToUser then e.GoOn?
    else match e
      case Syscall(_, _) => k.current != IDLE
      case Tick => true
      case Irq(irq) => 1 <= irq < 16
      case Fault(_) => k.current != IDLE && k.pager >= 0 && k.threads[k.current].id != k.pager
      case GoOn(_) => false
  }

  function Step(k: Kernel, e: Event): (o: Outcome)
    requires Shape(k) && Enabled(k, e)
    ensures Shape(o.k) && NoteShape(o.note) && (NeedsActor(o.note) ==> Slot(k.current))
  {
    match e
    case Syscall(call, stale) => DoSyscall(k, k.current, call, stale)
    case Tick => Outcome(Schedule(k), Quiet, true)
    case Irq(irq) => DoIrq(k, irq)
    case Fault(addr) => DoFault(k, k.current, addr)
    case GoOn(stale) => Continue(k, k.current, stale)
  }

  /** The state in which interrupts are first enabled: the idle context runs, and thread 0, the
      init program, is ready. */
  function Booted(): (k: Kernel)
    ensures Shape(k)
  {
    Create(Initial())
  }
}
