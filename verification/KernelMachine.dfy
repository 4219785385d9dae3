/** The kernel as the C code writes it: an array of thread records and a few globals, updated in
    place by loops and assignments. Every operation is proved equal to the function of the kernel
    state that the other modules reason about, up to Handle, which carries out one whole step. */
module KernelMachine {
  import opened Options
  import opened Words
  import opened Capabilities
  import opened Threads
  import opened Ipc
  import opened Trap
  import opened KernelInvariants

  // ---- loop specifications, unfolded from any index ----

  lemma {:induction false} FirstNullFrom(t: Table, i: nat)
    requires i <= |t| && forall j | 0 <= j < i :: !t[j].NullCap?
    ensures FirstNull(t) >= i && (i < |t| && t[i].NullCap? ==> FirstNull(t) == i)
  {
    assert forall j | 0 <= j < FirstNull(t) :: !t[j].NullCap?;
  }

  lemma {:induction false} FirstFreeFrom(ts: seq<Thread>, i: nat)
    requires i <= |ts| && forall j | 0 <= j < i :: !ts[j].state.Unused? && !ts[j].state.Dead?
    ensures FirstFree(ts) >= i && (i < |ts| && (ts[i].state.Unused? || ts[i].state.Dead?) ==> FirstFree(ts) == i)
  {
    if i == 0 {
    } else {
      assert forall j | 0 <= j < i - 1 :: ts[1..][j] == ts[j + 1];
      FirstFreeFrom(ts[1..], i - 1);
    }
  }

  /** The three ways of a send. */
  lemma SendCases(k: Kernel, self: nat, dest: int, msg: Msg, later: Resume, now: Resume)
    requires Shape(k) && Slot(self) && k.threads[self].id == self
    ensures var o := Send(k, self, dest, msg, later, now);
      if !Addressable(k, dest) then o == Outcome(Put(k, self, WithResume(k.threads[self], now)), Refused, false)
      else if ReceiverReady(k.threads[dest], self) then
        var k1 := Put(k, dest, Handed(k.threads[dest], self, msg));
        o == Outcome(Put(k1, self, WithResume(k1.threads[self], now)), Delivered(dest, msg), false)
      else o == Outcome(Threads.Schedule(Put(k, self, StagedOn(k.threads[self], dest, msg, later))), Staged(dest, msg), true)
  {
  }

  class Machine {
    const threads: array<Thread>
    const irqTid: array<int>
    var current: int
    var pager: int

    /** The record as one value. */
    ghost function State(): Kernel
      reads this, threads, irqTid
    {
      Kernel(threads[..], current, pager, irqTid[..])
    }

    ghost predicate Valid()
      reads this, threads, irqTid
    {
      && Shape(State())
      && forall i | Slot(i) :: threads[i].id == i && |threads[i].caps| == CAP_MAX
    }

    /** sched_init, with no IRQ handler and no pager registered. */
    constructor SchedInit()
      ensures Valid() && State() == Initial() && fresh(threads) && fresh(irqTid)
    {
      threads := new Thread[MAX_THREADS](i => EmptySlot(i));
      irqTid := new int[16](i => -1);
      current, pager := IDLE, -1;
      new;
      assert threads[..] == Initial().threads;
      assert irqTid[..] == Initial().irqTid;
    }

    /** Stores a thread record. */
    method Set(i: nat, t: Thread)
      requires Valid() && Slot(i) && t.id == i && |t.caps| == CAP_MAX
      modifies threads
      ensures Valid() && State() == Put(old(State()), i, t)
    {
      threads[i] := t;
      assert threads[..] == old(threads[..])[i := t];
    }

    method ThreadBlock(i: nat)
      requires Valid() && Slot(i)
      modifies threads
      ensures Valid() && State() == Put(old(State()), i, Block(old(threads[i])))
    {
      Set(i, threads[i].(state := Blocked));
    }

    method ThreadWake(i: nat)
      requires Valid() && Slot(i)
      modifies threads
      ensures Valid() && State() == Put(old(State()), i, Wake(old(threads[i])))
    {
      if threads[i].state.Blocked? {
        Set(i, threads[i].(state := Runnable));
      } else {
        assert threads[..] == threads[..][i := threads[i]];
      }
    }

    // ---- capability tables ----

    method CapClear(i: nat)
      requires Valid() && Slot(i)
      modifies threads
      ensures Valid() && State() == Put(old(State()), i, old(threads[i]).(caps := ClearTable()))
    {
      ghost var was := State();
      var c := 0;
      while c < CAP_MAX
        invariant c <= CAP_MAX && Valid()
        invariant State() == Put(was, i, was.threads[i].(caps := threads[i].caps))
        invariant forall j | 0 <= j < c :: threads[i].caps[j] == NullCap
      {
        Set(i, threads[i].(caps := threads[i].caps[c := NullCap]));
        c := c + 1;
      }
      assert threads[i].caps == ClearTable();
    }

    /** Installs a capability in the first free slot of a thread's table. */
    method CapInstallFirst(i: nat, cap: Cap) returns (r: int)
      requires Valid() && Slot(i)
      modifies threads
      ensures Valid() && State() == Put(old(State()), i, old(threads[i]).(caps := Install(old(threads[i]).caps, cap)))
      ensures r == if Full(old(threads[i]).caps) then -1 else 0
    {
      ghost var was := State();
      var c := 0;
      while c < CAP_MAX
        invariant c <= CAP_MAX && Valid() && State() == was
        invariant forall j | 0 <= j < c :: !threads[i].caps[j].NullCap?
      {
        if threads[i].caps[c].NullCap? {
          FirstNullFrom(threads[i].caps, c);
          Set(i, threads[i].(caps := threads[i].caps[c := cap]));
          return 0;
        }
        c := c + 1;
      }
      FirstNullFrom(threads[i].caps, c);
      assert threads[..] == threads[..][i := threads[i]];
      r := -1;
    }

    method CapHasPort(i: nat, port: Port) returns (r: bool)
      requires Valid() && Slot(i)
      ensures r == HasPort(threads[i].caps, port)
    {
      for c := 0 to CAP_MAX
        invariant forall j | 0 <= j < c :: !CoversPort(threads[i].caps[j], port)
      {
        if CoversPort(threads[i].caps[c], port) {
          return true;
        }
      }
      r := false;
    }

    method CapHasEndpoint(i: nat, target: int) returns (r: bool)
      requires Valid() && Slot(i)
      ensures r == HasEndpoint(threads[i].caps, target)
    {
      for c := 0 to CAP_MAX
        invariant forall j | 0 <= j < c :: !(threads[i].caps[j].Endpoint? && threads[i].caps[j].target == target)
      {
        if threads[i].caps[c].Endpoint? && threads[i].caps[c].target == target {
          return true;
        }
      }
      r := false;
    }

    /** An index outside the table stands for a null thread pointer. */
    method CapGrantIo(tid: int, base: Port, len: Port) returns (r: int)
      requires Valid()
      modifies threads
      ensures Valid() && State() == if Slot(tid) then
          Put(old(State()), tid, old(State()).threads[tid].(caps := GrantIo(old(State()).threads[tid].caps, base, len)))
        else old(State())
      ensures r == Success(Slot(tid) && !Full(old(State()).threads[tid].caps))
    {
      if !Slot(tid) {
        return -1;
      }
      r := CapInstallFirst(tid, IoPort(base, len));
    }

    method CapGrantEndpoint(tid: int, target: int) returns (r: int)
      requires Valid()
      modifies threads
      ensures Valid() && State() == if Slot(tid) then
          Put(old(State()), tid, old(State()).threads[tid].(caps := GrantEndpoint(old(State()).threads[tid].caps, target)))
        else old(State())
      ensures r == Success(Slot(tid) && var t := old(State()).threads[tid].caps; HasEndpoint(t, target) || !Full(t))
    {
      if !Slot(tid) {
        return -1;
      }
      var has := CapHasEndpoint(tid, target);
      if has {
        assert threads[..] == threads[..][tid := threads[tid]];
        return 0;
      }
      r := CapInstallFirst(tid, Endpoint(target, CAP_RIGHT_SEND));
    }

    // ---- the scheduler ----

    method ThreadCreate() returns (id: int)
      requires Valid()
      modifies threads
      ensures Valid() && State() == Create(old(State()))
      ensures var i := FirstFree(old(threads[..])); id == if i < MAX_THREADS then i else -1
    {
      ghost var was := State();
      var i := 0;
      while i < MAX_THREADS
        invariant i <= MAX_THREADS && Valid() && State() == was
        invariant forall j | 0 <= j < i :: !threads[j].state.Unused? && !threads[j].state.Dead?
      {
        if threads[i].state.Unused? || threads[i].state.Dead? {
          FirstFreeFrom(threads[..], i);
          Set(i, threads[i].(state := Runnable, ipcState := NoIpc, peer := ANY, callTo := -1, irqPending := 0,
                             resume := ToUser));
          CapClear(i);
          assert threads[..] == was.threads[i := Fresh(was.threads[i])];
          return i;
        }
        i := i + 1;
      }
      FirstFreeFrom(threads[..], i);
      id := -1;
    }

    /** The search of schedule(). */
    method FindNext(from: nat) returns (next: int)
      requires Valid()
      ensures next == FindRunnable(threads[..], from, 0)
    {
      var k := 0;
      while k < MAX_THREADS
        invariant k <= MAX_THREADS
        invariant FindRunnable(threads[..], from, 0) == FindRunnable(threads[..], from, k)
      {
        var i := (from + k) % MAX_THREADS;
        if threads[i].state.Runnable? {
          return i;
        }
        k := k + 1;
      }
      next := -1;
    }

    /** Leaves the running thread for another, or for the idle context. */
    method SwitchTo(next: int)
      requires Valid() && IDLE <= next < MAX_THREADS
      modifies this`current, threads
      ensures Valid() && State() == Switch(old(State()), next)
    {
      if current != IDLE && threads[current].state.Running? {
        Set(current, threads[current].(state := Runnable));
      }
      if next != IDLE {
        Set(next, threads[next].(state := Running));
      }
      current := next;
    }

    method Schedule()
      requires Valid()
      modifies this`current, threads
      ensures Valid() && State() == Threads.Schedule(old(State()))
    {
      var from := if current == IDLE then 0 else threads[current].id + 1;
      var next := FindNext(from);
      if next != current {
        SwitchTo(next);
      }
    }

    // ---- message passing ----

    method FindWaitingSender(me: nat, want: int) returns (s: nat)
      requires Valid() && Slot(me)
      ensures s == FindSender(threads[..], me, want, 0)
    {
      s := 0;
      while s < MAX_THREADS
        invariant s <= MAX_THREADS
        invariant FindSender(threads[..], me, want, 0) == FindSender(threads[..], me, want, s)
      {
        var t := threads[s];
        if t.state.Blocked? && t.ipcState.Sending? && t.peer == threads[me].id && (want == ANY || want == t.id) {
          return;
        }
        s := s + 1;
      }
    }

    /** The rendezvous: the message goes straight into the waiting receiver. */
    method HandOver(self: nat, dest: nat, msg: Msg)
      requires Valid() && Slot(self) && Slot(dest)
      modifies threads
      ensures Valid() && State() == Put(old(State()), dest, Handed(old(threads[dest]), self, msg))
    {
      Set(dest, threads[dest].(buf := msg, source := threads[self].id, ipcState := NoIpc));
      ThreadWake(dest);
      assert threads[..] == old(threads[..])[dest := Handed(old(threads[dest]), self, msg)];
    }

    method HandOverAndReturn(self: nat, dest: nat, msg: Msg, now: Resume)
      requires Valid() && Slot(self) && Slot(dest)
      modifies threads
      ensures Valid()
      ensures var k1 := Put(old(State()), dest, Handed(old(State()).threads[dest], self, msg));
        State() == Put(k1, self, WithResume(k1.threads[self], now))
    {
      HandOver(self, dest, msg);
      Set(self, threads[self].(resume := now));
    }

    /** A sender whose receiver is not ready blocks with its message in its own buffer. */
    method Stage(self: nat, dest: int, msg: Msg, later: Resume)
      requires Valid() && Slot(self)
      modifies threads
      ensures Valid() && State() == Put(old(State()), self, StagedOn(old(threads[self]), dest, msg, later))
    {
      Set(self, threads[self].(buf := msg, ipcState := Sending, peer := dest, resume := later));
      ThreadBlock(self);
      assert threads[..] == old(threads[..])[self := StagedOn(old(threads[self]), dest, msg, later)];
    }

    method StageAndYield(self: nat, dest: int, msg: Msg, later: Resume)
      requires Valid() && Slot(self)
      modifies this`current, threads
      ensures Valid() && State() == Threads.Schedule(Put(old(State()), self, StagedOn(old(State()).threads[self], dest, msg, later)))
    {
      Stage(self, dest, msg, later);
      Schedule();
    }

    /** ipc_send_locked, up to its return or to its switch to another thread. */
    method IpcSendLocked(self: nat, dest: int, msg: Msg, later: Resume, now: Resume) returns (note: Note, yielded: bool)
      requires Valid() && Slot(self)
      modifies this`current, threads
      ensures Valid() && Outcome(State(), note, yielded) == Send(old(State()), self, dest, msg, later, now)
    {
      SendCases(State(), self, dest, msg, later, now);
      if !Slot(dest) || threads[dest].state.Unused? || threads[dest].state.Dead? {
        Set(self, threads[self].(resume := now));
        return Refused, false;
      }
      if ReceiverReady(threads[dest], threads[self].id) {
        HandOverAndReturn(self, dest, msg, now);
        return Delivered(dest, msg), false;
      }
      StageAndYield(self, dest, msg, later);
      return Staged(dest, msg), true;
    }

    /** What the caller of a receive does with its result: `from` and the first data word. */
    method AfterReceive(self: nat, later: Resume, from: int, verdict: Word) returns (yielded: bool)
      requires Valid() && Slot(self)
      modifies this`current, threads
      ensures Valid() && (State(), yielded) == Finish(old(State()), self, later, from, verdict)
    {
      if later.AfterRecv? {
        if from == threads[self].callTo {
          Set(self, threads[self].(callTo := -1));
        }
        Set(self, threads[self].(resume := ToUser));
        assert threads[..] == old(threads[..])[self := Answered(old(threads[self]), from)];
        return false;
      }
      Set(self, threads[self].(resume := ToUser));
      if verdict != 0 {
        Set(self, threads[self].(state := Dead));
        assert threads[..] == old(threads[..])[self := Killed(old(threads[self]))];
        Schedule();
        return true;
      }
      return false;
    }

    /** A waiting sender's message is taken, and the sender woken. */
    method TakeFrom(s: nat) returns (out: Msg, from: int)
      requires Valid() && Slot(s)
      modifies threads
      ensures Valid() && State() == Put(old(State()), s, Released(old(threads[s])))
      ensures out == old(threads[s].buf) && from == s
    {
      out, from := threads[s].buf, threads[s].id;
      Set(s, threads[s].(ipcState := NoIpc));
      ThreadWake(s);
      assert threads[..] == old(threads[..])[s := Released(old(threads[s]))];
    }

    /** A receiver with nothing to receive blocks. */
    method Await(self: nat, src: int, later: Resume)
      requires Valid() && Slot(self)
      modifies threads
      ensures Valid() && State() == Put(old(State()), self, WaitingFor(old(threads[self]), src, later))
    {
      Set(self, threads[self].(ipcState := Receiving, peer := src, resume := later));
      ThreadBlock(self);
      assert threads[..] == old(threads[..])[self := WaitingFor(old(threads[self]), src, later)];
    }

    /** ipc_recv_locked with what its caller does next, up to the switch to another thread. */
    method IpcRecvLocked(self: nat, src: int, later: Resume, stale: Word) returns (note: Note, yielded: bool)
      requires Valid() && Slot(self)
      modifies this`current, threads
      ensures Valid() && Outcome(State(), note, yielded) == Receive(old(State()), self, src, later, stale)
    {
      if threads[self].irqPending > 0 {
        Set(self, threads[self].(irqPending := threads[self].irqPending - 1));
        yielded := AfterReceive(self, later, IRQ_SENDER, stale);
        return IrqTaken(later.AfterRecv?), yielded;
      }
      var s := FindWaitingSender(self, src);
      if s < MAX_THREADS {
        var out, from := TakeFrom(s);
        yielded := AfterReceive(self, later, from, out.data0);
        return Taken(s, from, out), yielded;
      }
      Await(self, src, later);
      Schedule();
      return Quiet, true;
    }

    /** The rest of ipc_recv_locked, in a receiver that was switched back to. */
    method IpcRecvWoken(self: nat, stale: Word) returns (note: Note, yielded: bool)
      requires Valid() && Slot(self) && InRecv(threads[self].resume)
      modifies this`current, threads
      ensures Valid() && Outcome(State(), note, yielded) == Continue(old(State()), self, stale)
    {
      var later := threads[self].resume;
      if threads[self].ipcState.Receiving? {
        Set(self, threads[self].(ipcState := NoIpc));
        if threads[self].irqPending > 0 {
          Set(self, threads[self].(irqPending := threads[self].irqPending - 1));
        }
        assert threads[..] == old(threads[..])[self := LessIrq(OutOfIpc(old(threads[self])))];
        yielded := AfterReceive(self, later, IRQ_SENDER, stale);
        return IrqTaken(later.AfterRecv?), yielded;
      }
      var out := threads[self].buf;
      Set(self, threads[self].(ipcState := NoIpc));
      var from := threads[self].source;
      yielded := AfterReceive(self, later, from, out.data0);
      return Returned(from, out), yielded;
    }

    /** What a thread does when it is switched back to inside the kernel. */
    method GoesOn(self: nat, stale: Word) returns (note: Note, yielded: bool)
      requires Valid() && Slot(self)
      modifies this`current, threads
      ensures Valid() && Outcome(State(), note, yielded) == Continue(old(State()), self, stale)
    {
      match threads[self].resume
      case ToUser => return Quiet, false;
      case AfterSend =>
        Set(self, threads[self].(ipcState := NoIpc, resume := ToUser));
        return SendDone, false;
      case FaultSend =>
        Set(self, threads[self].(ipcState := NoIpc, resume := FaultCall));
        return SendDone, false;
      case FaultCall => note, yielded := IpcRecvLocked(self, pager, FaultRecv, stale);
      case _ => note, yielded := IpcRecvWoken(self, stale);
    }

    // ---- entry from user code and devices ----

    method IpcSendAllowed(self: nat, dest: int) returns (r: bool)
      requires Valid() && Slot(self)
      ensures r == SendAllowed(State(), self, dest)
    {
      if threads[self].id == 0 || dest == 0 {
        return true;
      }
      var has := CapHasEndpoint(self, dest);
      if has {
        return true;
      }
      if Slot(dest) {
        var d := threads[dest];
        return d.callTo == threads[self].id || (d.state.Blocked? && d.ipcState.Receiving? && d.peer == threads[self].id);
      }
      return false;
    }

    method SysSpawn(self: nat, prog: int) returns (note: Note, rax: int)
      requires Valid() && Slot(self)
      modifies threads
      ensures Valid() && Outcome(State(), note, false) == DoSpawn(old(State()), self, prog)
      ensures rax == if note.Created? then note.tid else -1
    {
      if prog < 0 || prog >= PROG_COUNT {
        return Quiet, -1;
      }
      var child := ThreadCreate();
      if child < 0 {
        return Quiet, child;
      }
      var _ := CapGrantEndpoint(self, child);
      return Created(child), child;
    }

    method SysSend(self: nat, dest: int, msg: Msg) returns (note: Note, yielded: bool)
      requires Valid() && Slot(self)
      modifies this`current, threads
      ensures Valid() && Outcome(State(), note, yielded) == DoSend(old(State()), self, dest, msg)
    {
      var allowed := IpcSendAllowed(self, dest);
      if !allowed {
        return Refused, false;
      }
      Set(self, threads[self].(callTo := dest));
      note, yielded := IpcSendLocked(self, dest, msg, AfterSend, ToUser);
    }

    method SysGrantIo(self: nat, tid: int, base: Port, len: Port) returns (rax: int)
      requires Valid() && Slot(self)
      modifies threads
      ensures Valid() && Outcome(State(), Quiet, false) == DoSyscall(old(State()), self, CallGrantIo(tid, base, len), 0)
      ensures Some(rax) == Rax(old(State()), self, CallGrantIo(tid, base, len), Quiet)
    {
      if threads[self].id != 0 {
        return -1;
      }
      rax := CapGrantIo(tid, base, len);
    }

    method SysGrantCap(self: nat, tid: int, ep: int) returns (rax: int)
      requires Valid() && Slot(self)
      modifies threads
      ensures Valid() && Outcome(State(), Quiet, false) == DoSyscall(old(State()), self, CallGrantCap(tid, ep), 0)
      ensures Some(rax) == Rax(old(State()), self, CallGrantCap(tid, ep), Quiet)
    {
      if threads[self].id != 0 {
        var has := CapHasEndpoint(self, ep);
        if !has {
          return -1;
        }
      }
      rax := CapGrantEndpoint(tid, ep);
    }

    method SysIrqRegister(self: nat, irq: int) returns (rax: int)
      requires Valid() && Slot(self)
      modifies irqTid
      ensures Valid() && Outcome(State(), Quiet, false) == DoSyscall(old(State()), self, CallIrqRegister(irq), 0)
      ensures rax == Success(0 <= irq < 16)
    {
      if irq < 0 || irq >= 16 {
        return -1;
      }
      irqTid[irq] := threads[self].id;
      assert irqTid[..] == old(irqTid[..])[irq := threads[self].id];
      rax := 0;
    }

    /** The dispatch; `rax` is what a call that returns to user code at once leaves there. */
    method Syscall(self: nat, call: Call, stale: Word) returns (note: Note, yielded: bool, rax: Option<int>)
      requires Valid() && Slot(self)
      modifies this, threads, irqTid
      ensures Valid() && Outcome(State(), note, yielded) == DoSyscall(old(State()), self, call, stale)
      ensures rax == Rax(old(State()), self, call, note)
    {
      note, yielded, rax := Quiet, false, None;
      var r;
      match call
      case CallSend(dest, msg) =>
        note, yielded := SysSend(self, dest, msg);
        rax := RaxOf(note);
      case CallRecv(src) =>
        note, yielded := IpcRecvLocked(self, src, AfterRecv, stale);
        rax := RaxOf(note);
      case CallExit =>
        Set(self, threads[self].(state := Dead));
        Schedule();
        yielded := true;
      case CallSpawn(prog) =>
        note, r := SysSpawn(self, prog);
        rax := Some(r);
      case CallSetPager =>
        pager := threads[self].id;
        rax := Some(0);
      case CallGrantIo(tid, base, len) =>
        r := SysGrantIo(self, tid, base, len);
        rax := Some(r);
      case CallIrqRegister(irq) =>
        r := SysIrqRegister(self, irq);
        rax := Some(r);
      case CallGrantCap(tid, ep) =>
        r := SysGrantCap(self, tid, ep);
        rax := Some(r);
      case Other =>
    }

    method DeviceIrq(irq: nat) returns (note: Note)
      requires Valid() && irq < 16
      modifies threads
      ensures Valid() && Outcome(State(), note, false) == DoIrq(old(State()), irq)
    {
      var tid := irqTid[irq];
      if !Slot(tid) || threads[tid].state.Unused? || threads[tid].state.Dead? {
        return Quiet;
      }
      Set(tid, threads[tid].(irqPending := threads[tid].irqPending + 1));
      if threads[tid].state.Blocked? && threads[tid].ipcState.Receiving? {
        ThreadWake(tid);
      }
      return IrqPosted(tid);
    }

    /** A page fault in user code, up to its switch to another thread or to its receive. */
    method PageFault(addr: Word) returns (note: Note, yielded: bool)
      requires Valid() && current != IDLE
      modifies this`current, threads
      ensures Valid() && Outcome(State(), note, yielded) == DoFault(old(State()), old(current), addr)
    {
      var fault := Msg(MSG_FAULT, threads[current].id, addr, 0);
      note, yielded := IpcSendLocked(current, pager, fault, FaultSend, FaultCall);
    }

    /** One step of the kernel, in place. */
    method Dispatch(e: Event) returns (note: Note, yielded: bool)
      requires Valid() && Enabled(State(), e)
      modifies this, threads, irqTid
      ensures Valid() && Outcome(State(), note, yielded) == Step(old(State()), e)
    {
      match e
      case Syscall(call, stale) =>
        var rax;
        note, yielded, rax := Syscall(current, call, stale);
      case Tick =>
        Schedule();
        note, yielded := Quiet, true;
      case Irq(irq) =>
        note := DeviceIrq(irq);
        yielded := false;
      case Fault(addr) => note, yielded := PageFault(addr);
      case GoOn(stale) => note, yielded := GoesOn(current, stale);
    }

    /** A step keeps every kernel invariant. */
    method Handle(e: Event) returns (note: Note, yielded: bool)
      requires Valid() && Inv(State()) && Enabled(State(), e)
      modifies this, threads, irqTid
      ensures Valid() && Inv(State()) && Outcome(State(), note, yielded) == Step(old(State()), e)
    {
      ghost var was := State();
      note, yielded := Dispatch(e);
      StepKeeps(was, e);
    }
  }
}
