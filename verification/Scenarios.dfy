/** Runs from start-up that reach the states in which the kernel departs from what one expects of
    it. */
module Scenarios {
  import opened Words
  import opened Capabilities
  import opened Threads
  import opened Ipc
  import opened Trap
  import opened KernelInvariants
  import opened Delivery
  import opened KernelRuns
  import opened Temporal

  // ---- runs step by step ----

  function Last(ss: seq<System>): System
    requires ss != []
  {
    ss[|ss| - 1]
  }

  /** A run that ends in kernel state k. */
  ghost predicate Reaches(ss: seq<System>, es: seq<Event>, k: Kernel) {
    Behavior(ss, es) && WellShaped(Last(ss)) && Last(ss).k == k
  }

  lemma StartRun()
    ensures Reaches([Start()], [], Booted())
  {
  }

  /** A run may go on with any step that is enabled. */
  lemma GoesOn(ss: seq<System>, es: seq<Event>, k: Kernel, e: Event, k': Kernel) returns (ss': seq<System>, es': seq<Event>)
    requires Reaches(ss, es, k) && Shape(k) && Enabled(k, e) && Step(k, e).k == k'
    ensures Reaches(ss', es', k') && es' == es + [e] && |ss'| == |ss| + 1 && ss'[..|ss|] == ss
  {
    ss', es' := ss + [Next(Last(ss), e)], es + [e];
    forall i: nat | i < |es'|
      ensures WellShaped(ss'[i]) && Enabled(ss'[i].k, es'[i]) && ss'[i + 1] == Next(ss'[i], es'[i])
    {
      if i < |es| {
        assert es'[i] == es[i] && ss'[i] == ss[i] && ss'[i + 1] == ss[i + 1];
      }
    }
  }

  // ---- three threads ----

  function Thread3(i: int, st: State): Thread {
    Fresh(EmptySlot(i)).(state := st)
  }

  /** A kernel whose first three slots are these and whose other slots are unused. */
  function Three(current: int, t0: Thread, t1: Thread, t2: Thread, pager: int, irqTid: seq<int>): (k: Kernel)
    requires IDLE <= current < 3 && |irqTid| == 16
    ensures Shape(k)
  {
    Kernel([t0, t1, t2] + seq(13, i => EmptySlot(i + 3)), current, pager, irqTid)
  }

  function NoIrqs(): (s: seq<int>)
    ensures |s| == 16
  {
    seq(16, i => -1)
  }

  lemma ScheduleTo(k: Kernel, next: nat)
    requires Shape(k) && Slot(next) && next != k.current && k.threads[next].state.Runnable?
    requires forall i | Slot(i) && k.threads[i].state.Runnable? && i != next ::
      Distance(k.current + 1, next) < Distance(k.current + 1, i)
    ensures Schedule(k) == Switch(k, next)
  {
    FindsNearest(k.threads, k.current + 1, 0);
    assert Distance(k.current + 1, next) >= 0;
  }

  lemma ScheduleToIdle(k: Kernel)
    requires Shape(k) && k.current != IDLE && forall i | Slot(i) :: !k.threads[i].state.Runnable?
    ensures Schedule(k) == Switch(k, IDLE)
  {
    NoneFound(k.threads, k.current + 1);
  }

  /** Thread i after a switch from `current` to `next`. */
  function Switched(current: int, next: nat, i: int, t: Thread): Thread {
    if i == next then t.(state := Running)
    else if i == current && t.state.Running? then t.(state := Runnable)
    else t
  }

  lemma ThreeSwitched(current: int, next: nat, t0: Thread, t1: Thread, t2: Thread, pager: int, irqTid: seq<int>)
    requires |irqTid| == 16 && IDLE <= current < 3 && next < 3 && next != current
    ensures Switch(Three(current, t0, t1, t2, pager, irqTid), next) ==
      Three(next, Switched(current, next, 0, t0), Switched(current, next, 1, t1), Switched(current, next, 2, t2), pager, irqTid)
  {
    var k := Three(current, t0, t1, t2, pager, irqTid);
    assert Switch(k, next).threads == Three(next, Switched(current, next, 0, t0), Switched(current, next, 1, t1),
                                            Switched(current, next, 2, t2), pager, irqTid).threads;
  }

  /** schedule() among three threads. */
  lemma ThreeScheduled(current: int, next: nat, t0: Thread, t1: Thread, t2: Thread, pager: int, irqTid: seq<int>)
    requires |irqTid| == 16 && IDLE <= current < 3 && next < 3 && next != current
    requires var k := Three(current, t0, t1, t2, pager, irqTid);
      && k.threads[next].state.Runnable?
      && forall i: nat | i < 3 && k.threads[i].state.Runnable? && i != next ::
        Distance(current + 1, next) < Distance(current + 1, i)
    ensures Schedule(Three(current, t0, t1, t2, pager, irqTid)) ==
      Three(next, Switched(current, next, 0, t0), Switched(current, next, 1, t1), Switched(current, next, 2, t2), pager, irqTid)
  {
    ScheduleTo(Three(current, t0, t1, t2, pager, irqTid), next);
    ThreeSwitched(current, next, t0, t1, t2, pager, irqTid);
  }

  // ---- the sole thread ----

  function Solo(st: State, current: int): Kernel
    requires IDLE <= current < 3
  {
    Three(current, Thread3(0, st), EmptySlot(1), EmptySlot(2), -1, NoIrqs())
  }

  lemma BootedIs()
    ensures Booted() == Solo(Runnable, IDLE)
  {
    assert FirstFree(Initial().threads) == 0;
    assert Booted().threads == Solo(Runnable, IDLE).threads;
    assert Booted().irqTid == NoIrqs();
  }

  lemma SoloStarts()
    ensures Schedule(Solo(Runnable, IDLE)) == Solo(Running, 0)
  {
    ThreeScheduled(IDLE, 0, Thread3(0, Runnable), EmptySlot(1), EmptySlot(2), -1, NoIrqs());
  }

  lemma SoloYields()
    ensures Schedule(Solo(Running, 0)) == Solo(Runnable, IDLE)
  {
    var k := Solo(Running, 0);
    ScheduleToIdle(k);
    assert Switch(k, IDLE).threads == Solo(Runnable, IDLE).threads;
  }

  lemma SoloSteps()
    ensures Booted() == Solo(Runnable, IDLE)
    ensures Schedule(Solo(Runnable, IDLE)) == Solo(Running, 0)
    ensures Schedule(Solo(Running, 0)) == Solo(Runnable, IDLE)
  {
    BootedIs();
    SoloStarts();
    SoloYields();
  }

  lemma SoloStartRun() returns (ss: seq<System>, es: seq<Event>)
    ensures Reaches(ss, es, Solo(Running, 0)) && es == [Tick]
  {
    SoloSteps();
    StartRun();
    ss, es := GoesOn([Start()], [], Solo(Runnable, IDLE), Tick, Solo(Running, 0));
  }

  lemma SoloRun() returns (ss: seq<System>, es: seq<Event>)
    ensures Behavior(ss, es) && es == [Tick, Tick] && WellShaped(ss[1]) && WellShaped(ss[2])
    ensures ss[1].k == Solo(Running, 0) && ss[2].k == Solo(Runnable, IDLE)
  {
    SoloYields();
    var ss1, es1 := SoloStartRun();
    ss, es := GoesOn(ss1, es1, Solo(Running, 0), Tick, Solo(Runnable, IDLE));
    assert ss[1] == ss[..2][1] == ss1[1];
  }

  /** Two ticks after start-up thread 0, the only one there is, has run and has given way to the idle
      context, though it could go on. */
  lemma IdleRun() returns (ss: seq<System>, es: seq<Event>)
    ensures Behavior(ss, es) && es == [Tick, Tick] && WellShaped(ss[1]) && WellShaped(ss[2])
    ensures ss[1].k.current == 0 && ss[1].k.threads[0].resume.ToUser?
    ensures forall i | Slot(i) :: !ss[1].k.threads[i].state.Runnable?
    ensures ss[2].k.current == IDLE && ss[2].k.threads[0].state.Runnable?
  {
    ss, es := SoloRun();
  }

  // ---- a pager and a thread that faults ----

  function RootCaps(): Table {
    GrantEndpoint(GrantEndpoint(ClearTable(), 1), 2)
  }

  function Root(st: State): Thread {
    Thread3(0, st).(caps := RootCaps())
  }

  /** Thread 1 is the pager, and thread 2 is in user code. */
  function PagerKernel(irqTid: seq<int>): Kernel
    requires |irqTid| == 16
  {
    Three(2, Root(Runnable), Thread3(1, Runnable), Thread3(2, Running), 1, irqTid)
  }

  const SPAWN: Event := Syscall(CallSpawn(0), 0)
  const BE_PAGER: Event := Syscall(CallSetPager, 0)

  function OneSpawned(): Kernel {
    Three(0, Thread3(0, Running).(caps := GrantEndpoint(ClearTable(), 1)), Thread3(1, Runnable), EmptySlot(2), -1, NoIrqs())
  }

  function TwoSpawned(): Kernel {
    Three(0, Root(Running), Thread3(1, Runnable), Thread3(2, Runnable), -1, NoIrqs())
  }

  lemma SpawnFirst()
    ensures Step(Solo(Running, 0), SPAWN).k == OneSpawned()
  {
    var k := Solo(Running, 0);
    assert k.threads[1..][0] == EmptySlot(1);
    assert FirstFree(k.threads[1..]) == 0 && FirstFree(k.threads) == 1;
    var made := Three(0, Thread3(0, Running), Thread3(1, Runnable), EmptySlot(2), -1, NoIrqs());
    assert Create(k).threads == made.threads;
    assert Put(made, 0, made.threads[0].(caps := GrantEndpoint(ClearTable(), 1))).threads == OneSpawned().threads;
  }

  lemma SpawnSecond()
    ensures Step(OneSpawned(), SPAWN).k == TwoSpawned()
  {
    var k := OneSpawned();
    var rest := k.threads[1..];
    assert rest[0] == Thread3(1, Runnable) && rest[1..][0] == EmptySlot(2);
    assert FirstFree(rest[1..]) == 0 && FirstFree(rest) == 1 && FirstFree(k.threads) == 2;
    var made := Three(0, k.threads[0], Thread3(1, Runnable), Thread3(2, Runnable), -1, NoIrqs());
    assert Create(k).threads == made.threads;
    assert Put(made, 0, made.threads[0].(caps := GrantEndpoint(made.threads[0].caps, 2))).threads == TwoSpawned().threads;
  }

  function PagerRuns(pager: int): Kernel {
    Three(1, Root(Runnable), Thread3(1, Running), Thread3(2, Runnable), pager, NoIrqs())
  }

  lemma PagerStarts()
    ensures Step(TwoSpawned(), Tick).k == PagerRuns(-1)
  {
    ThreeScheduled(0, 1, Root(Running), Thread3(1, Runnable), Thread3(2, Runnable), -1, NoIrqs());
  }

  lemma PagerRegisters()
    ensures Step(PagerRuns(-1), BE_PAGER).k == PagerRuns(1)
  {
  }

  lemma PagerYields()
    ensures Step(PagerRuns(1), Tick).k == PagerKernel(NoIrqs())
  {
    ThreeScheduled(1, 2, Root(Runnable), Thread3(1, Running), Thread3(2, Runnable), 1, NoIrqs());
  }

  /** Thread 0 starts two threads; the first becomes the pager; the second runs. */
  lemma PagerRun() returns (ss: seq<System>, es: seq<Event>)
    ensures Reaches(ss, es, PagerKernel(NoIrqs()))
  {
    PagerStarts();
    PagerRegisters();
    PagerYields();
    ss, es := SpawnedRun();
    ss, es := GoesOn(ss, es, TwoSpawned(), Tick, PagerRuns(-1));
    ss, es := GoesOn(ss, es, PagerRuns(-1), BE_PAGER, PagerRuns(1));
    ss, es := GoesOn(ss, es, PagerRuns(1), Tick, PagerKernel(NoIrqs()));
  }

  /** Thread 2 with n interrupts pending, and its fault staged for the pager. */
  function Handler(n: nat, st: State): Thread {
    Thread3(2, st).(irqPending := n)
  }

  function Faulting(n: nat): Thread {
    StagedOn(Handler(n, Running), 1, Msg(MSG_FAULT, 2, 0, 0), FaultSend)
  }

  function InUser(n: nat, irqTid: seq<int>): Kernel
    requires |irqTid| == 16
  {
    Three(2, Root(Runnable), Thread3(1, Runnable), Handler(n, Running), 1, irqTid)
  }

  function FaultStaged(n: nat, irqTid: seq<int>): Kernel
    requires |irqTid| == 16
  {
    Three(0, Root(Running), Thread3(1, Runnable), Faulting(n), 1, irqTid)
  }

  function PagerTurn(n: nat, irqTid: seq<int>): Kernel
    requires |irqTid| == 16
  {
    Three(1, Root(Runnable), Thread3(1, Running), Faulting(n), 1, irqTid)
  }

  function FaultTaken(n: nat, irqTid: seq<int>): Kernel
    requires |irqTid| == 16
  {
    Three(1, Root(Runnable), Thread3(1, Running), Released(Faulting(n)), 1, irqTid)
  }

  const PAGE_FAULT: Event := Fault(0)
  const TAKE_ANY: Event := Syscall(CallRecv(ANY), 0)

  lemma SendStages(k: Kernel, self: nat, dest: nat, msg: Msg, later: Resume, now: Resume)
    requires Shape(k) && Slot(self) && Addressable(k, dest) && !ReceiverReady(k.threads[dest], k.threads[self].id)
    ensures Send(k, self, dest, msg, later, now).k == Schedule(Put(k, self, StagedOn(k.threads[self], dest, msg, later)))
  {
  }

  lemma FaultIs(k: Kernel, addr: Word)
    requires Shape(k) && Enabled(k, Fault(addr)) && k.threads[k.current].id >= 0
    ensures Step(k, Fault(addr)).k ==
      Send(k, k.current, k.pager, Msg(MSG_FAULT, k.threads[k.current].id % TWO_64, addr, 0), FaultSend, FaultCall).k
  {
  }

  lemma UserFaults(n: nat, irqTid: seq<int>)
    requires |irqTid| == 16
    ensures var k := InUser(n, irqTid);
      Enabled(k, PAGE_FAULT) && Addressable(k, 1) && !ReceiverReady(k.threads[1], 2) && k.threads[2] == Handler(n, Running)
  {
  }

  lemma FaultPut(n: nat, irqTid: seq<int>)
    requires |irqTid| == 16
    ensures Put(InUser(n, irqTid), 2, Faulting(n)) == Three(2, Root(Runnable), Thread3(1, Runnable), Faulting(n), 1, irqTid)
  {
    assert Put(InUser(n, irqTid), 2, Faulting(n)).threads ==
      Three(2, Root(Runnable), Thread3(1, Runnable), Faulting(n), 1, irqTid).threads;
  }

  lemma FaultSends(n: nat, irqTid: seq<int>)
    requires |irqTid| == 16
    ensures Step(InUser(n, irqTid), PAGE_FAULT).k == Schedule(Three(2, Root(Runnable), Thread3(1, Runnable), Faulting(n), 1, irqTid))
  {
    UserFaults(n, irqTid);
    FaultIs(InUser(n, irqTid), 0);
    SendStages(InUser(n, irqTid), 2, 1, Msg(MSG_FAULT, 2, 0, 0), FaultSend, FaultCall);
    FaultPut(n, irqTid);
  }

  lemma FaultStages(n: nat, irqTid: seq<int>)
    requires |irqTid| == 16
    ensures Step(InUser(n, irqTid), PAGE_FAULT).k == FaultStaged(n, irqTid)
  {
    FaultSends(n, irqTid);
    ThreeScheduled(2, 0, Root(Runnable), Thread3(1, Runnable), Faulting(n), 1, irqTid);
  }

  lemma PagerNext(n: nat, irqTid: seq<int>)
    requires |irqTid| == 16
    ensures Step(FaultStaged(n, irqTid), Tick).k == PagerTurn(n, irqTid)
  {
    ThreeScheduled(0, 1, Root(Running), Thread3(1, Runnable), Faulting(n), 1, irqTid);
  }

  lemma PagerTakes(n: nat, irqTid: seq<int>)
    requires |irqTid| == 16
    ensures Step(PagerTurn(n, irqTid), TAKE_ANY).k == FaultTaken(n, irqTid)
  {
    var k := PagerTurn(n, irqTid);
    var s := FindSender(k.threads, 1, ANY, 0);
    assert WaitingSender(k.threads[2], 1, ANY);
    assert !WaitingSender(k.threads[0], 1, ANY) && !WaitingSender(k.threads[1], 1, ANY);
    assert s == 2;
    var k1 := Put(k, 2, Released(Faulting(n)));
    assert k1.threads == FaultTaken(n, irqTid).threads;
    assert Answered(k1.threads[1], 2) == k1.threads[1];
    assert Finish(k1, 1, AfterRecv, 2, 2).0.threads == k1.threads;
  }

  lemma InUserIs()
    ensures InUser(0, NoIrqs()) == PagerKernel(NoIrqs())
  {
  }

  /** The fault is staged while the pager is in user code; the pager takes it; and its verdict, sent at
      once, is refused, because the faulting thread has not run since. */
  lemma RefusedRun(verdict: Msg) returns (ss: seq<System>, es: seq<Event>)
    ensures Reaches(ss, es, FaultTaken(0, NoIrqs()))
    ensures var k := FaultTaken(0, NoIrqs()); var e := Syscall(CallSend(2, verdict), 0);
      k.pager == 1 == k.current && InFault(k.threads[2]) && Enabled(k, e) && Step(k, e).note == Refused
  {
    ss, es := PagerRun();
    InUserIs();
    FaultStages(0, NoIrqs());
    PagerNext(0, NoIrqs());
    PagerTakes(0, NoIrqs());
    ss, es := GoesOn(ss, es, InUser(0, NoIrqs()), PAGE_FAULT, FaultStaged(0, NoIrqs()));
    ss, es := GoesOn(ss, es, FaultStaged(0, NoIrqs()), Tick, PagerTurn(0, NoIrqs()));
    ss, es := GoesOn(ss, es, PagerTurn(0, NoIrqs()), TAKE_ANY, FaultTaken(0, NoIrqs()));
    NotHeld(FaultTaken(0, NoIrqs()));
  }

  lemma NotHeld(k: Kernel)
    requires Shape(k) && k.threads[1] == Thread3(1, Running) && !k.threads[2].state.Blocked? && k.threads[2].callTo == -1
    ensures !SendAllowed(k, 1, 2)
  {
  }

  // ---- an interrupt that the fault path swallows ----

  const HANDLE_4: Event := Syscall(CallIrqRegister(4), 0)

  function ForFour(): (s: seq<int>)
    ensures |s| == 16
  {
    NoIrqs()[4 := 2]
  }

  /** Thread 2 goes on in the kernel: its send is done, and it is about to receive the verdict. */
  function FaultRuns(r: Resume): Kernel {
    Three(2, Root(Runnable), Thread3(1, Runnable), Released(Faulting(1)).(state := Running, resume := r), 1, ForFour())
  }

  lemma IrqSteps()
    ensures Step(InUser(0, NoIrqs()), HANDLE_4).k == InUser(0, ForFour())
    ensures Step(InUser(0, ForFour()), Irq(4)).k == InUser(1, ForFour())
  {
    var k := InUser(0, ForFour());
    assert Step(k, Irq(4)).k.threads == InUser(1, ForFour()).threads;
  }

  lemma SwallowSteps()
    ensures Step(FaultTaken(1, ForFour()), Tick).k == FaultRuns(FaultSend)
    ensures Step(FaultRuns(FaultSend), GoOn(0)).k == FaultRuns(FaultCall)
    ensures Step(FaultRuns(FaultCall), GoOn(0)).note == IrqTaken(false)
  {
    ThreeScheduled(1, 2, Root(Runnable), Thread3(1, Running), Released(Faulting(1)), 1, ForFour());
    assert Step(FaultRuns(FaultSend), GoOn(0)).k.threads == FaultRuns(FaultCall).threads;
  }

  /** An interrupt for thread 2 comes before its fault, and is gone when the fault path receives: its
      user code never sees it, and the fault has no verdict. */
  lemma SwallowedRun() returns (ss: seq<System>, es: seq<Event>)
    ensures Reaches(ss, es, FaultRuns(FaultCall)) && Enabled(FaultRuns(FaultCall), GoOn(0))
    ensures Step(FaultRuns(FaultCall), GoOn(0)).note == IrqTaken(false)
  {
    ss, es := PagerRun();
    InUserIs();
    IrqSteps();
    FaultStages(1, ForFour());
    PagerNext(1, ForFour());
    PagerTakes(1, ForFour());
    SwallowSteps();
    ss, es := GoesOn(ss, es, InUser(0, NoIrqs()), HANDLE_4, InUser(0, ForFour()));
    ss, es := GoesOn(ss, es, InUser(0, ForFour()), Irq(4), InUser(1, ForFour()));
    ss, es := GoesOn(ss, es, InUser(1, ForFour()), PAGE_FAULT, FaultStaged(1, ForFour()));
    ss, es := GoesOn(ss, es, FaultStaged(1, ForFour()), Tick, PagerTurn(1, ForFour()));
    ss, es := GoesOn(ss, es, PagerTurn(1, ForFour()), TAKE_ANY, FaultTaken(1, ForFour()));
    ss, es := GoesOn(ss, es, FaultTaken(1, ForFour()), Tick, FaultRuns(FaultSend));
    ss, es := GoesOn(ss, es, FaultRuns(FaultSend), GoOn(0), FaultRuns(FaultCall));
  }

  // ---- a message that outlives the thread it was sent to ----

  /** Thread 0, blocked in a send to thread 1. */
  function Asking(msg: Msg): Thread {
    StagedOn(Root(Running).(callTo := 1), 1, msg, AfterSend)
  }

  function Asked(msg: Msg): Kernel {
    Three(1, Asking(msg), Thread3(1, Running), Thread3(2, Runnable), -1, NoIrqs())
  }

  /** Thread 1 has exited, and thread 2 runs. */
  function Left(msg: Msg): Kernel {
    Three(2, Asking(msg), Thread3(1, Dead), Thread3(2, Running), -1, NoIrqs())
  }

  function Heir(): Thread {
    Thread3(2, Running).(caps := GrantEndpoint(ClearTable(), 1))
  }

  /** Thread 2 has spawned a thread, in slot 1. */
  function Refilled(msg: Msg): Kernel {
    Three(2, Asking(msg), Thread3(1, Runnable), Heir(), -1, NoIrqs())
  }

  function HeirRuns(msg: Msg): Kernel {
    Three(1, Asking(msg), Thread3(1, Running), Heir().(state := Runnable), -1, NoIrqs())
  }

  lemma AskSteps(msg: Msg)
    ensures Step(TwoSpawned(), Syscall(CallSend(1, msg), 0)).k == Asked(msg)
  {
    var k := TwoSpawned();
    var staged := Three(0, Asking(msg), Thread3(1, Runnable), Thread3(2, Runnable), -1, NoIrqs());
    assert Put(Put(k, 0, Root(Running).(callTo := 1)), 0, Asking(msg)).threads == staged.threads;
    ThreeScheduled(0, 1, Asking(msg), Thread3(1, Runnable), Thread3(2, Runnable), -1, NoIrqs());
  }

  lemma LeaveSteps(msg: Msg)
    ensures Step(Asked(msg), Syscall(CallExit, 0)).k == Left(msg)
  {
    var k := Asked(msg);
    var gone := Three(1, Asking(msg), Thread3(1, Dead), Thread3(2, Runnable), -1, NoIrqs());
    assert Put(k, 1, Thread3(1, Dead)).threads == gone.threads;
    ThreeScheduled(1, 2, Asking(msg), Thread3(1, Dead), Thread3(2, Runnable), -1, NoIrqs());
  }

  lemma RefillSteps(msg: Msg)
    ensures Step(Left(msg), SPAWN).k == Refilled(msg) && Step(Left(msg), SPAWN).note == Created(1)
  {
    var k := Left(msg);
    assert k.threads[1..][0] == Thread3(1, Dead);
    assert FirstFree(k.threads[1..]) == 0 && FirstFree(k.threads) == 1;
    assert Step(k, SPAWN).k.threads == Refilled(msg).threads;
  }

  lemma HeirSteps(msg: Msg)
    ensures Step(Refilled(msg), Tick).k == HeirRuns(msg)
    ensures Step(HeirRuns(msg), TAKE_ANY).note == Taken(0, 0, msg)
  {
    ThreeScheduled(2, 1, Asking(msg), Thread3(1, Runnable), Heir(), -1, NoIrqs());
    assert WaitingSender(HeirRuns(msg).threads[0], 1, ANY);
  }

  lemma SpawnedRun() returns (ss: seq<System>, es: seq<Event>)
    ensures Reaches(ss, es, TwoSpawned()) && |es| == 3
  {
    SpawnFirst();
    SpawnSecond();
    ss, es := SoloStartRun();
    ss, es := GoesOn(ss, es, Solo(Running, 0), SPAWN, OneSpawned());
    ss, es := GoesOn(ss, es, OneSpawned(), SPAWN, TwoSpawned());
  }

  lemma LeftRun(msg: Msg) returns (ss: seq<System>, es: seq<Event>)
    ensures Reaches(ss, es, Left(msg)) && |es| == 5 && es[3] == Syscall(CallSend(1, msg), 0)
  {
    AskSteps(msg);
    LeaveSteps(msg);
    ss, es := SpawnedRun();
    ss, es := GoesOn(ss, es, TwoSpawned(), Syscall(CallSend(1, msg), 0), Asked(msg));
    ss, es := GoesOn(ss, es, Asked(msg), Syscall(CallExit, 0), Left(msg));
  }

  lemma RefilledRun(msg: Msg) returns (ss: seq<System>, es: seq<Event>)
    ensures Reaches(ss, es, Refilled(msg)) && |es| == 6 && es[3] == Syscall(CallSend(1, msg), 0)
    ensures WellShaped(ss[5]) && Enabled(ss[5].k, es[5]) && Step(ss[5].k, es[5]).note == Created(1)
  {
    RefillSteps(msg);
    var ss0, es0 := LeftRun(msg);
    ss, es := GoesOn(ss0, es0, Left(msg), SPAWN, Refilled(msg));
    assert ss[5] == ss[..6][5] == Last(ss0);
  }

  /** Thread 0 sends to thread 1, which exits; thread 2 starts another in its slot; and that one
      receives what was sent to the first. */
  lemma OutlivesRun(msg: Msg) returns (ss: seq<System>, es: seq<Event>)
    ensures Reaches(ss, es, HeirRuns(msg)) && |es| == 7 && es[3] == Syscall(CallSend(1, msg), 0)
    ensures WellShaped(ss[5]) && Enabled(ss[5].k, es[5]) && Step(ss[5].k, es[5]).note == Created(1)
    ensures Enabled(HeirRuns(msg), TAKE_ANY) && Step(HeirRuns(msg), TAKE_ANY).note == Taken(0, 0, msg)
  {
    HeirSteps(msg);
    var ss0, es0 := RefilledRun(msg);
    ss, es := GoesOn(ss0, es0, Refilled(msg), Tick, HeirRuns(msg));
    assert ss[5] == ss[..7][5] == ss0[5];
  }
}
