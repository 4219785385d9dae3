/** Threads and the round-robin scheduler (kernel/sched.c, include/sched.h), as values. */
module Threads {
  import opened Words
  import opened Capabilities

  const MAX_THREADS: nat := 16
  const IDLE: int := -1
  const ANY: int := -1

  datatype State = Unused | Runnable | Running | Blocked | Dead
  datatype IpcState = NoIpc | Sending | Receiving
  datatype Msg = Msg(tag: Word, data0: Word, data1: Word, cap: Word)

  /** Where a thread goes on when it next runs, as its saved kernel stack says: in user code;
      behind the call to schedule() in a send or a receive that a system call or a page fault
      made; or, in a page fault, between the send and the receive. */
  datatype Resume = ToUser | AfterSend | AfterRecv | FaultSend | FaultCall | FaultRecv

  datatype Thread = Thread(
    state: State, id: int,
    ipcState: IpcState, peer: int, callTo: int, source: int, irqPending: nat, buf: Msg,
    caps: Table, resume: Resume)

  /** The kernel's thread table and the thread registrations. `current` is IDLE for the boot
      context. `pager` and the entries of `irqTid` are -1 when nobody has registered. */
  datatype Kernel = Kernel(threads: seq<Thread>, current: int, pager: int, irqTid: seq<int>)

  predicate Shape(k: Kernel) {
    |k.threads| == MAX_THREADS && |k.irqTid| == 16 && IDLE <= k.current < MAX_THREADS
  }

  predicate Slot(i: int) {
    0 <= i < MAX_THREADS
  }

  function Put(k: Kernel, i: int, t: Thread): (k': Kernel)
    requires Shape(k) && Slot(i)
    ensures Shape(k')
  {
    k.(threads := k.threads[i := t])
  }

  /** The index that the k-th step of a search from slot `start` looks at. */
  function Probe(start: nat, k: nat): nat {
    (start + k) % MAX_THREADS
  }

  /** The first runnable slot at or after step k of a cyclic search, or -1. */
  function FindRunnable(ts: seq<Thread>, start: nat, k: nat): (i: int)
    requires |ts| == MAX_THREADS && k <= MAX_THREADS
    decreases MAX_THREADS - k
    ensures i == -1 || (Slot(i) && ts[i].state.Runnable?)
  {
    if k == MAX_THREADS then -1
    else if ts[Probe(start, k)].state.Runnable? then Probe(start, k)
    else FindRunnable(ts, start, k + 1)
  }

  /** schedule(): the next runnable thread after the current one runs; failing that, the idle
      context does. The thread that was running becomes runnable, unless it was idle. */
  function Schedule(k: Kernel): (k': Kernel)
    requires Shape(k)
    ensures Shape(k')
  {
    var found := FindRunnable(k.threads, k.current + 1, 0);
    if found == k.current then k else Switch(k, found)
  }

  /** Leaves the current thread for slot `next`, or for the idle context. */
  function Switch(k: Kernel, next: int): (k': Kernel)
    requires Shape(k) && IDLE <= next < MAX_THREADS
    ensures Shape(k')
  {
    var k1 := if k.current != IDLE && k.threads[k.current].state.Running?
              then Put(k, k.current, k.threads[k.current].(state := Runnable)) else k;
    var k2 := if next != IDLE then Put(k1, next, k1.threads[next].(state := Running)) else k1;
    k2.(current := next)
  }

  /** The slot thread_create uses: the first one that is unused or whose thread has exited. */
  function FirstFree(ts: seq<Thread>): (i: nat)
    ensures i <= |ts| && (i < |ts| ==> ts[i].state.Unused? || ts[i].state.Dead?)
  {
    if ts == [] || ts[0].state.Unused? || ts[0].state.Dead? then 0 else 1 + FirstFree(ts[1..])
  }

  /** A created thread keeps its slot number, and whatever the slot's buffer last held. */
  function Fresh(t: Thread): Thread {
    t.(state := Runnable, ipcState := NoIpc, peer := ANY, callTo := -1, irqPending := 0,
       caps := ClearTable(), resume := ToUser)
  }

  function Create(k: Kernel): Kernel
    requires Shape(k)
  {
    var i := FirstFree(k.threads);
    if i < MAX_THREADS then Put(k, i, Fresh(k.threads[i])) else k
  }

  function Block(t: Thread): Thread {
    t.(state := Blocked)
  }

  function Wake(t: Thread): Thread {
    if t.state.Blocked? then t.(state := Runnable) else t
  }

  function EmptySlot(i: int): Thread {
    Thread(Unused, i, NoIpc, 0, -1, 0, 0, Msg(0, 0, 0, 0), ClearTable(), ToUser)
  }

  /** sched_init, before any thread is created; no pager and no IRQ handler is registered. */
  function Initial(): (k: Kernel)
    ensures Shape(k)
  {
    Kernel(seq(MAX_THREADS, i => EmptySlot(i)), IDLE, -1, seq(16, i => -1))
  }

  // ---- properties of the search ----

  /** How many slots the search from `start` looks at before slot i. */
  function Distance(start: nat, i: nat): nat
    requires start <= MAX_THREADS
  {
    if start <= i then i - start else i - start + MAX_THREADS
  }

  /** The search finds the runnable slot that is nearest in cyclic order, and -1 only if no slot
      is runnable. */
  lemma {:induction false} FindsNearest(ts: seq<Thread>, start: nat, k: nat)
    requires |ts| == MAX_THREADS && k <= MAX_THREADS && start <= MAX_THREADS
    ensures var r := FindRunnable(ts, start, k);
      forall i | Slot(i) && ts[i].state.Runnable? && Distance(start, i) >= k ::
        r != -1 && k <= Distance(start, r) <= Distance(start, i)
    decreases MAX_THREADS - k
  {
    if k == MAX_THREADS {
    } else {
      assert Distance(start, Probe(start, k)) == k;
      if !ts[Probe(start, k)].state.Runnable? {
        FindsNearest(ts, start, k + 1);
        forall i | Slot(i) && ts[i].state.Runnable? && Distance(start, i) >= k
          ensures Distance(start, i) >= k + 1
        {
          assert Probe(start, Distance(start, i)) == i;
        }
      }
    }
  }

  /** After a schedule() that leaves runnable thread i waiting, i is nearer its turn. */
  lemma ScheduleComesNearer(k: Kernel, i: nat)
    requires Shape(k) && Slot(i) && k.threads[i].state.Runnable? && i != k.current
    requires k.current == IDLE || !k.threads[k.current].state.Runnable?
    ensures var k' := Schedule(k);
      k'.current == i || (k'.threads[i] == k.threads[i] && Distance(k'.current + 1, i) < Distance(k.current + 1, i))
  {
    var start := k.current + 1;
    FindsNearest(k.threads, start, 0);
    var r := FindRunnable(k.threads, start, 0);
    assert Distance(start, i) >= 0;
    assert r != -1;
  }
}
