/** Where rights come from, over whole runs: an endpoint reaches a thread only along a chain of
    grants from thread 0 or from the spawn that made it, and a port only by thread 0's grant. */
module Authority {
  import opened Words
  import opened Capabilities
  import opened Threads
  import opened Ipc
  import opened Trap
  import opened KernelInvariants
  import opened KernelRuns
  import opened StepEffects

  // ---- what a run shows of itself ----

  /** Who was current in a step, what the step was and what it did. */
  datatype Deed = Deed(actor: int, event: Event, note: Note)

  ghost function DeedAt(ss: seq<System>, es: seq<Event>, m: nat): Deed
    requires Behavior(ss, es) && m < |es|
  {
    Deed(ss[m].k.current, es[m], Step(ss[m].k, es[m]).note)
  }

  /** The deeds of a run. */
  ghost predicate Traces(ss: seq<System>, es: seq<Event>, tr: seq<Deed>)
    requires Behavior(ss, es)
  {
    |tr| == |es| && forall m: nat {:trigger DeedAt(ss, es, m)} | m < |es| :: tr[m] == DeedAt(ss, es, m)
  }

  lemma TraceOf(ss: seq<System>, es: seq<Event>) returns (tr: seq<Deed>)
    requires Behavior(ss, es)
    ensures Traces(ss, es, tr)
  {
    tr := seq(|es|, m requires 0 <= m < |es| && Behavior(ss, es) => DeedAt(ss, es, m));
  }

  /** A step that makes slot t anew. */
  predicate Remakes(d: Deed, t: nat) {
    d.note == Created(t)
  }

  /** A SYS_SPAWN by t that creates thread e. */
  predicate Spawns(d: Deed, t: nat, e: int) {
    d.actor == t && d.note.Created? && d.note.tid == e
  }

  /** A SYS_GRANT_CAP of e to t by `giver`. */
  predicate Gives(d: Deed, giver: int, t: nat, e: int) {
    d.actor == giver && d.event.Syscall? && d.event.call == CallGrantCap(t, e)
  }

  /** No step from lo on, and before hi, makes slot t anew. */
  ghost predicate SameThreadSince(tr: seq<Deed>, t: nat, lo: nat, hi: nat)
    requires hi <= |tr|
  {
    forall m: nat | lo <= m < hi :: !Remakes(tr[m], t)
  }

  // ---- endpoints ----

  /** How a thread came by an endpoint: thread 0 granted it, the thread spawned the endpoint's owner,
      or thread `giver` granted it, having come by it in turn. `at` is the step of the run. */
  datatype Chain =
    | FromRoot(at: nat)
    | FromSpawn(at: nat)
    | Passed(at: nat, giver: nat, prior: Chain)

  /** Chain c tells how the thread that is in slot t at state n came to hold e. */
  ghost predicate Explains(tr: seq<Deed>, c: Chain, n: nat, t: nat, e: int)
    requires n <= |tr|
    decreases c
  {
    && c.at < n && Slot(t) && SameThreadSince(tr, t, c.at, n)
    && match c
       case FromRoot(at) => Gives(tr[at], 0, t, e)
       case FromSpawn(at) => Spawns(tr[at], t, e)
       case Passed(at, giver, prior) => Gives(tr[at], giver, t, e) && Explains(tr, prior, at, giver, e)
  }

  lemma StillExplains(tr: seq<Deed>, c: Chain, n: nat, t: nat, e: int)
    requires n + 1 <= |tr| && Explains(tr, c, n, t, e) && !Remakes(tr[n], t)
    ensures Explains(tr, c, n + 1, t, e)
  {
  }

  ghost predicate HoldsAt(ss: seq<System>, n: nat, t: nat, e: int) {
    n < |ss| && WellShaped(ss[n]) && Slot(t) && Holds(ss[n].k, t, e)
  }

  /** What step m did to bring e to t: a grant of thread 0's, a spawn, or the grant of a holder. */
  lemma Acquired(ss: seq<System>, es: seq<Event>, tr: seq<Deed>, m: nat, t: nat, e: int)
    requires Behavior(ss, es) && Traces(ss, es, tr) && m < |es| && Slot(t) && HoldsAt(ss, m + 1, t, e)
    ensures !Remakes(tr[m], t)
    ensures
      || HoldsAt(ss, m, t, e)
      || Spawns(tr[m], t, e)
      || Gives(tr[m], 0, t, e)
      || (Slot(tr[m].actor) && HoldsAt(ss, m, tr[m].actor, e) && Gives(tr[m], tr[m].actor, t, e))
  {
    Always(ss, es, m);
    assert ss[m + 1] == Next(ss[m], es[m]);
    assert tr[m] == DeedAt(ss, es, m);
    HoldStep(ss[m].k, es[m], t, e);
  }

  lemma StartHoldsNothing(ss: seq<System>, es: seq<Event>, t: nat, e: int)
    requires Behavior(ss, es)
    ensures !HoldsAt(ss, 0, t, e)
  {
    if Slot(t) {
      BootedHoldsNothing(t, e);
    }
  }

  lemma BootedHoldsNothing(t: nat, e: int)
    requires Slot(t)
    ensures !Holds(Booted(), t, e) && PortRanges(Booted().threads[t].caps) == {}
  {
  }

  /** Whoever holds an endpoint came by it along a chain of grants. */
  lemma {:induction false} ChainOf(ss: seq<System>, es: seq<Event>, tr: seq<Deed>, n: nat, t: nat, e: int) returns (c: Chain)
    requires Behavior(ss, es) && Traces(ss, es, tr) && n < |ss| && Slot(t) && HoldsAt(ss, n, t, e)
    ensures Explains(tr, c, n, t, e)
    decreases n
  {
    if n == 0 {
      StartHoldsNothing(ss, es, t, e);
      assert false;
    } else {
      var at := n - 1;
      Acquired(ss, es, tr, at, t, e);
      if HoldsAt(ss, at, t, e) {
        c := ChainOf(ss, es, tr, at, t, e);
        StillExplains(tr, c, at, t, e);
      } else if Spawns(tr[at], t, e) {
        c := FromSpawn(at);
      } else if Gives(tr[at], 0, t, e) {
        c := FromRoot(at);
      } else {
        var prior := ChainOf(ss, es, tr, at, tr[at].actor, e);
        c := Passed(at, tr[at].actor, prior);
      }
    }
  }

  /** So in every run, whoever holds an endpoint came by it along a chain of its steps. */
  lemma ChainInRun(ss: seq<System>, es: seq<Event>, n: nat, t: nat, e: int) returns (tr: seq<Deed>, c: Chain)
    requires Behavior(ss, es) && n < |ss| && Slot(t) && HoldsAt(ss, n, t, e)
    ensures Traces(ss, es, tr) && Explains(tr, c, n, t, e)
  {
    tr := TraceOf(ss, es);
    c := ChainOf(ss, es, tr, n, t, e);
  }

  /** An endpoint that nobody holds stays so until thread 0 grants it or a spawn returns it. */
  lemma {:induction false} UnheldStays(ss: seq<System>, es: seq<Event>, tr: seq<Deed>, i: nat, j: nat, e: int)
    requires Behavior(ss, es) && Traces(ss, es, tr) && i <= j < |ss|
    requires forall t | Slot(t) :: !HoldsAt(ss, i, t, e)
    requires forall m: nat, t: nat | i <= m < j && Slot(t) :: !Spawns(tr[m], t, e)
    requires forall m: nat, t: nat | i <= m < j && Slot(t) :: !Gives(tr[m], 0, t, e)
    ensures forall t | Slot(t) :: !HoldsAt(ss, j, t, e)
    decreases j
  {
    if i == j {
    } else {
      var m := j - 1;
      UnheldStays(ss, es, tr, i, m, e);
      forall t | Slot(t)
        ensures !HoldsAt(ss, j, t, e)
      {
        assert !Spawns(tr[m], t, e) && !Gives(tr[m], 0, t, e);
        if HoldsAt(ss, j, t, e) {
          Acquired(ss, es, tr, m, t, e);
        }
      }
    }
  }

  // ---- ports ----

  /** Step `at` is thread 0's grant of a port range to the thread that is in slot t at state n. */
  ghost predicate InForce(ss: seq<System>, es: seq<Event>, tr: seq<Deed>, at: nat, n: nat, t: nat, r: (Port, Port))
    requires Behavior(ss, es) && |tr| == |es| && n < |ss| && Slot(t)
  {
    at < n && PortsGivenAt(ss, es, at, t, r) && SameThreadSince(tr, t, at, n)
  }

  ghost predicate PortsGivenAt(ss: seq<System>, es: seq<Event>, at: nat, t: nat, r: (Port, Port))
    requires Behavior(ss, es) && at < |es| && Slot(t)
  {
    GrantsPorts(ss[at].k, es[at], t, r.0, r.1)
  }

  ghost predicate Granted(ss: seq<System>, es: seq<Event>, tr: seq<Deed>, n: nat, t: nat, r: (Port, Port))
    requires Behavior(ss, es) && |tr| == |es| && n < |ss| && Slot(t)
  {
    exists at: nat | at < n :: InForce(ss, es, tr, at, n, t, r)
  }

  lemma GrantedStep(ss: seq<System>, es: seq<Event>, tr: seq<Deed>, m: nat, t: nat, r: (Port, Port))
    requires Behavior(ss, es) && |tr| == |es| && m + 1 < |ss| && Slot(t)
    ensures Granted(ss, es, tr, m + 1, t, r) <==>
      !Remakes(tr[m], t) && (Granted(ss, es, tr, m, t, r) || PortsGivenAt(ss, es, m, t, r))
  {
    var n := m + 1;
    if Granted(ss, es, tr, n, t, r) {
      var at: nat :| at < n && InForce(ss, es, tr, at, n, t, r);
      assert at < m ==> InForce(ss, es, tr, at, m, t, r);
    }
    if !Remakes(tr[m], t) {
      if Granted(ss, es, tr, m, t, r) {
        var at: nat :| at < m && InForce(ss, es, tr, at, m, t, r);
        assert InForce(ss, es, tr, at, n, t, r);
      }
      if PortsGivenAt(ss, es, m, t, r) {
        assert InForce(ss, es, tr, m, n, t, r);
      }
    }
  }

  /** The change of a thread's ranges in one step of a run. */
  lemma RangesStep(ss: seq<System>, es: seq<Event>, tr: seq<Deed>, m: nat, t: nat, r: (Port, Port))
    requires Behavior(ss, es) && Traces(ss, es, tr) && m + 1 < |ss| && Slot(t)
    requires WellShaped(ss[m]) && WellShaped(ss[m + 1])
    ensures r in PortRanges(ss[m + 1].k.threads[t].caps) <==>
      !Remakes(tr[m], t) && (r in PortRanges(ss[m].k.threads[t].caps) || PortsGivenAt(ss, es, m, t, r))
  {
    Always(ss, es, m);
    assert ss[m + 1] == Next(ss[m], es[m]);
    assert tr[m] == DeedAt(ss, es, m);
    PortStep(ss[m].k, es[m], t, r);
  }

  /** The port ranges a thread holds are those that thread 0 has granted it. */
  lemma {:induction false} RangesAreGranted(ss: seq<System>, es: seq<Event>, tr: seq<Deed>, n: nat, t: nat, r: (Port, Port))
    requires Behavior(ss, es) && Traces(ss, es, tr) && n < |ss| && WellShaped(ss[n]) && Slot(t)
    ensures r in PortRanges(ss[n].k.threads[t].caps) <==> Granted(ss, es, tr, n, t, r)
    decreases n
  {
    if n == 0 {
      BootedHoldsNothing(t, 0);
    } else {
      Always(ss, es, n - 1);
      RangesAreGranted(ss, es, tr, n - 1, t, r);
      RangesStep(ss, es, tr, n - 1, t, r);
      GrantedStep(ss, es, tr, n - 1, t, r);
    }
  }

  /** The check accepts exactly the ports of the ranges that thread 0 has granted the thread, but for
      ranges that reach 65536, which give it none. */
  lemma PortsAreGranted(ss: seq<System>, es: seq<Event>, tr: seq<Deed>, n: nat, t: nat, port: Port)
    requires Behavior(ss, es) && Traces(ss, es, tr) && n < |ss| && WellShaped(ss[n]) && Slot(t)
    ensures HasPort(ss[n].k.threads[t].caps, port) <==>
      exists r: (Port, Port) | Granted(ss, es, tr, n, t, r) :: r.0 + r.1 < 0x1_0000 && r.0 <= port < r.0 + r.1
  {
    var caps := ss[n].k.threads[t].caps;
    PortsOfRanges(caps, port);
    forall r: (Port, Port)
      ensures r in PortRanges(caps) <==> Granted(ss, es, tr, n, t, r)
    {
      RangesAreGranted(ss, es, tr, n, t, r);
    }
  }

  /** The ports that SYS_INW reads when it has checked one. */
  function WordPorts(port: Port): set<int> {
    {port, port + 1}
  }

  /** The port is the last one of the range, if it lies in it, and the range does not start behind it. */
  predicate EndsAtPort(r: (Port, Port), port: Port) {
    (r.0 <= port < r.0 + r.1 ==> port == r.0 + r.1 - 1) && (r.0 == port + 1 ==> r.1 == 0)
  }

  /** A word read that passes its check reaches a port that the check refuses exactly if all granted
      ranges that end below 65536 end at the port checked, or lie apart from it. */
  lemma WordReads(ss: seq<System>, es: seq<Event>, tr: seq<Deed>, n: nat, t: nat, port: Port)
    requires Behavior(ss, es) && Traces(ss, es, tr) && n < |ss| && WellShaped(ss[n]) && Slot(t)
    requires HasPort(ss[n].k.threads[t].caps, port)
    ensures port + 1 < 0x1_0000
    ensures (exists p | p in WordPorts(port) :: !HasPort(ss[n].k.threads[t].caps, p)) <==>
      forall r: (Port, Port) | Granted(ss, es, tr, n, t, r) && r.0 + r.1 < 0x1_0000 :: EndsAtPort(r, port)
  {
    PortsAreGranted(ss, es, tr, n, t, port);
    PortsAreGranted(ss, es, tr, n, t, port + 1);
    assert port in WordPorts(port) && port + 1 in WordPorts(port);
  }

  /** In every reachable state the used slots of a table come first and name distinct endpoints. */
  lemma TablesStayOk(ss: seq<System>, es: seq<Event>, n: nat, t: nat)
    requires Behavior(ss, es) && n < |ss| && Slot(t)
    ensures WellShaped(ss[n]) && TableOk(ss[n].k.threads[t].caps)
  {
    Always(ss, es, n);
    assert ThreadOk(ss[n].k.threads[t], t);
  }
}
