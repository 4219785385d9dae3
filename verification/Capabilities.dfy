/** Capability tables (kernel/cap.c): sixteen slots, filled from the front, that hold the right to
    send to an endpoint or to use a range of I/O ports. */
module Capabilities {
  const CAP_MAX: nat := 16
  const CAP_RIGHT_SEND: nat := 1

  type Port = p: nat | p < 0x1_0000

  datatype Cap = NullCap | Endpoint(target: int, rights: nat) | IoPort(base: Port, len: Port)

  type Table = seq<Cap>

  function ClearTable(): Table {
    seq(CAP_MAX, i => NullCap)
  }

  /** The first free slot, or the table's length when it is full. */
  function FirstNull(t: Table): (i: nat)
    ensures i <= |t| && (i < |t| ==> t[i].NullCap?)
    ensures forall j | 0 <= j < i :: !t[j].NullCap?
  {
    if t == [] || t[0].NullCap? then 0 else
      var r := FirstNull(t[1..]);
      assert forall j | 0 < j < r + 1 :: t[j] == t[1..][j - 1];
      1 + r
  }

  function Install(t: Table, c: Cap): Table {
    var i := FirstNull(t);
    if i < |t| then t[i := c] else t
  }

  predicate HasEndpoint(t: Table, target: int) {
    exists i | 0 <= i < |t| :: t[i].Endpoint? && t[i].target == target
  }

  function GrantEndpoint(t: Table, target: int): Table {
    if HasEndpoint(t, target) then t else Install(t, Endpoint(target, CAP_RIGHT_SEND))
  }

  function GrantIo(t: Table, base: Port, len: Port): Table {
    Install(t, IoPort(base, len))
  }

  /** The end of the range is computed in 16 bits. */
  predicate CoversPort(c: Cap, port: Port) {
    c.IoPort? && c.base <= port && port < (c.base + c.len) % 0x1_0000
  }

  predicate HasPort(t: Table, port: Port) {
    exists i | 0 <= i < |t| :: CoversPort(t[i], port)
  }

  /** A range covers exactly its own ports, except that one whose end reaches 65536 covers none. */
  lemma CoversExactly(base: Port, len: Port, port: Port)
    ensures CoversPort(IoPort(base, len), port) <==> base + len < 0x1_0000 && base <= port < base + len
  {
  }

  // ---- well-formed tables ----

  /** Used slots come first, and no two of them name the same endpoint. */
  ghost predicate TableOk(t: Table) {
    && |t| == CAP_MAX
    && (forall i, j | 0 <= i < j < |t| && t[i].NullCap? :: t[j].NullCap?)
    && (forall i, j | 0 <= i < j < |t| && t[i].Endpoint? && t[j].Endpoint? :: t[i].target != t[j].target)
  }

  ghost function PortRanges(t: Table): set<(Port, Port)> {
    set i | 0 <= i < |t| && t[i].IoPort? :: (t[i].base, t[i].len)
  }

  predicate Full(t: Table) {
    FirstNull(t) == |t|
  }

  lemma GrantEndpointOk(t: Table, target: int)
    requires TableOk(t)
    ensures var t' := GrantEndpoint(t, target);
      && TableOk(t') && PortRanges(t') == PortRanges(t)
      && (HasEndpoint(t', target) <==> HasEndpoint(t, target) || !Full(t))
      && forall e | e != target :: HasEndpoint(t', e) == HasEndpoint(t, e)
  {
    var i := FirstNull(t);
    var t' := GrantEndpoint(t, target);
    if !HasEndpoint(t, target) && i < |t| {
      assert t'[i] == Endpoint(target, CAP_RIGHT_SEND);
      assert forall j | 0 <= j < |t| && j != i :: t'[j] == t[j];
      forall e | e != target
        ensures HasEndpoint(t', e) == HasEndpoint(t, e)
      {
        if HasEndpoint(t, e) {
          var j :| 0 <= j < |t| && t[j].Endpoint? && t[j].target == e;
          assert t'[j] == t[j];
        }
      }
      InstallRanges(t, Endpoint(target, CAP_RIGHT_SEND));
    }
  }

  lemma InstallRanges(t: Table, c: Cap)
    requires !Full(t)
    ensures PortRanges(Install(t, c)) == PortRanges(t) + (if c.IoPort? then {(c.base, c.len)} else {})
  {
    var i := FirstNull(t);
    var t' := Install(t, c);
    assert forall j | 0 <= j < |t| && j != i :: t'[j] == t[j];
    forall r | r in PortRanges(t)
      ensures r in PortRanges(t')
    {
      var j :| 0 <= j < |t| && t[j].IoPort? && r == (t[j].base, t[j].len);
      assert t'[j] == t[j];
    }
    if c.IoPort? {
      assert t'[i] == c;
    }
  }

  lemma GrantIoOk(t: Table, base: Port, len: Port)
    requires TableOk(t)
    ensures var t' := GrantIo(t, base, len);
      && TableOk(t') && PortRanges(t') == PortRanges(t) + (if Full(t) then {} else {(base, len)})
      && forall e :: HasEndpoint(t', e) == HasEndpoint(t, e)
  {
    var i := FirstNull(t);
    var t' := GrantIo(t, base, len);
    if i < |t| {
      assert forall j | 0 <= j < |t| && j != i :: t'[j] == t[j];
      InstallRanges(t, IoPort(base, len));
      forall e
        ensures HasEndpoint(t', e) == HasEndpoint(t, e)
      {
        if HasEndpoint(t, e) {
          var j :| 0 <= j < |t| && t[j].Endpoint? && t[j].target == e;
          assert t'[j] == t[j];
        }
      }
    }
  }

  /** The ports a table gives access to are those of its ranges that end below 65536. */
  lemma PortsOfRanges(t: Table, port: Port)
    ensures HasPort(t, port) <==>
      exists r: (Port, Port) | r in PortRanges(t) :: r.0 + r.1 < 0x1_0000 && r.0 <= port < r.0 + r.1
  {
    if HasPort(t, port) {
      var i :| 0 <= i < |t| && CoversPort(t[i], port);
      CoversExactly(t[i].base, t[i].len, port);
      assert (t[i].base, t[i].len) in PortRanges(t);
    }
    if r: (Port, Port) :| r in PortRanges(t) && r.0 + r.1 < 0x1_0000 && r.0 <= port < r.0 + r.1 {
      var i :| 0 <= i < |t| && t[i].IoPort? && r == (t[i].base, t[i].len);
      CoversExactly(t[i].base, t[i].len, port);
      assert CoversPort(t[i], port);
    }
  }
}
