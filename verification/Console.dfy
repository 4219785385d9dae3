/** The console driver (drivers/console/main.c): a ring of received bytes, a history ring and the
    reader's buffer, edited in place by loops. The driver is proved to be the line editor applied
    to the stream of bytes, however interrupts divide it. */
module Console {
  import opened Words
  import opened LineEditor
  import opened Terminal

  const RING: nat := 256

  /** A finished line, as its reader finds it in the buffer when the reply comes. */
  datatype Reply = Reply(to: int, line: Text)

  /** The driver as a value: the read in progress, if any, the history, the bytes received and not
      yet edited, the characters sent, and the replies. */
  datatype Driver = Driver(
    active: bool, to: int, max: Limit, ed: Editor, hist: seq<Text>, queue: Text, sent: Text, replies: seq<Reply>)

  predicate Ready(d: Driver) {
    d.active ==> Fits(d.ed, Room(d.max), d.hist)
  }

  /** What has been received is edited, up to the end of the line, or up to a key that would make the
      driver write outside the reader's buffer. */
  function Edited(d: Driver): (d': Driver)
    requires Ready(d)
    ensures Ready(d')
  {
    if !d.active then d else Settled(d, Typed(d.ed, d.max, d.hist, d.queue))
  }

  /** After the outcome of editing. */
  function Settled(d: Driver, o: LineEditor.Outcome): Driver {
    var d1 := d.(ed := o.ed, queue := o.rest, sent := d.sent + o.out);
    if o.done then Accepted(d1) else d1
  }

  /** The next key makes the driver write outside the reader's buffer; the model goes no further. */
  predicate Stuck(d: Driver)
    requires Ready(d)
  {
    d.active && d.queue != [] && Overruns(d.ed, d.max, d.hist, d.queue[0])
  }

  /** The line is done: it is replied and remembered. */
  function Accepted(d: Driver): Driver {
    d.(active := false, hist := Push(d.hist, d.ed.text), replies := d.replies + [Reply(d.to, d.ed.text)])
  }

  function Arrived(d: Driver, bytes: Text): Driver {
    d.(queue := d.queue + bytes)
  }

  /** An interrupt that brings bytes. */
  function OnIrq(d: Driver, bytes: Text): (d': Driver)
    requires Ready(d)
    ensures Ready(d')
  {
    Edited(Arrived(d, bytes))
  }

  /** A read request starts with an empty line; bytes typed ahead are edited at once. */
  function Began(d: Driver, to: int, max: Limit): Driver {
    d.(active := true, to := to, max := max, ed := d.ed.(text := [], pos := 0, esc := Plain, nav := 0))
  }

  function OnRead(d: Driver, to: int, max: Limit): (d': Driver)
    requires Ready(d)
    ensures Ready(d')
  {
    Edited(Began(d, to, max))
  }

  lemma AppendTwice(a: Text, b: Text, c: Text)
    ensures (a + b) + c == a + (b + c)
  {
  }

  /** One byte is edited. */
  function Keyed(d: Driver): (d': Driver)
    requires Ready(d) && d.active && d.queue != []
    ensures Ready(d')
  {
    Reacts(d.(queue := d.queue[1..]), Key(d.ed, Room(d.max), d.hist, d.queue[0]))
  }

  /** The driver reacts to a key as r says. */
  function Reacts(d: Driver, r: Reaction): Driver {
    var d1 := d.(ed := r.ed, sent := d.sent + r.out);
    if r.done then Accepted(d1) else d1
  }

  /** Editing byte by byte. */
  lemma EditedNext(d: Driver)
    requires Ready(d)
    ensures d.active && d.queue != [] && !Stuck(d) ==> Edited(Keyed(d)) == Edited(d)
    ensures !(d.active && d.queue != []) || Stuck(d) ==> Edited(d) == d
  {
    if d.active {
      if d.queue == [] || Stuck(d) {
        assert d.sent + [] == d.sent;
      } else {
        var r := Key(d.ed, Room(d.max), d.hist, d.queue[0]);
        if !r.done {
          AppendTwice(d.sent, r.out, Typed(r.ed, d.max, d.hist, d.queue[1..]).out);
        }
      }
    }
  }

  /** A driver gets stuck only in a read into an empty buffer, at a key that ends the line or recalls
      one. */
  lemma StuckExactly(d: Driver)
    requires Ready(d)
    ensures Stuck(d) <==> d.active && d.max == 0 && d.queue != [] && EndsOrRecalls(d.ed, d.hist, d.queue[0])
  {
    if d.active && d.queue != [] {
      OverrunsExactly(d.ed, d.max, d.hist, d.queue[0]);
    }
  }

  /** A read into an empty buffer, and a carriage return, and the driver writes outside the buffer. */
  lemma EmptyReadOverruns(d: Driver, to: int)
    requires Ready(d) && d.queue == []
    ensures Stuck(OnIrq(OnRead(d, to, 0), [CR]))
  {
    var d1 := Began(d, to, 0);
    EditedNext(d1);
    assert [] + [CR] == [CR];
    var d2 := Arrived(d1, [CR]);
    StuckExactly(d2);
    EditedNext(d2);
  }

  // ---- the stream may be divided at will ----

  lemma SettledMore(d: Driver, o: LineEditor.Outcome, b: Text)
    ensures Arrived(Settled(d, o), b) == Settled(d, o.(rest := o.rest + b))
  {
  }

  lemma SettledTwice(d: Driver, o: LineEditor.Outcome, p: LineEditor.Outcome)
    requires !o.done
    ensures Settled(Settled(d, o), p) == Settled(d, p.(out := o.out + p.out))
  {
    assert (d.sent + o.out) + p.out == d.sent + (o.out + p.out);
  }

  lemma IrqSplit(d: Driver, a: Text, b: Text)
    requires Ready(d)
    ensures OnIrq(OnIrq(d, a), b) == OnIrq(d, a + b)
  {
    assert d.queue + (a + b) == (d.queue + a) + b;
    if d.active {
      var q := d.queue + a;
      var o := Typed(d.ed, d.max, d.hist, q);
      TypedSplit(d.ed, d.max, d.hist, q, b);
      assert OnIrq(d, a) == Settled(d, o);
      SettledMore(d, o, b);
      if !o.done {
        if o.rest == [] {
          IrqSplitGoesOn(d, o, b);
        } else {
          EditedNext(Settled(d, o.(rest := o.rest + b)));
        }
      }
    }
  }

  lemma IrqSplitGoesOn(d: Driver, o: LineEditor.Outcome, b: Text)
    requires d.active && Fits(o.ed, Room(d.max), d.hist) && !o.done && o.rest == []
    ensures var p := Typed(o.ed, d.max, d.hist, b);
      OnIrq(Settled(d, o), b) == Settled(d, p.(out := o.out + p.out))
  {
    assert [] + b == b;
    SettledTwice(d, o, Typed(o.ed, d.max, d.hist, b));
  }

  function OnIrqs(d: Driver, chunks: seq<Text>): (d': Driver)
    requires Ready(d)
    ensures Ready(d')
    decreases |chunks|
  {
    if chunks == [] then d else OnIrqs(OnIrq(d, chunks[0]), chunks[1..])
  }

  function Joined(chunks: seq<Text>): Text {
    if chunks == [] then [] else chunks[0] + Joined(chunks[1..])
  }

  /** A driver with a read in progress has edited all it has received, as far as it can. */
  predicate Drained(d: Driver)
    requires Ready(d)
  {
    d.active ==> d.queue == [] || Stuck(d)
  }

  lemma EditedDrains(d: Driver)
    requires Ready(d)
    ensures Drained(Edited(d))
  {
  }

  /** However the bytes are divided among interrupts, the line, the history, the characters sent,
      the replies and the bytes left over are those of the whole stream. */
  lemma {:induction false} StreamsDivide(d: Driver, chunks: seq<Text>)
    requires Ready(d) && Drained(d)
    ensures OnIrqs(d, chunks) == OnIrq(d, Joined(chunks))
    decreases |chunks|
  {
    if chunks == [] {
      assert d.queue + [] == d.queue;
      EditedNext(d);
    } else {
      EditedDrains(Arrived(d, chunks[0]));
      StreamsDivide(OnIrq(d, chunks[0]), chunks[1..]);
      IrqSplit(d, chunks[0], Joined(chunks[1..]));
    }
  }

  /** An idle driver may be asked for a line before the bytes come or after. */
  lemma ReadCommutes(d: Driver, to: int, max: Limit, bytes: Text)
    requires Ready(d) && !d.active
    ensures OnIrq(OnRead(d, to, max), bytes) == OnRead(Arrived(d, bytes), to, max)
  {
    var d1 := Began(d, to, max);
    IrqSplit(d1, [], bytes);
    assert [] + bytes == bytes;
    assert Arrived(d1, []) == d1;
  }

  /** What comes to the driver: bytes, or a request for a line. */
  datatype Input = Bytes(bytes: Text) | Request(to: int, max: Limit)

  function OnInputs(d: Driver, inputs: seq<Input>): (d': Driver)
    requires Ready(d)
    ensures Ready(d')
    decreases |inputs|
  {
    if inputs == [] then d
    else
      match inputs[0]
      case Bytes(b) => OnInputs(OnIrq(d, b), inputs[1..])
      case Request(to, max) => OnInputs(OnRead(d, to, max), inputs[1..])
  }

  /** Every request finds the driver idle: readers take turns. */
  predicate InTurn(d: Driver, inputs: seq<Input>)
    requires Ready(d)
    decreases |inputs|
  {
    inputs != [] ==>
      match inputs[0]
      case Bytes(b) => InTurn(OnIrq(d, b), inputs[1..])
      case Request(to, max) => !d.active && InTurn(OnRead(d, to, max), inputs[1..])
  }

  /** All bytes of the inputs, and all their requests. */
  function BytesOf(inputs: seq<Input>): Text {
    if inputs == [] then [] else (if inputs[0].Bytes? then inputs[0].bytes else []) + BytesOf(inputs[1..])
  }

  function RequestsOf(inputs: seq<Input>): seq<Input> {
    if inputs == [] then [] else (if inputs[0].Bytes? then [] else [inputs[0]]) + RequestsOf(inputs[1..])
  }

  /** When readers take turns, what is replied to whom does not depend on when the bytes come: it is
      as if all of them had been received first. */
  lemma {:induction false} RequestsCommute(d: Driver, inputs: seq<Input>)
    requires Ready(d) && Drained(d) && InTurn(d, inputs)
    ensures OnInputs(d, inputs) == OnInputs(OnIrq(d, BytesOf(inputs)), RequestsOf(inputs))
    decreases |inputs|
  {
    if inputs == [] {
      assert Arrived(d, []) == d;
      EditedNext(d);
    } else {
      var rest := inputs[1..];
      match inputs[0]
      case Bytes(b) =>
        EditedDrains(Arrived(d, b));
        RequestsCommute(OnIrq(d, b), rest);
        IrqSplit(d, b, BytesOf(rest));
        assert [] + RequestsOf(rest) == RequestsOf(rest);
      case Request(to, max) =>
        EditedDrains(Began(d, to, max));
        RequestsCommute(OnRead(d, to, max), rest);
        ReadCommutes(d, to, max, BytesOf(rest));
        FirstRequest(OnIrq(d, BytesOf(rest)), inputs[0], RequestsOf(rest));
        assert [] + BytesOf(rest) == BytesOf(rest);
    }
  }

  lemma FirstRequest(d: Driver, r: Input, rest: seq<Input>)
    requires Ready(d) && r.Request?
    ensures OnInputs(d, [r] + rest) == OnInputs(OnRead(d, r.to, r.max), rest)
  {
    assert ([r] + rest)[1..] == rest;
  }

  /** A line ends at the first carriage return, newline or Ctrl-C that is not part of an escape
      sequence; every byte after it stays queued, in order. */
  lemma {:induction false} LineEnds(ed: Editor, max: nat, hist: seq<Text>, keys: Text)
    requires Fits(ed, max, hist)
    ensures var o := Keys(ed, max, hist, keys); var n := |keys| - |o.rest|;
      o.done ==> 0 < n <= |keys| && o.rest == keys[n..] && (keys[n - 1] == CR || keys[n - 1] == NL || keys[n - 1] == CTRL_C)
    decreases |keys|
  {
    if keys == [] {
    } else {
      var r := Key(ed, max, hist, keys[0]);
      if !r.done {
        LineEnds(r.ed, max, hist, keys[1..]);
        var o := Keys(r.ed, max, hist, keys[1..]);
        if o.done {
          var n := |keys| - |o.rest|;
          assert keys[1..][n - 1..] == keys[n..];
          assert keys[1..][n - 2] == keys[n - 1];
        }
      }
    }
  }

  // ---- the history over all lines ----

  function Lines(replies: seq<Reply>): seq<Text> {
    seq(|replies|, i requires 0 <= i < |replies| => replies[i].line)
  }

  ghost predicate HistoryOk(d: Driver) {
    d.hist == Newest(Remembered(Lines(d.replies)))
  }

  lemma HistoryKept(d: Driver)
    requires Ready(d) && HistoryOk(d)
    ensures HistoryOk(Edited(d))
  {
    if d.active && Typed(d.ed, d.max, d.hist, d.queue).done {
      var line := Typed(d.ed, d.max, d.hist, d.queue).ed.text;
      var lines, lines' := Lines(d.replies), Lines(Edited(d).replies);
      assert lines' == lines + [line];
      assert lines'[..|lines'| - 1] == lines;
      HistoryIsNewest(lines);
      HistoryIsNewest(lines');
    }
  }

  /** The line, the parked line and the history hold visible characters only, so that a reader may
      rely on the screen showing its line. */
  ghost predicate AllSeen(d: Driver) {
    AllVisible(d.ed.text) && AllVisible(d.ed.saved) && AllLines(d.hist)
  }

  lemma SeenKept(d: Driver)
    requires Ready(d) && AllSeen(d)
    ensures AllSeen(Edited(d))
  {
    if d.active {
      var o := Typed(d.ed, d.max, d.hist, d.queue);
      var n := |d.queue| - |o.rest|;
      TypedIs(d.ed, d.max, d.hist, d.queue);
      KeysVisible(d.ed, Room(d.max), d.hist, if o.done then d.queue else d.queue[..n]);
      assert d.queue[..|d.queue|] == d.queue;
      PushVisible(d.hist, o.ed.text);
    }
  }

  /** The terminal over an interrupt: if its line shows the buffer before, and no byte edited is a
      delete inside the line, its line shows the buffer after, or is fresh if the line is done. */
  lemma IrqTracks(d: Driver, bytes: Text, s: Screen, left: Text)
    requires Ready(d) && AllSeen(d) && d.active && Shows(s, left, d.ed.text, d.ed.pos)
    requires SafeKeys(d.ed, Room(d.max), d.hist, d.queue + bytes) && !Stuck(OnIrq(d, bytes))
    ensures var d' := OnIrq(d, bytes);
      && d.sent <= d'.sent
      && var s' := ShowAll(s, d'.sent[|d.sent|..]);
         if d'.active then Shows(s', left, d'.ed.text, d'.ed.pos) else s' == Screen([], 0)
  {
    ScreenTracks(s, left, d.ed, Room(d.max), d.hist, d.queue + bytes);
    TypedIs(d.ed, d.max, d.hist, d.queue + bytes);
    var o := Typed(d.ed, d.max, d.hist, d.queue + bytes);
    assert (d.sent + o.out)[|d.sent|..] == o.out;
  }

  // ---- the driver in place ----

  /** The bytes of a ring from its tail up to its head. */
  function Queued(ring: seq<Byte>, head: nat, tail: nat): Text
    requires |ring| == RING && head < RING && tail < RING
  {
    if tail <= head then ring[tail..head] else ring[tail..] + ring[..head]
  }

  /** After a byte at the head, up to `next`, the queue is longer by it. */
  predicate Lengthened(ring: seq<Byte>, head: nat, tail: nat, next: nat, c: Byte)
    requires |ring| == RING && head < RING && tail < RING && next < RING
  {
    Queued(ring[head := c], next, tail) == Queued(ring, head, tail) + [c]
  }

  lemma QueuedPush(ring: seq<Byte>, head: nat, tail: nat, c: Byte, next: nat)
    requires |ring| == RING && head < RING && tail < RING && next == (head + 1) % RING
    ensures next == tail <==> |Queued(ring, head, tail)| == RING - 1
    ensures next != tail ==> Lengthened(ring, head, tail, next, c)
  {
    if head < tail {
      if next != tail {
        PushWrapped(ring, head, tail, c, next);
      }
    } else if head < RING - 1 {
      PushStraight(ring, head, tail, c, next);
    } else if tail > 0 {
      PushLast(ring, head, tail, c, next);
    }
  }

  lemma PushStraight(ring: seq<Byte>, head: nat, tail: nat, c: Byte, next: nat)
    requires |ring| == RING && tail <= head < RING - 1 && next == head + 1
    ensures Lengthened(ring, head, tail, next, c)
  {
    assert ring[head := c][tail..next] == ring[tail..head] + [c];
  }

  lemma PushLast(ring: seq<Byte>, head: nat, tail: nat, c: Byte, next: nat)
    requires |ring| == RING && 0 < tail <= head == RING - 1 && next == 0
    ensures Lengthened(ring, head, tail, next, c)
  {
    assert ring[head := c][tail..] + ring[head := c][..next] == ring[tail..head] + [c];
  }

  lemma PushWrapped(ring: seq<Byte>, head: nat, tail: nat, c: Byte, next: nat)
    requires |ring| == RING && head < tail < RING && next == head + 1 < tail
    ensures Lengthened(ring, head, tail, next, c)
  {
    var after := ring[head := c];
    assert after[tail..] == ring[tail..] && after[..next] == ring[..head] + [c];
    AppendTwice(ring[tail..], ring[..head], [c]);
  }

  /** The byte at the tail is the first one queued, and the others are queued from `next` on. */
  predicate Popped(ring: seq<Byte>, head: nat, tail: nat, next: nat)
    requires |ring| == RING && head < RING && tail < RING && next < RING
  {
    var q := Queued(ring, head, tail);
    q != [] && q[0] == ring[tail] && q[1..] == Queued(ring, head, next)
  }

  lemma QueuedPop(ring: seq<Byte>, head: nat, tail: nat, next: nat)
    requires |ring| == RING && head < RING && tail < RING && head != tail && next == (tail + 1) % RING
    ensures Popped(ring, head, tail, next)
  {
    if tail <= head {
      PopStraight(ring, head, tail, next);
    } else if tail == RING - 1 {
      PopLast(ring, head, tail, next);
    } else {
      PopWrapped(ring, head, tail, next);
    }
  }

  lemma PopStraight(ring: seq<Byte>, head: nat, tail: nat, next: nat)
    requires |ring| == RING && tail < head < RING && next == tail + 1
    ensures Popped(ring, head, tail, next)
  {
    assert ring[tail..head][1..] == ring[next..head];
  }

  lemma PopLast(ring: seq<Byte>, head: nat, tail: nat, next: nat)
    requires |ring| == RING && head < tail == RING - 1 && next == 0
    ensures Popped(ring, head, tail, next)
  {
    assert ring[tail..] == [ring[tail]];
    assert ([ring[tail]] + ring[..head])[1..] == ring[next..head];
  }

  lemma PopWrapped(ring: seq<Byte>, head: nat, tail: nat, next: nat)
    requires |ring| == RING && head < tail < RING - 1 && next == tail + 1
    ensures Popped(ring, head, tail, next)
  {
    assert (ring[tail..] + ring[..head])[1..] == ring[next..] + ring[..head];
  }

  /** A byte is offered to a ring that holds q, and dropped if the ring is full. */
  function Offered(q: Text, c: Byte): Text {
    if |q| < RING - 1 then q + [c] else q
  }

  function Taken(q: Text, bytes: Text): Text {
    if bytes == [] then q else Offered(Taken(q, bytes[..|bytes| - 1]), bytes[|bytes| - 1])
  }

  /** The ring keeps the first bytes that it has room for. */
  lemma {:induction false} TakenIs(q: Text, bytes: Text)
    requires |q| < RING
    ensures Taken(q, bytes) == q + bytes[..Kept(|q|, |bytes|)]
  {
    if bytes == [] {
    } else {
      var before := bytes[..|bytes| - 1];
      TakenIs(q, before);
      assert bytes == before + [bytes[|bytes| - 1]];
    }
  }

  /** How many of n bytes a ring that holds `held` has room for. */
  function Kept(held: nat, n: nat): (m: nat)
    ensures m <= n
  {
    if held + n < RING then n else if held < RING then RING - 1 - held else 0
  }

  /** The ring slot of the entry at depth d, when the next entry goes to slot `next`. */
  function HistIndex(next: nat, d: nat): nat
    requires next < HMAX && d < HMAX
  {
    (next + (HMAX - 1) - d) % HMAX
  }

  lemma {:induction false} ErasesNext(k: nat)
    ensures Erases(k) + [BS] + [SPACE] + [BS] == Erases(k + 1)
  {
    if k == 0 {
    } else {
      ErasesNext(k - 1);
      assert Erases(k) + [BS] + [SPACE] + [BS] == [BS, SPACE, BS] + (Erases(k - 1) + [BS] + [SPACE] + [BS]);
    }
  }

  /** The editor on its way to depth nav of the history. */
  function Departed(ed: Editor, nav: nat): Editor {
    if ed.nav == 0 then ed.(saved := Cut(ed.text), nav := nav) else ed.(nav := nav)
  }

  lemma NavigateIs(ed: Editor, max: nat, hist: seq<Text>, up: bool)
    requires Fits(ed, max, hist)
    ensures var nav := if up then ed.nav + 1 else ed.nav - 1;
      Navigate(ed, max, hist, up) ==
        if 0 <= nav <= |hist| then AtDepth(Departed(ed, nav), max, hist) else Say(ed, [])
  {
  }

  /** The editor shows the line at its depth of the history. */
  function AtDepth(ed: Editor, max: nat, hist: seq<Text>): Reaction
    requires Fits(ed, max, hist)
  {
    SetLine(ed, max, if ed.nav == 0 then ed.saved else hist[ed.nav - 1])
  }

  lemma NewestOfFew(h: seq<Text>)
    requires |h| <= HMAX
    ensures Newest(h) == h
  {
  }

  /** Depths count from the newest entry, so an entry goes one deeper when the next slot moves on. */
  lemma IndexMoves(next: nat, d: nat)
    requires next < HMAX && d < HMAX
    ensures HistIndex((next + 1) % HMAX, 0) == next
    ensures d > 0 ==> HistIndex((next + 1) % HMAX, d) == HistIndex(next, d - 1) != next
  {
  }

  class Console {
    const ring: array<Byte>
    var rHead: nat
    var rTail: nat

    const hist: seq<array<Byte>>
    const histLen: array<nat>
    var hCount: nat
    var hNext: nat
    var hNav: nat
    const hSaved: array<Byte>
    var hSavedN: nat

    var rdActive: bool
    var rdFrom: int
    var rdBuf: array<Byte>
    var rdMax: Limit
    var rdN: nat
    var rdPos: nat
    var esc: Escape
    var csiNum: nat

    var sent: Text
    var replies: seq<Reply>

    ghost predicate Apart()
      reads this, hist
    {
      && ring.Length == RING && histLen.Length == HMAX && hSaved.Length == HLEN && |hist| == HMAX
      && (forall i | 0 <= i < HMAX :: hist[i].Length == HLEN)
      && (forall i, j | 0 <= i < j < HMAX :: hist[i] != hist[j])
      && (forall i | 0 <= i < HMAX :: hist[i] != ring && hist[i] != hSaved && hist[i] != rdBuf)
      && ring != hSaved && ring != rdBuf && hSaved != rdBuf
    }

    ghost predicate Valid()
      reads this, hist, histLen
    {
      && Apart()
      && rHead < RING && rTail < RING
      && hCount <= HMAX && hNext < HMAX && hNav <= hCount && hSavedN < HLEN
      && (forall i | 0 <= i < HMAX :: histLen[i] < HLEN)
      && rdMax <= rdBuf.Length && rdPos <= rdN <= rdBuf.Length
      && (rdActive ==> rdN < Room(rdMax))
    }

    ghost function Queue(): Text
      reads `rHead, `rTail, ring
      requires ring.Length == RING && rHead < RING && rTail < RING
    {
      Queued(ring[..], rHead, rTail)
    }

    ghost predicate HistShape()
      reads `hCount, `hNext, histLen
    {
      && |hist| == HMAX && histLen.Length == HMAX && hCount <= HMAX && hNext < HMAX
      && (forall i | 0 <= i < HMAX :: hist[i].Length == HLEN && histLen[i] < HLEN)
    }

    ghost function Entry(i: nat): Text
      reads hist, histLen, `hCount, `hNext
      requires HistShape() && i < HMAX
    {
      hist[i][..histLen[i]]
    }

    /** The history from depth d on, newest first. */
    ghost function HistoryFrom(d: nat): (h: seq<Text>)
      reads hist, histLen, `hCount, `hNext
      requires HistShape() && d <= hCount
      ensures |h| == hCount - d && forall j | 0 <= j < |h| :: h[j] == Entry(HistIndex(hNext, d + j))
      decreases hCount - d
    {
      if d == hCount then [] else [Entry(HistIndex(hNext, d))] + HistoryFrom(d + 1)
    }

    ghost function History(): seq<Text>
      reads hist, histLen, `hCount, `hNext
      requires HistShape()
    {
      HistoryFrom(0)
    }

    ghost function Ed(): Editor
      reads `rdBuf, `rdN, `rdPos, `esc, `csiNum, `hNav, `hSavedN, rdBuf, hSaved
      requires rdN <= rdBuf.Length && hSavedN <= hSaved.Length
    {
      Editor(rdBuf[..rdN], rdPos, esc, csiNum, hNav, hSaved[..hSavedN])
    }

    ghost function View(): Driver
      reads this, hist, histLen, rdBuf, hSaved, ring
      requires Valid()
    {
      Driver(rdActive, rdFrom, rdMax, Ed(), History(), Queue(), sent, replies)
    }

    /** The static data at start-up. */
    constructor ()
      ensures Valid() && fresh(ring) && fresh(hist) && fresh(histLen) && fresh(hSaved) && fresh(rdBuf)
      ensures View() == Driver(false, 0, 0, Editor([], 0, Plain, 0, 0, []), [], [], [], [])
    {
      var rows: seq<array<Byte>> := [];
      while |rows| < HMAX
        invariant |rows| <= HMAX
        invariant forall i | 0 <= i < |rows| :: fresh(rows[i]) && rows[i].Length == HLEN
        invariant forall i, j | 0 <= i < j < |rows| :: rows[i] != rows[j]
      {
        var row := new Byte[HLEN];
        rows := rows + [row];
      }
      hist := rows;
      ring := new Byte[RING];
      histLen := new nat[HMAX](i => 0);
      hSaved := new Byte[HLEN];
      rdBuf := new Byte[0];
      rHead, rTail, hCount, hNext, hNav, hSavedN := 0, 0, 0, 0, 0, 0;
      rdActive, rdFrom, rdMax, rdN, rdPos, esc, csiNum := false, 0, 0, 0, 0, Plain, 0;
      sent, replies := [], [];
    }

    // ---- output ----

    method UartPutc(c: Byte)
      modifies this`sent
      ensures sent == old(sent) + [c]
    {
      sent := sent + [c];
    }

    method Backspaces(k: nat)
      modifies this`sent
      ensures sent == old(sent) + Backs(k)
    {
      var i := 0;
      while i < k
        invariant i <= k && sent == old(sent) + Backs(i)
      {
        UartPutc(BS);
        i := i + 1;
      }
    }

    /** Rewrites the line from `from` to its end. */
    method PutText(from: nat)
      requires Valid() && from <= rdN
      modifies this`sent
      ensures sent == old(sent) + rdBuf[from..rdN]
    {
      var i := from;
      while i < rdN
        invariant from <= i <= rdN && sent == old(sent) + rdBuf[from..i]
      {
        UartPutc(rdBuf[i]);
        i := i + 1;
      }
    }

    // ---- the receive ring ----

    /** A byte that finds the ring full is dropped. */
    method RingPush(c: Byte)
      requires Valid()
      modifies this`rHead, ring
      ensures Valid() && Queue() == Offered(old(Queue()), c)
    {
      var n := (rHead + 1) % RING;
      QueuedPush(ring[..], rHead, rTail, c, n);
      if n != rTail {
        ghost var bytes := ring[..];
        ring[rHead] := c;
        assert ring[..] == bytes[rHead := c];
        rHead := n;
      }
    }

    method RingPop() returns (c: int)
      requires Valid()
      modifies this`rTail
      ensures Valid()
      ensures if old(Queue()) == [] then c == -1 && Queue() == [] else c == old(Queue())[0] && Queue() == old(Queue())[1..]
    {
      if rHead == rTail {
        return -1;
      }
      var next := (rTail + 1) % RING;
      QueuedPop(ring[..], rHead, rTail, next);
      c := ring[rTail];
      rTail := next;
    }

    /** The bytes the UART holds go to the ring, as many as it has room for. */
    method DrainRx(bytes: Text)
      requires Valid()
      modifies this`rHead, ring
      ensures Valid()
      ensures Queue() == Taken(old(Queue()), bytes)
    {
      var i := 0;
      ghost var q := Queue();
      while i < |bytes|
        invariant i <= |bytes| && Valid() && Queue() == Taken(q, bytes[..i])
      {
        RingPush(bytes[i]);
        assert bytes[..i + 1][..i] == bytes[..i];
        i := i + 1;
      }
      assert bytes[..i] == bytes;
    }

    // ---- editing ----

    /** A read is in progress, into a buffer with room for the terminator. */
    ghost predicate Editing()
      reads this, hist, histLen
    {
      Valid() && rdActive && rdMax > 0
    }

    /** Makes room for a character at index `at`. */
    method OpenUp(at: nat, c: Byte)
      requires Editing() && at <= rdN && rdN + 1 < rdMax
      modifies `rdN, rdBuf
      ensures rdN == old(rdN) + 1
      ensures rdBuf[..rdN] == old(rdBuf[..rdN])[..at] + [c] + old(rdBuf[..rdN])[at..]
    {
      ghost var text := rdBuf[..rdN];
      var i := rdN;
      while i > at
        modifies rdBuf
        invariant at <= i <= rdN
        invariant forall j | 0 <= j < i :: rdBuf[j] == text[j]
        invariant forall j | i < j <= rdN :: rdBuf[j] == text[j - 1]
      {
        rdBuf[i] := rdBuf[i - 1];
        i := i - 1;
      }
      rdBuf[at] := c;
      rdN := rdN + 1;
    }

    /** The driver has reacted to a key as r says: a line that is done is terminated in the reader's
        buffer, remembered and replied. */
    ghost predicate Reacted(r: Reaction, hist0: seq<Text>, sent0: Text, replies0: seq<Reply>)
      reads this, hist, histLen, rdBuf, hSaved
    {
      && Valid() && Ed() == r.ed && sent == sent0 + r.out && rdActive == !r.done
      && (if r.done then
            && History() == Push(hist0, r.ed.text) && replies == replies0 + [Reply(rdFrom, r.ed.text)]
            && rdN < rdBuf.Length && rdBuf[rdN] == 0
          else History() == hist0 && replies == replies0)
    }

    method Place(c: Byte)
      requires Editing() && rdN + 1 < rdMax
      modifies `rdN, rdBuf
      ensures Editing() && History() == old(History()) && rdN == old(rdN) + 1
      ensures Ed() == old(Ed()).(text := old(rdBuf[..rdN])[..rdPos] + [c] + old(rdBuf[..rdN])[rdPos..])
    {
      OpenUp(rdPos, c);
    }

    /** Sends the line from the cursor on, and returns to behind the cursor's character. */
    method StepOver()
      requires Editing() && rdPos < rdN
      modifies `sent, `rdPos
      ensures Editing() && rdPos == old(rdPos) + 1
      ensures sent == old(sent) + (rdBuf[..rdN][old(rdPos)..] + Backs(rdN - rdPos))
    {
      PutText(rdPos);
      ghost var tail := rdBuf[..rdN][rdPos..];
      assert rdBuf[rdPos..rdN] == tail;
      rdPos := rdPos + 1;
      Backspaces(rdN - rdPos);
      AppendTwice(old(sent), tail, Backs(rdN - rdPos));
    }

    method InsChar(c: Byte)
      requires Editing()
      modifies `sent, `rdN, `rdPos, rdBuf
      ensures Reacted(Insert(old(Ed()), rdMax, c), old(History()), old(sent), old(replies))
    {
      if rdN + 1 >= rdMax {
        return;
      }
      Place(c);
      StepOver();
    }

    /** Closes the gap at index `at`. */
    method CloseUp(at: nat)
      requires Editing() && at < rdN
      modifies `rdN, rdBuf
      ensures rdN == old(rdN) - 1 && rdBuf[..rdN] == Without(old(rdBuf[..rdN]), at)
    {
      ghost var text := rdBuf[..rdN];
      var i := at;
      while i < rdN - 1
        modifies rdBuf
        invariant at <= i <= rdN - 1
        invariant forall j | 0 <= j < at :: rdBuf[j] == text[j]
        invariant forall j | at <= j < i :: rdBuf[j] == text[j + 1]
        invariant forall j | i < j < rdN :: rdBuf[j] == text[j]
      {
        rdBuf[i] := rdBuf[i + 1];
        i := i + 1;
      }
      rdN := rdN - 1;
    }

    method RedrawFrom(from: nat)
      requires Valid() && rdPos <= from <= rdN
      modifies `sent
      ensures sent == old(sent) + rdBuf[from..rdN] + Backs(rdN - rdPos)
    {
      PutText(from);
      Backspaces(rdN - rdPos);
    }

    /** What both deletes send last. */
    method RedrawAfterDelete()
      requires Valid()
      modifies `sent
      ensures sent == old(sent) + Redraw(rdBuf[..rdN], rdPos)
    {
      RedrawFrom(rdPos);
      UartPutc(SPACE);
      Backspaces(rdN - rdPos + 1);
      assert rdBuf[rdPos..rdN] == rdBuf[..rdN][rdPos..];
    }

    /** Takes the character at index `at` out of the line and leaves the cursor there. */
    method Remove(at: nat)
      requires Editing() && at < rdN
      modifies `rdN, `rdPos, rdBuf
      ensures Editing() && History() == old(History())
      ensures Ed() == old(Ed()).(text := Without(old(rdBuf[..rdN]), at), pos := at)
    {
      CloseUp(at);
      rdPos := at;
    }

    method BackAndRedraw()
      requires Valid()
      modifies `sent
      ensures sent == old(sent) + ([BS] + Redraw(rdBuf[..rdN], rdPos))
    {
      UartPutc(BS);
      RedrawAfterDelete();
      AppendTwice(old(sent), [BS], Redraw(rdBuf[..rdN], rdPos));
    }

    method DelLeft()
      requires Editing()
      modifies `sent, `rdN, `rdPos, rdBuf
      ensures Reacted(DeleteLeft(old(Ed())), old(History()), old(sent), old(replies))
    {
      if rdPos == 0 {
        return;
      }
      Remove(rdPos - 1);
      BackAndRedraw();
    }

    method DelAt()
      requires Editing()
      modifies `sent, `rdN, `rdPos, rdBuf
      ensures Reacted(DeleteAt(old(Ed())), old(History()), old(sent), old(replies))
    {
      if rdPos >= rdN {
        return;
      }
      Remove(rdPos);
      RedrawAfterDelete();
    }

    method GoLeft()
      requires Editing()
      modifies `sent, `rdPos
      ensures Reacted(Left(old(Ed())), old(History()), old(sent), old(replies))
    {
      if rdPos > 0 {
        rdPos := rdPos - 1;
        UartPutc(BS);
      }
    }

    method GoRight()
      requires Editing()
      modifies `sent, `rdPos
      ensures Reacted(Right(old(Ed())), old(History()), old(sent), old(replies))
    {
      if rdPos < rdN {
        UartPutc(rdBuf[rdPos]);
        rdPos := rdPos + 1;
      }
    }

    method GoHome()
      requires Editing()
      modifies `sent, `rdPos
      ensures Reacted(Home(old(Ed())), old(History()), old(sent), old(replies))
    {
      while rdPos > 0
        invariant rdPos <= old(rdPos) && sent == old(sent) + Backs(old(rdPos) - rdPos)
      {
        rdPos := rdPos - 1;
        UartPutc(BS);
      }
    }

    method GoEnd()
      requires Editing()
      modifies `sent, `rdPos
      ensures Reacted(End(old(Ed())), old(History()), old(sent), old(replies))
    {
      while rdPos < rdN
        invariant old(rdPos) <= rdPos <= rdN && sent == old(sent) + rdBuf[old(rdPos)..rdPos]
      {
        UartPutc(rdBuf[rdPos]);
        rdPos := rdPos + 1;
      }
      assert rdBuf[old(rdPos)..rdN] == rdBuf[..rdN][old(rdPos)..];
    }

    /** Rubs out the line, from its end. */
    method RubOut()
      modifies `sent, `rdN
      ensures rdN == 0 && sent == old(sent) + Erases(old(rdN))
    {
      while rdN > 0
        invariant rdN <= old(rdN) && sent == old(sent) + Erases(old(rdN) - rdN)
      {
        UartPutc(BS);
        UartPutc(SPACE);
        UartPutc(BS);
        ErasesNext(old(rdN) - rdN);
        rdN := rdN - 1;
      }
    }

    method KillLine()
      requires Editing()
      modifies `sent, `rdN, `rdPos
      ensures Reacted(Kill(old(Ed())), old(History()), old(sent), old(replies))
    {
      ghost var tail := Ed().text[rdPos..];
      GoEnd();
      assert rdN == |Ed().text| == old(rdN);
      RubOut();
      rdPos := 0;
      AppendTwice(old(sent), tail, Erases(old(rdN)));
    }

    /** Copies a line into the reader's buffer, as far as it fits. */
    method LoadLine(s: array<Byte>, n: nat)
      requires Editing() && n <= s.Length && s != rdBuf
      modifies `rdN, `rdPos, rdBuf
      ensures Editing() && rdPos == rdN && rdBuf[..rdN] == if n >= rdMax then s[..n][..rdMax - 1] else s[..n]
    {
      var m := if n >= rdMax then rdMax - 1 else n;
      var i := 0;
      while i < m
        modifies rdBuf
        invariant i <= m && forall j | 0 <= j < i :: rdBuf[j] == s[j]
      {
        rdBuf[i] := s[i];
        i := i + 1;
      }
      rdN, rdPos := m, m;
    }

    method SetToLine(s: array<Byte>, n: nat)
      requires Editing() && n <= s.Length && s != rdBuf
      modifies `sent, `rdN, `rdPos, rdBuf
      ensures Reacted(SetLine(old(Ed()), rdMax, old(s[..n])), old(History()), old(sent), old(replies))
    {
      ghost var ed0, sent0, line := Ed(), sent, s[..n];
      KillLine();
      ghost var out := Kill(ed0).out;
      LoadLine(s, n);
      assert Ed() == SetLine(ed0, rdMax, line).ed;
      ghost var t := rdBuf[..rdN];
      PutText(0);
      assert rdBuf[0..rdN] == t;
      AppendTwice(sent0, out, t);
    }

    // ---- history ----

    /** Parks the line in progress. */
    method Park()
      requires Editing()
      modifies `hSavedN, hSaved
      ensures Editing() && hSaved[..hSavedN] == Cut(rdBuf[..rdN])
    {
      var n := if rdN < HLEN then rdN else HLEN - 1;
      var i := 0;
      while i < n
        modifies hSaved
        invariant i <= n && forall j | 0 <= j < i :: hSaved[j] == rdBuf[j]
      {
        hSaved[i] := rdBuf[i];
        i := i + 1;
      }
      hSavedN := n;
      assert rdBuf[..rdN][..n] == hSaved[..n];
    }

    /** Shows the line at the depth hNav: the parked line, or an entry. */
    method ShowAtDepth()
      requires Editing()
      modifies `sent, `rdN, `rdPos, rdBuf
      ensures Reacted(AtDepth(old(Ed()), rdMax, old(History())), old(History()), old(sent), old(replies))
    {
      if hNav == 0 {
        SetToLine(hSaved, hSavedN);
        return;
      }
      var idx := (hNext + HMAX - hNav) % HMAX;
      assert History()[hNav - 1] == Entry(idx);
      SetToLine(hist[idx], histLen[idx]);
    }

    /** Leaving the live line parks it. */
    method GoToDepth(nav: nat)
      requires Editing() && nav <= hCount && (hNav == 0 ==> nav > 0)
      modifies `hNav, `hSavedN, hSaved
      ensures Editing() && History() == old(History())
      ensures var ed := old(Ed());
        Ed() == Departed(ed, nav)
    {
      if hNav == 0 && nav > 0 {
        Park();
      }
      hNav := nav;
    }

    method Travel(nav: nat, ghost r: Reaction)
      requires Editing() && nav <= hCount && (hNav == 0 ==> nav > 0)
      requires r == AtDepth(Departed(Ed(), nav), rdMax, History())
      modifies `sent, `rdN, `rdPos, `hNav, `hSavedN, rdBuf, hSaved
      ensures Reacted(r, old(History()), old(sent), old(replies))
    {
      GoToDepth(nav);
      ShowAtDepth();
    }

    method HistNav(up: bool)
      requires Editing()
      modifies `sent, `rdN, `rdPos, `hNav, `hSavedN, rdBuf, hSaved
      ensures Reacted(Navigate(old(Ed()), rdMax, old(History()), up), old(History()), old(sent), old(replies))
    {
      NavigateIs(Ed(), rdMax, History(), up);
      ghost var r := Navigate(Ed(), rdMax, History(), up);
      var nav := if up then hNav + 1 else hNav - 1;
      if nav < 0 || nav > hCount {
        assert r == Say(Ed(), []);
        return;
      }
      Travel(nav, r);
    }

    /** Whether the newest entry is the line just read. */
    method RepeatsNewest() returns (same: bool)
      requires Valid()
      ensures same <==> History() != [] && History()[0] == rdBuf[..rdN]
    {
      if hCount == 0 {
        return false;
      }
      var newest := (hNext + HMAX - 1) % HMAX;
      assert History()[0] == Entry(newest);
      if histLen[newest] != rdN {
        return false;
      }
      var i := 0;
      while i < rdN && hist[newest][i] == rdBuf[i]
        invariant i <= rdN && forall j | 0 <= j < i :: hist[newest][j] == rdBuf[j]
      {
        i := i + 1;
      }
      assert i < rdN ==> Entry(newest)[i] != rdBuf[..rdN][i];
      return i == rdN;
    }

    /** Stores the line, cut to an entry's length, in the slot for the next entry. */
    method StoreEntry()
      requires Valid()
      modifies hist, histLen
      ensures Valid() && Entry(hNext) == Cut(rdBuf[..rdN])
      ensures forall k | 0 <= k < HMAX && k != hNext :: Entry(k) == old(Entry(k))
    {
      var n := if rdN >= HLEN then HLEN - 1 else rdN;
      var row := hist[hNext];
      var i := 0;
      while i < n
        modifies row
        invariant i <= n && forall j | 0 <= j < i :: row[j] == rdBuf[j]
      {
        row[i] := rdBuf[i];
        i := i + 1;
      }
      histLen[hNext] := n;
      assert rdBuf[..rdN][..n] == row[..n];
      forall k | 0 <= k < HMAX && k != hNext
        ensures Entry(k) == old(Entry(k))
      {
        assert hist[k] != row;
      }
    }

    /** The slots behind the next one hold the history h, but for an entry that the next slot has
        displaced. */
    ghost predicate Behind(h: seq<Text>)
      reads hist, histLen, `hCount, `hNext
      requires HistShape()
    {
      |h| == hCount && forall d | 0 <= d < hCount && d < HMAX - 1 :: Entry(HistIndex(hNext, d)) == h[d]
    }

    /** The slot just filled becomes the newest entry. */
    method Advance(ghost h: seq<Text>)
      requires HistShape() && Behind(h)
      modifies `hCount, `hNext
      ensures HistShape() && hCount >= old(hCount) && History() == Newest([old(Entry(hNext))] + h)
    {
      ghost var next, newest := hNext, Entry(hNext);
      hNext := (hNext + 1) % HMAX;
      if hCount < HMAX {
        hCount := hCount + 1;
      }
      ghost var h1 := History();
      forall d | 0 <= d < hCount
        ensures h1[d] == if d == 0 then newest else h[d - 1]
      {
        IndexMoves(next, d);
        assert h1[d] == Entry(HistIndex(hNext, d));
      }
      assert h1 == Newest([newest] + h);
    }

    method StoreLine()
      requires Valid()
      modifies `hCount, `hNext, hist, histLen
      ensures Valid() && History() == Newest([Cut(rdBuf[..rdN])] + old(History()))
    {
      ghost var h := History();
      StoreEntry();
      forall d | 0 <= d < hCount && d < HMAX - 1
        ensures Entry(HistIndex(hNext, d)) == h[d]
      {
        IndexMoves(hNext, d + 1);
      }
      Advance(h);
    }

    method HistPush()
      requires Valid()
      modifies `hCount, `hNext, hist, histLen
      ensures Valid() && History() == Push(old(History()), rdBuf[..rdN])
    {
      NewestOfFew(History());
      if rdN == 0 {
        return;
      }
      var same := RepeatsNewest();
      if !same {
        StoreLine();
      }
    }

    // ---- keys ----

    /** Ends the text in the reader's buffer with a zero byte. */
    method Terminate()
      requires Editing()
      modifies rdBuf
      ensures Editing() && Ed() == old(Ed()) && History() == old(History()) && rdBuf[rdN] == 0
    {
      rdBuf[rdN] := 0;
      assert rdBuf[..rdN] == old(rdBuf[..rdN]);
    }

    /** The line is remembered and replied. */
    method AcceptText(ghost text: Text)
      requires Valid() && rdN < rdBuf.Length && text == rdBuf[..rdN]
      modifies `rdActive, `hCount, `hNext, `replies, hist, histLen
      ensures Valid() && !rdActive && Ed() == old(Ed()) && rdBuf[rdN] == old(rdBuf[rdN])
      ensures History() == Push(old(History()), text) && replies == old(replies) + [Reply(rdFrom, text)]
    {
      HistPush();
      rdActive := false;
      replies := replies + [Reply(rdFrom, rdBuf[..rdN])];
    }

    /** All of finish_line but its newline. */
    method Conclude()
      requires Editing()
      modifies `rdActive, `hCount, `hNext, `replies, rdBuf, hist, histLen
      ensures Reacted(Reaction(old(Ed()), [], true), old(History()), old(sent), old(replies))
    {
      Terminate();
      AcceptText(Ed().text);
    }

    method FinishLine()
      requires Editing()
      modifies `sent, `rdActive, `hCount, `hNext, `replies, rdBuf, hist, histLen
      ensures Reacted(Reaction(old(Ed()), [NL], true), old(History()), old(sent), old(replies))
    {
      UartPutc(NL);
      Conclude();
    }

    /** The key that ends an escape sequence. */
    method CsiKey(c: Byte)
      requires Editing()
      modifies `sent, `rdN, `rdPos, `hNav, `hSavedN, rdBuf, hSaved
      ensures Reacted(InCsiKey(old(Ed()), rdMax, old(History()), c), old(History()), old(sent), old(replies))
    {
      match c
      case 0x41 => HistNav(true);
      case 0x42 => HistNav(false);
      case 0x43 => GoRight();
      case 0x44 => GoLeft();
      case 0x48 => GoHome();
      case 0x46 => GoEnd();
      case 0x7E =>
        if csiNum == 3 {
          DelAt();
        } else if csiNum == 1 || csiNum == 7 {
          GoHome();
        } else if csiNum == 4 || csiNum == 8 {
          GoEnd();
        }
      case _ =>
    }

    /** A key outside escape sequences that leaves the line unfinished. */
    method EditingKey(c: Byte)
      requires Editing() && !(c == CR || c == NL || c == CTRL_C)
      modifies `sent, `rdN, `rdPos, `esc, rdBuf
      ensures Reacted(PlainKey(old(Ed()), rdMax, old(History()), c), old(History()), old(sent), old(replies))
    {
      match c
      case 0x1B => esc := SawEsc;
      case 0x7F => DelLeft();
      case 0x08 => DelLeft();
      case 0x01 => GoHome();
      case 0x05 => GoEnd();
      case 0x02 => GoLeft();
      case 0x06 => GoRight();
      case 0x15 => KillLine();
      case _ =>
        if 0x20 <= c < 0x7F {
          InsChar(c);
        }
    }

    method DropLine()
      requires Editing()
      modifies `sent, `rdN, `rdPos
      ensures Reacted(Say(old(Ed()).(text := [], pos := 0), [CARET, UPPER_C, NL]), old(History()), old(sent), old(replies))
    {
      UartPutc(CARET);
      UartPutc(UPPER_C);
      UartPutc(NL);
      rdN, rdPos := 0, 0;
    }

    /** Ctrl-C: the line is dropped and an empty one is finished. */
    method Cancel()
      requires Editing()
      modifies `sent, `rdN, `rdPos, `rdActive, `hCount, `hNext, `replies, rdBuf, hist, histLen
      ensures Reacted(Reaction(old(Ed()).(text := [], pos := 0), [CARET, UPPER_C, NL, NL], true),
                      old(History()), old(sent), old(replies))
    {
      ghost var out := [CARET, UPPER_C, NL];
      DropLine();
      FinishLine();
      AppendTwice(old(sent), out, [NL]);
      assert out + [NL] == [CARET, UPPER_C, NL, NL];
    }

    method PlainKeyIn(c: Byte)
      requires Editing()
      modifies `sent, `rdN, `rdPos, `esc, `rdActive, `hCount, `hNext, `replies, rdBuf, hist, histLen
      ensures Reacted(PlainKey(old(Ed()), rdMax, old(History()), c), old(History()), old(sent), old(replies))
    {
      if c == CR || c == NL {
        FinishLine();
      } else if c == CTRL_C {
        Cancel();
      } else {
        EditingKey(c);
      }
    }

    /** The escape sequence is over. */
    method LeaveEscape(ghost r: Reaction, ghost hist0: seq<Text>, ghost sent0: Text, ghost replies0: seq<Reply>)
      requires Reacted(r, hist0, sent0, replies0) && !r.done
      modifies `esc
      ensures Reacted(r.(ed := r.ed.(esc := Plain)), hist0, sent0, replies0)
    {
      esc := Plain;
    }

    method CsiDigit(c: Byte)
      requires Editing() && 0x30 <= c <= 0x39
      modifies `csiNum
      ensures Reacted(Say(old(Ed()).(csi := old(csiNum) * 10 + (c - 0x30)), []), old(History()), old(sent), old(replies))
    {
      csiNum := csiNum * 10 + (c - 0x30);
    }

    /** A byte inside an escape sequence. */
    method CsiByte(c: Byte)
      requires Editing() && esc.InCsi?
      modifies `sent, `rdN, `rdPos, `esc, `csiNum, `hNav, `hSavedN, rdBuf, hSaved
      ensures Reacted(Key(old(Ed()), rdMax, old(History()), c), old(History()), old(sent), old(replies))
    {
      ghost var r, k := Key(Ed(), rdMax, History(), c), InCsiKey(Ed(), rdMax, History(), c);
      if 0x30 <= c <= 0x39 {
        assert r == Say(Ed().(csi := csiNum * 10 + (c - 0x30)), []);
        CsiDigit(c);
      } else {
        assert r == k.(ed := k.ed.(esc := Plain)) && !k.done;
        CsiKey(c);
        LeaveEscape(k, old(History()), old(sent), old(replies));
      }
    }

    method EditKey(c: Byte)
      requires Editing()
      modifies `sent, `rdN, `rdPos, `esc, `csiNum, `hNav, `hSavedN, `rdActive, `hCount, `hNext, `replies
      modifies rdBuf, hSaved, hist, histLen
      ensures Reacted(Key(old(Ed()), rdMax, old(History()), c), old(History()), old(sent), old(replies))
    {
      match esc
      case SawEsc =>
        esc := if c == CSI || c == SS3 then InCsi else Plain;
        csiNum := 0;
      case InCsi => CsiByte(c);
      case Plain => PlainKeyIn(c);
    }

    // ---- the service loop ----

    /** Follows an escape sequence, with no line to change. */
    method FollowEscape(c: Byte)
      requires Valid() && rdActive
      modifies `esc, `csiNum
      ensures Valid() && Ed() == Escaped(old(Ed()), c) && History() == old(History())
    {
      match esc
      case SawEsc =>
        esc := if c == CSI || c == SS3 then InCsi else Plain;
        csiNum := 0;
      case InCsi =>
        if 0x30 <= c <= 0x39 {
          csiNum := csiNum * 10 + (c - 0x30);
        } else {
          esc := Plain;
        }
      case Plain =>
        if c == ESC {
          esc := SawEsc;
        }
    }

    /** A byte read into an empty buffer: the line stays empty, so every key that would move in it or
        change it does nothing. `wild` if the editor writes outside the buffer: finish_line its
        terminator, or set_line a line that is then not cut. */
    method EmptyKey(c: Byte) returns (wild: bool)
      requires Valid() && rdActive && rdMax == 0
      modifies `esc, `csiNum
      ensures Valid() && (wild <==> Overruns(old(Ed()), 0, old(History()), c))
      ensures !wild ==> Reacted(Key(old(Ed()), 1, old(History()), c), old(History()), old(sent), old(replies))
    {
      OverrunsExactly(Ed(), 0, History(), c);
      wild := match esc
        case SawEsc => false
        case InCsi => (c == 0x41 && hNav < hCount) || (c == 0x42 && hNav > 0)
        case Plain => c == CR || c == NL || c == CTRL_C;
      if !wild {
        EmptyLineStays(Ed(), History(), c);
        FollowEscape(c);
      }
    }

    /** One byte, with a read in progress; `wild` if it makes the editor write outside the reader's
        buffer, and the model goes no further. */
    method EditByte(c: Byte) returns (wild: bool)
      requires Valid() && rdActive
      modifies `sent, `rdN, `rdPos, `esc, `csiNum, `hNav, `hSavedN, `rdActive, `hCount, `hNext, `replies
      modifies rdBuf, hSaved, hist, histLen
      ensures Valid() && (wild <==> Overruns(old(Ed()), rdMax, old(History()), c))
      ensures !wild ==> Reacted(Key(old(Ed()), Room(rdMax), old(History()), c), old(History()), old(sent), old(replies))
    {
      OverrunsExactly(Ed(), rdMax, History(), c);
      if rdMax == 0 {
        wild := EmptyKey(c);
      } else {
        wild := false;
        EditKey(c);
      }
    }

    /** The driver after one byte has been taken from the ring and edited. */
    method EditPopped(c: Byte, ghost q: Text) returns (wild: bool)
      requires Valid() && rdActive && Queue() == q
      modifies `sent, `rdN, `rdPos, `esc, `csiNum, `hNav, `hSavedN, `rdActive, `hCount, `hNext, `replies
      modifies rdBuf, hSaved, hist, histLen
      ensures Valid() && (wild <==> Overruns(old(Ed()), rdMax, old(History()), c))
      ensures !wild ==> !rdActive ==> Terminated()
      ensures !wild ==> View() == Reacts(old(View()), Key(old(Ed()), Room(rdMax), old(History()), c))
    {
      wild := EditByte(c);
      assert Queue() == q;
    }

    /** Takes one byte from the ring and edits it. */
    method EditNext() returns (wild: bool)
      requires Valid() && rdActive && Queue() != []
      modifies `sent, `rdN, `rdPos, `esc, `csiNum, `hNav, `hSavedN, `rdActive, `hCount, `hNext, `replies, `rTail
      modifies rdBuf, hSaved, hist, histLen
      ensures Valid() && Ready(old(View())) && (wild <==> Stuck(old(View())))
      ensures !wild ==> !rdActive ==> Terminated()
      ensures !wild ==> View() == Keyed(old(View()))
    {
      ghost var d, q := View(), Queue();
      var c := RingPop();
      assert View() == d.(queue := q[1..]);
      wild := EditPopped(c, q[1..]);
    }

    /** The last reply's line stands in the reader's buffer with a zero byte after it. */
    ghost predicate Terminated()
      reads this, rdBuf
    {
      && replies != [] && rdN < rdBuf.Length
      && rdBuf[..rdN] == replies[|replies| - 1].line && rdBuf[rdN] == 0
    }

    /** Edits what has been received, up to the end of the line. */
    method Edit() returns (wild: bool)
      requires Valid()
      modifies `sent, `rdN, `rdPos, `esc, `csiNum, `hNav, `hSavedN, `rdActive, `hCount, `hNext, `replies, `rTail
      modifies rdBuf, hSaved, hist, histLen
      ensures Valid() && Ready(old(View())) && (wild <==> Stuck(Edited(old(View()))))
      ensures !wild ==> View() == Edited(old(View())) && (old(rdActive) && !rdActive ==> Terminated())
    {
      ghost var d0 := View();
      while rdActive && rTail != rHead
        invariant Valid() && Ready(d0) && Edited(View()) == Edited(d0)
        invariant old(rdActive) && !rdActive ==> Terminated()
        decreases |Queue()|
      {
        ghost var d := View();
        EmptyQueue();
        EditedNext(d);
        wild := EditNext();
        if wild {
          return;
        }
      }
      EmptyQueue();
      EditedNext(View());
      wild := false;
    }

    lemma EmptyQueue()
      requires Valid()
      ensures Queue() == [] <==> rHead == rTail
    {
    }

    /** MSG_IRQ: the bytes the UART holds are taken in, as far as the ring has room for them, and
        edited. */
    method Irq(bytes: Text) returns (wild: bool)
      requires Valid()
      modifies this, ring, rdBuf, hSaved, hist, histLen
      ensures Valid() && Ready(old(View())) && rdBuf == old(rdBuf)
      ensures var kept := bytes[..Kept(|old(Queue())|, |bytes|)];
        && (wild <==> Stuck(OnIrq(old(View()), kept)))
        && (!wild ==> View() == OnIrq(old(View()), kept))
    {
      ghost var q := Queue();
      DrainRx(bytes);
      TakenIs(q, bytes);
      assert Queue() == q + bytes[..Kept(|q|, |bytes|)];
      wild := Edit();
    }

    method ClearLine()
      requires Valid()
      modifies `rdN, `rdPos, `esc, `hNav
      ensures Valid() && History() == old(History())
      ensures Ed() == old(Ed()).(text := [], pos := 0, esc := Plain, nav := 0)
    {
      rdN, rdPos, esc, hNav := 0, 0, Plain, 0;
    }

    method Attach(who: int, buf: array<Byte>, max: Limit)
      requires Valid() && rdN == 0 && max <= buf.Length
      requires buf != ring && buf != hSaved && forall i | 0 <= i < HMAX :: buf != hist[i]
      modifies `rdActive, `rdFrom, `rdBuf, `rdMax
      ensures Valid() && Ed() == old(Ed())
      ensures rdActive && rdFrom == who && rdBuf == buf && rdMax == max
    {
      rdActive, rdFrom := true, who;
      rdBuf, rdMax := buf, max;
    }

    method BeginLine(who: int, buf: array<Byte>, max: Limit)
      requires Valid() && max <= buf.Length
      requires buf != ring && buf != hSaved && forall i | 0 <= i < HMAX :: buf != hist[i]
      modifies `rdActive, `rdFrom, `rdBuf, `rdMax, `rdN, `rdPos, `esc, `hNav
      ensures Valid() && rdBuf == buf && View() == Began(old(View()), who, max)
    {
      ClearLine();
      Attach(who, buf, max);
    }

    /** MSG_READLINE from a thread with a buffer of `len` bytes, of which the driver takes the low 32
        bits as its limit. */
    method ReadLine(who: int, buf: array<Byte>, len: nat) returns (wild: bool)
      requires Valid() && len <= buf.Length
      requires buf != ring && buf != hSaved && forall i | 0 <= i < HMAX :: buf != hist[i]
      modifies this, buf, hSaved, hist, histLen
      ensures Valid() && Ready(old(View()))
      ensures wild <==> Stuck(OnRead(old(View()), who, len % 0x1_0000_0000))
      ensures !wild ==> View() == OnRead(old(View()), who, len % 0x1_0000_0000)
    {
      BeginLine(who, buf, len % 0x1_0000_0000);
      wild := Edit();
    }

    /** MSG_WRITE. */
    method Write(bytes: Text)
      requires Valid()
      modifies `sent
      ensures Valid() && View() == old(View()).(sent := old(sent) + bytes)
    {
      var i := 0;
      while i < |bytes|
        invariant i <= |bytes| && sent == old(sent) + bytes[..i]
      {
        UartPutc(bytes[i]);
        i := i + 1;
      }
    }
  }
}
