/** The console's single-line editor as a function of the keys typed (drivers/console/main.c): the
    line and its cursor, escape sequences, the command history, and the characters sent to the
    terminal. */
module LineEditor {
  import opened Words

  const HMAX: nat := 16
  const HLEN: nat := 128

  const BS: Byte := 0x08
  const NL: Byte := 0x0A
  const CR: Byte := 0x0D
  const ESC: Byte := 0x1B
  const SPACE: Byte := 0x20
  const DEL: Byte := 0x7F
  const CARET: Byte := 0x5E
  const UPPER_C: Byte := 0x43
  const CSI: Byte := 0x5B
  const SS3: Byte := 0x4F
  const TILDE: Byte := 0x7E
  const CTRL_A: Byte := 0x01
  const CTRL_B: Byte := 0x02
  const CTRL_C: Byte := 0x03
  const CTRL_E: Byte := 0x05
  const CTRL_F: Byte := 0x06
  const CTRL_U: Byte := 0x15

  type Text = seq<Byte>

  datatype Escape = Plain | SawEsc | InCsi

  /** The line and cursor of a read in progress; the escape sequence being parsed; how deep in the
      history the line shown is, and the line parked meanwhile. */
  datatype Editor = Editor(text: Text, pos: nat, esc: Escape, csi: nat, nav: nat, saved: Text)

  /** The editor after a key, the characters sent to the terminal, and whether the line is done. */
  datatype Reaction = Reaction(ed: Editor, out: Text, done: bool)

  function Backs(k: nat): (t: Text)
    ensures |t| == k
  {
    seq(k, i => BS)
  }

  /** Backspace, blank, backspace, k times. */
  function Erases(k: nat): Text {
    if k == 0 then [] else [BS, SPACE, BS] + Erases(k - 1)
  }

  predicate Visible(b: Byte) {
    0x20 <= b < 0x7F
  }

  /** A read into a buffer of `max` bytes, one of which is for the terminator. */
  predicate Fits(ed: Editor, max: nat, hist: seq<Text>) {
    ed.pos <= |ed.text| < max && ed.nav <= |hist|
  }

  // ---- history ----

  /** An accepted line enters the history, newest first, unless it is empty or repeats the newest. */
  function Remember(hist: seq<Text>, line: Text): seq<Text> {
    if line == [] || (hist != [] && hist[0] == line) then hist
    else [Cut(line)] + hist
  }

  function Cut(line: Text): Text {
    if |line| >= HLEN then line[..HLEN - 1] else line
  }

  /** The console keeps the newest sixteen. */
  function Push(hist: seq<Text>, line: Text): seq<Text> {
    Newest(Remember(hist, line))
  }

  function Newest(hist: seq<Text>): seq<Text> {
    if |hist| > HMAX then hist[..HMAX] else hist
  }

  // ---- editing ----

  function Say(ed: Editor, out: Text): Reaction {
    Reaction(ed, out, false)
  }

  function Insert(ed: Editor, max: nat, c: Byte): Reaction
    requires ed.pos <= |ed.text|
  {
    if |ed.text| + 1 >= max then Say(ed, [])
    else
      var t := ed.text[..ed.pos] + [c] + ed.text[ed.pos..];
      Say(ed.(text := t, pos := ed.pos + 1), t[ed.pos..] + Backs(|ed.text| - ed.pos))
  }

  /** The text without its character at i. */
  function Without(t: Text, i: nat): Text
    requires i < |t|
  {
    t[..i] + t[i + 1..]
  }

  /** What is sent after a delete that leaves text t with the cursor at pos: the rest of the line,
      the way back, a blank, and one more way back. */
  function Redraw(t: Text, pos: nat): Text
    requires pos <= |t|
  {
    t[pos..] + Backs(|t| - pos) + [SPACE] + Backs(|t| - pos + 1)
  }

  function DeleteLeft(ed: Editor): Reaction
    requires ed.pos <= |ed.text|
  {
    if ed.pos == 0 then Say(ed, [])
    else
      var t := Without(ed.text, ed.pos - 1);
      Say(ed.(text := t, pos := ed.pos - 1), [BS] + Redraw(t, ed.pos - 1))
  }

  function DeleteAt(ed: Editor): Reaction
    requires ed.pos <= |ed.text|
  {
    if ed.pos >= |ed.text| then Say(ed, [])
    else
      var t := Without(ed.text, ed.pos);
      Say(ed.(text := t), Redraw(t, ed.pos))
  }

  function Left(ed: Editor): Reaction {
    if ed.pos == 0 then Say(ed, []) else Say(ed.(pos := ed.pos - 1), [BS])
  }

  function Right(ed: Editor): Reaction {
    if ed.pos >= |ed.text| then Say(ed, []) else Say(ed.(pos := ed.pos + 1), [ed.text[ed.pos]])
  }

  function Home(ed: Editor): Reaction {
    Say(ed.(pos := 0), Backs(ed.pos))
  }

  function End(ed: Editor): Reaction
    requires ed.pos <= |ed.text|
  {
    Say(ed.(pos := |ed.text|), ed.text[ed.pos..])
  }

  /** The visible line is erased and another one shown, as far as it fits. */
  function SetLine(ed: Editor, max: nat, line: Text): Reaction
    requires ed.pos <= |ed.text| && max > 0
  {
    var t := if |line| >= max then line[..max - 1] else line;
    Say(ed.(text := t, pos := |t|), ed.text[ed.pos..] + Erases(|ed.text|) + t)
  }

  function Kill(ed: Editor): Reaction
    requires ed.pos <= |ed.text|
  {
    Say(ed.(text := [], pos := 0), ed.text[ed.pos..] + Erases(|ed.text|))
  }

  /** One step up the history, to an older line, or down. */
  function Navigate(ed: Editor, max: nat, hist: seq<Text>, up: bool): Reaction
    requires Fits(ed, max, hist)
  {
    var nav := if up then ed.nav + 1 else ed.nav - 1;
    if nav < 0 || nav > |hist| then Say(ed, [])
    else
      var e := if ed.nav == 0 then ed.(saved := Cut(ed.text), nav := nav) else ed.(nav := nav);
      SetLine(e, max, if nav == 0 then e.saved else hist[nav - 1])
  }

  // ---- keys ----

  function InCsiKey(ed: Editor, max: nat, hist: seq<Text>, c: Byte): Reaction
    requires Fits(ed, max, hist)
  {
    if c == 'A' as int then Navigate(ed, max, hist, true)
    else if c == 'B' as int then Navigate(ed, max, hist, false)
    else if c == 'C' as int then Right(ed)
    else if c == 'D' as int then Left(ed)
    else if c == 'H' as int then Home(ed)
    else if c == 'F' as int then End(ed)
    else if c == TILDE && ed.csi == 3 then DeleteAt(ed)
    else if c == TILDE && (ed.csi == 1 || ed.csi == 7) then Home(ed)
    else if c == TILDE && (ed.csi == 4 || ed.csi == 8) then End(ed)
    else Say(ed, [])
  }

  function PlainKey(ed: Editor, max: nat, hist: seq<Text>, c: Byte): Reaction
    requires Fits(ed, max, hist)
  {
    if c == ESC then Say(ed.(esc := SawEsc), [])
    else if c == CR || c == NL then Reaction(ed, [NL], true)
    else if c == DEL || c == BS then DeleteLeft(ed)
    else if c == CTRL_A then Home(ed)
    else if c == CTRL_E then End(ed)
    else if c == CTRL_B then Left(ed)
    else if c == CTRL_F then Right(ed)
    else if c == CTRL_U then Kill(ed)
    else if c == CTRL_C then Reaction(ed.(text := [], pos := 0), [CARET, UPPER_C, NL, NL], true)
    else if Visible(c) then Insert(ed, max, c)
    else Say(ed, [])
  }

  function Key(ed: Editor, max: nat, hist: seq<Text>, c: Byte): (r: Reaction)
    requires Fits(ed, max, hist)
    ensures Fits(r.ed, max, hist)
  {
    match ed.esc
    case SawEsc => Say(ed.(esc := if c == CSI || c == SS3 then InCsi else Plain, csi := 0), [])
    case InCsi =>
      if 0x30 <= c <= 0x39 then Say(ed.(csi := ed.csi * 10 + (c - 0x30)), [])
      else
        var r := InCsiKey(ed, max, hist, c);
        r.(ed := r.ed.(esc := Plain))
    case Plain => PlainKey(ed, max, hist, c)
  }

  /** The keys of a stream up to the end of a line, and what is left of the stream. */
  datatype Outcome = Outcome(ed: Editor, out: Text, done: bool, rest: Text)

  function Keys(ed: Editor, max: nat, hist: seq<Text>, keys: Text): (o: Outcome)
    requires Fits(ed, max, hist)
    ensures Fits(o.ed, max, hist) && (!o.done ==> o.rest == [])
    decreases |keys|
  {
    if keys == [] then Outcome(ed, [], false, [])
    else
      var r := Key(ed, max, hist, keys[0]);
      if r.done then Outcome(r.ed, r.out, true, keys[1..])
      else
        var o := Keys(r.ed, max, hist, keys[1..]);
        o.(out := r.out + o.out)
  }

  // ---- the limits of the reader's buffer ----

  /** The limit of a read is an unsigned int. */
  type Limit = n: nat | n < 0x1_0000_0000

  /** An empty buffer is edited like one that has room for the terminator alone, up to the key that
      writes outside it. */
  function Room(max: Limit): (r: nat)
    ensures r > 0
  {
    if max == 0 then 1 else max
  }

  /** How many characters set_line copies of a line of n; the subtraction wraps around. */
  function Loads(n: nat, max: Limit): nat {
    if n >= max then (max + 0xFFFF_FFFF) % 0x1_0000_0000 else n
  }

  /** The key makes the editor write outside the buffer: its terminator has no place there, or it
      copies more than fits. Every other key writes below the end of the line, or where an
      insertion has room. */
  predicate Overruns(ed: Editor, max: Limit, hist: seq<Text>, c: Byte)
    requires Fits(ed, Room(max), hist)
  {
    match ed.esc
    case SawEsc => false
    case InCsi =>
      || (c == 'A' as int && ed.nav < |hist| && Loads(|hist[ed.nav]|, max) > max)
      || (c == 'B' as int && ed.nav > 0 && Loads(if ed.nav == 1 then |ed.saved| else |hist[ed.nav - 2]|, max) > max)
    case Plain => ((c == CR || c == NL) && |ed.text| >= max) || (c == CTRL_C && 0 >= max)
  }

  /** The key ends the line, or recalls one from the history. */
  predicate EndsOrRecalls(ed: Editor, hist: seq<Text>, c: Byte) {
    || (ed.esc.Plain? && (c == CR || c == NL || c == CTRL_C))
    || (ed.esc.InCsi? && ((c == 'A' as int && ed.nav < |hist|) || (c == 'B' as int && ed.nav > 0)))
  }

  /** A key writes outside the reader's buffer exactly if the buffer is empty and the key ends the
      line or recalls one. */
  lemma OverrunsExactly(ed: Editor, max: Limit, hist: seq<Text>, c: Byte)
    requires Fits(ed, Room(max), hist)
    ensures Overruns(ed, max, hist, c) <==> max == 0 && EndsOrRecalls(ed, hist, c)
  {
    if max > 0 {
      assert (max + 0xFFFF_FFFF) % 0x1_0000_0000 == max - 1;
    }
  }

  /** What is left of a key when there is no line to change. */
  function Escaped(ed: Editor, c: Byte): Editor {
    match ed.esc
    case SawEsc => ed.(esc := if c == CSI || c == SS3 then InCsi else Plain, csi := 0)
    case InCsi => if 0x30 <= c <= 0x39 then ed.(csi := ed.csi * 10 + (c - 0x30)) else ed.(esc := Plain)
    case Plain => if c == ESC then ed.(esc := SawEsc) else ed
  }

  lemma EmptyLineStays(ed: Editor, hist: seq<Text>, c: Byte)
    requires Fits(ed, 1, hist) && !EndsOrRecalls(ed, hist, c)
    ensures Key(ed, 1, hist, c) == Say(Escaped(ed, c), [])
  {
    assert ed.text == [] && Backs(0) == [] && Erases(0) == [];
  }

  /** The keys of a stream up to the end of a line, or up to a key that would write outside the
      buffer. */
  function Typed(ed: Editor, max: Limit, hist: seq<Text>, keys: Text): (o: Outcome)
    requires Fits(ed, Room(max), hist)
    ensures Fits(o.ed, Room(max), hist)
    ensures !o.done && o.rest != [] ==> Overruns(o.ed, max, hist, o.rest[0])
    decreases |keys|
  {
    if keys == [] || Overruns(ed, max, hist, keys[0]) then Outcome(ed, [], false, keys)
    else
      var r := Key(ed, Room(max), hist, keys[0]);
      if r.done then Outcome(r.ed, r.out, true, keys[1..])
      else
        var o := Typed(r.ed, max, hist, keys[1..]);
        o.(out := r.out + o.out)
  }

  /** Typing is editing, of all keys up to the one that would write outside. */
  lemma {:induction false} TypedIs(ed: Editor, max: Limit, hist: seq<Text>, keys: Text)
    requires Fits(ed, Room(max), hist)
    ensures var o := Typed(ed, max, hist, keys); var n := |keys| - |o.rest|;
      && 0 <= n && keys[n..] == o.rest
      && (if o.done || o.rest == [] then o == Keys(ed, Room(max), hist, keys)
          else max == 0 && Keys(ed, Room(max), hist, keys[..n]) == o.(rest := []))
    decreases |keys|
  {
    if keys == [] {
      return;
    }
    OverrunsExactly(ed, max, hist, keys[0]);
    if !Overruns(ed, max, hist, keys[0]) {
      var r := Key(ed, Room(max), hist, keys[0]);
      if !r.done {
        TypedIs(r.ed, max, hist, keys[1..]);
        var o := Typed(r.ed, max, hist, keys[1..]);
        var n := |keys| - |o.rest|;
        assert keys[..n][0] == keys[0] && keys[..n][1..] == keys[1..][..n - 1];
        assert keys[1..][n - 1..] == keys[n..];
      }
    }
  }

  /** No stream of keys makes a read write outside its buffer exactly if the buffer is not empty. */
  lemma ReadsInBounds(ed: Editor, max: Limit, hist: seq<Text>)
    requires Fits(ed, Room(max), hist) && ed.esc.Plain?
    ensures max > 0 <==> forall keys: Text :: var o := Typed(ed, max, hist, keys); o.done || o.rest == []
  {
    if max > 0 {
      forall keys: Text
        ensures var o := Typed(ed, max, hist, keys); o.done || o.rest == []
      {
        TypedIs(ed, max, hist, keys);
      }
    } else {
      OverrunsExactly(ed, max, hist, CR);
      var keys := [CR];
      assert Typed(ed, max, hist, keys) == Outcome(ed, [], false, keys);
    }
  }

  /** A stream of keys typed may be taken in parts. */
  lemma {:induction false} TypedSplit(ed: Editor, max: Limit, hist: seq<Text>, a: Text, b: Text)
    requires Fits(ed, Room(max), hist)
    ensures var o := Typed(ed, max, hist, a);
      Typed(ed, max, hist, a + b) ==
      if o.done || o.rest != [] then o.(rest := o.rest + b)
      else
        var p := Typed(o.ed, max, hist, b);
        p.(out := o.out + p.out)
    decreases |a|
  {
    if a == [] {
      assert a + b == b;
    } else {
      assert (a + b)[0] == a[0] && (a + b)[1..] == a[1..] + b;
      if !Overruns(ed, max, hist, a[0]) {
        var r := Key(ed, Room(max), hist, a[0]);
        if !r.done {
          TypedSplit(r.ed, max, hist, a[1..], b);
          var o := Typed(r.ed, max, hist, a[1..]);
          if o.rest == [] && !o.done {
            var p := Typed(o.ed, max, hist, b);
            assert r.out + (o.out + p.out) == (r.out + o.out) + p.out;
          }
        }
      }
    }
  }

  /** A stream may be taken in parts. */
  lemma {:induction false} KeysSplit(ed: Editor, max: nat, hist: seq<Text>, a: Text, b: Text)
    requires Fits(ed, max, hist)
    ensures var o := Keys(ed, max, hist, a);
      Keys(ed, max, hist, a + b) ==
      if o.done then o.(rest := o.rest + b)
      else
        var p := Keys(o.ed, max, hist, b);
        p.(out := o.out + p.out)
    decreases |a|
  {
    if a == [] {
      assert a + b == b;
    } else {
      assert (a + b)[0] == a[0] && (a + b)[1..] == a[1..] + b;
      var r := Key(ed, max, hist, a[0]);
      if !r.done {
        KeysSplit(r.ed, max, hist, a[1..], b);
        var o := Keys(r.ed, max, hist, a[1..]);
        if !o.done {
          var p := Keys(o.ed, max, hist, b);
          assert r.out + (o.out + p.out) == (r.out + o.out) + p.out;
        }
      }
    }
  }

  // ---- history ----

  /** Everything ever accepted, newest first. */
  function Remembered(lines: seq<Text>): seq<Text> {
    if lines == [] then [] else Remember(Remembered(lines[..|lines| - 1]), lines[|lines| - 1])
  }

  function Pushed(lines: seq<Text>): seq<Text> {
    if lines == [] then [] else Push(Pushed(lines[..|lines| - 1]), lines[|lines| - 1])
  }

  /** The bounded history is the newest part of the unbounded one: the entry at depth k is the k-th
      most recently accepted line. */
  lemma {:induction false} HistoryIsNewest(lines: seq<Text>)
    ensures Pushed(lines) == Newest(Remembered(lines))
  {
    if lines == [] {
    } else {
      var before, line := lines[..|lines| - 1], lines[|lines| - 1];
      HistoryIsNewest(before);
      var all := Remembered(before);
      var few := Newest(all);
      assert few == [] <==> all == [];
      if !(line == [] || (all != [] && all[0] == line)) {
        assert Newest([Cut(line)] + few) == Newest([Cut(line)] + all);
      } else {
        assert Newest(few) == few;
      }
    }
  }

  /** No entry is empty or too long, and neighbours differ unless they fill their entries and so may
      have been cut. */
  ghost predicate Entries(h: seq<Text>) {
    && (forall k | 0 <= k < |h| :: 0 < |h[k]| < HLEN)
    && (forall k | 0 < k < |h| && |h[k]| < HLEN - 1 :: h[k - 1] != h[k])
  }

  lemma RememberKeeps(h: seq<Text>, line: Text)
    requires Entries(h)
    ensures Entries(Remember(h, line))
    ensures line != [] ==> Remember(h, line) != [] && Remember(h, line)[0] == Cut(line)
  {
    var h' := [Cut(line)] + h;
    assert forall k | 0 < k < |h'| :: h'[k] == h[k - 1];
    if Remember(h, line) == h' && line != [] {
      assert h != [] && h[0] == Cut(line) ==> |line| >= HLEN;
    }
  }

  /** The newest entry is the line last accepted, cut to the length of an entry. */
  lemma {:induction false} NewestIsLast(lines: seq<Text>)
    ensures var h := Remembered(lines);
      && Entries(h)
      && (lines != [] && lines[|lines| - 1] != [] ==> h != [] && h[0] == Cut(lines[|lines| - 1]))
  {
    if lines == [] {
    } else {
      NewestIsLast(lines[..|lines| - 1]);
      RememberKeeps(Remembered(lines[..|lines| - 1]), lines[|lines| - 1]);
    }
  }

  /** The keys of k presses of an arrow. */
  function Arrows(letter: Byte, k: nat): Text {
    if k == 0 then [] else [ESC, CSI, letter] + Arrows(letter, k - 1)
  }

  function Clip(line: Text, max: nat): Text
    requires max > 0
  {
    if |line| >= max then line[..max - 1] else line
  }

  /** The editor after an arrow, and after k of them. */
  function Arrow(ed: Editor, max: nat, hist: seq<Text>, up: bool): (e: Editor)
    requires Fits(ed, max, hist)
    ensures Fits(e, max, hist)
  {
    Navigate(ed.(csi := 0), max, hist, up).ed.(esc := Plain)
  }

  function Climb(ed: Editor, max: nat, hist: seq<Text>, up: bool, k: nat): (e: Editor)
    requires Fits(ed, max, hist)
    ensures Fits(e, max, hist)
    decreases k
  {
    if k == 0 then ed else Climb(Arrow(ed, max, hist, up), max, hist, up, k - 1)
  }

  function Letter(up: bool): Byte {
    if up then 0x41 else 0x42
  }

  lemma OneKey(ed: Editor, max: nat, hist: seq<Text>, c: Byte, rest: Text)
    requires Fits(ed, max, hist) && !Key(ed, max, hist, c).done
    ensures Keys(ed, max, hist, [c] + rest).ed == Keys(Key(ed, max, hist, c).ed, max, hist, rest).ed
  {
    assert ([c] + rest)[1..] == rest;
  }

  lemma OneArrow(ed: Editor, max: nat, hist: seq<Text>, up: bool, rest: Text)
    requires Fits(ed, max, hist) && ed.esc.Plain?
    ensures Keys(ed, max, hist, [ESC, CSI, Letter(up)] + rest).ed == Keys(Arrow(ed, max, hist, up), max, hist, rest).ed
  {
    var e1 := Key(ed, max, hist, ESC).ed;
    var e2 := Key(e1, max, hist, CSI).ed;
    assert [ESC, CSI, Letter(up)] + rest == [ESC] + ([CSI] + ([Letter(up)] + rest));
    OneKey(ed, max, hist, ESC, [CSI] + ([Letter(up)] + rest));
    OneKey(e1, max, hist, CSI, [Letter(up)] + rest);
    LastOfArrow(ed, e2, max, hist, up);
    OneKey(e2, max, hist, Letter(up), rest);
  }

  lemma LastOfArrow(ed: Editor, e2: Editor, max: nat, hist: seq<Text>, up: bool)
    requires Fits(ed, max, hist) && ed.esc.Plain? && e2 == ed.(esc := InCsi, csi := 0)
    ensures var r := Key(e2, max, hist, Letter(up));
      !r.done && r.ed == Arrow(ed, max, hist, up)
  {
  }

  lemma {:induction false} ArrowsClimb(ed: Editor, max: nat, hist: seq<Text>, up: bool, k: nat, rest: Text)
    requires Fits(ed, max, hist) && ed.esc.Plain?
    ensures Keys(ed, max, hist, Arrows(Letter(up), k) + rest).ed == Keys(Climb(ed, max, hist, up, k), max, hist, rest).ed
    decreases k
  {
    if k == 0 {
      assert Arrows(Letter(up), 0) + rest == rest;
    } else {
      var more := Arrows(Letter(up), k - 1) + rest;
      assert Arrows(Letter(up), k) + rest == [ESC, CSI, Letter(up)] + more;
      OneArrow(ed, max, hist, up, more);
      ArrowsClimb(Arrow(ed, max, hist, up), max, hist, up, k - 1, rest);
    }
  }

  /** The line shown at depth d of the history, over the parked line `live`. */
  function Shown(max: nat, hist: seq<Text>, live: Text, d: nat): Text
    requires max > 0 && d <= |hist|
  {
    Clip(if d == 0 then live else hist[d - 1], max)
  }

  lemma {:induction false} ClimbUp(ed: Editor, max: nat, hist: seq<Text>, k: nat)
    requires Fits(ed, max, hist) && ed.esc.Plain? && 0 < k && ed.nav + k <= |hist|
    ensures var e := Climb(ed, max, hist, true, k);
      && e.esc.Plain? && e.nav == ed.nav + k && e.text == Shown(max, hist, [], e.nav)
      && e.saved == if ed.nav == 0 then Cut(ed.text) else ed.saved
    decreases k
  {
    if k == 1 {
      assert Climb(ed, max, hist, true, 1) == Arrow(ed, max, hist, true);
    } else {
      ClimbUp(Arrow(ed, max, hist, true), max, hist, k - 1);
    }
  }

  lemma {:induction false} ClimbDown(ed: Editor, max: nat, hist: seq<Text>, k: nat)
    requires Fits(ed, max, hist) && ed.esc.Plain? && 0 < k <= ed.nav
    ensures var e := Climb(ed, max, hist, false, k);
      e.nav == ed.nav - k && e.text == Shown(max, hist, ed.saved, e.nav) && e.pos == |e.text|
    decreases k
  {
    if k == 1 {
      assert Climb(ed, max, hist, false, 1) == Arrow(ed, max, hist, false);
    } else {
      ClimbDown(Arrow(ed, max, hist, false), max, hist, k - 1);
    }
  }

  /** k steps up the history show its k-th newest line, as far as it fits. */
  lemma UpShows(ed: Editor, max: nat, hist: seq<Text>, k: nat)
    requires Fits(ed, max, hist) && ed.esc.Plain? && ed.nav == 0 && 0 < k <= |hist|
    ensures Keys(ed, max, hist, Arrows(Letter(true), k)).ed.text == Clip(hist[k - 1], max)
  {
    ArrowsClimb(ed, max, hist, true, k, []);
    assert Arrows(Letter(true), k) + [] == Arrows(Letter(true), k);
    ClimbUp(ed, max, hist, k);
  }

  /** k steps up the history and k down bring back the line in progress, with the cursor at its end,
      exactly if the line is short enough to be parked whole. */
  lemma UpAndDown(ed: Editor, max: nat, hist: seq<Text>, k: nat)
    requires Fits(ed, max, hist) && ed.esc.Plain? && ed.nav == 0 && 0 < k <= |hist|
    ensures var e := Keys(ed, max, hist, Arrows(Letter(true), k) + Arrows(Letter(false), k)).ed;
      && e.nav == 0 && e.pos == |e.text| && e.text == Cut(ed.text)
      && (e.text == ed.text <==> |ed.text| < HLEN)
  {
    var up := Climb(ed, max, hist, true, k);
    ArrowsClimb(ed, max, hist, true, k, Arrows(Letter(false), k));
    ClimbUp(ed, max, hist, k);
    ArrowsClimb(up, max, hist, false, k, []);
    assert Arrows(Letter(false), k) + [] == Arrows(Letter(false), k);
    ClimbDown(up, max, hist, k);
  }
}
