/** What the console's keys mean (drivers/console/main.c), told of a line with a gap where the cursor
    is, and what line a reader gets from the keys typed. */
module KeyLaws {
  import opened Words
  import opened LineEditor
  import opened Console

  // ---- a line with a gap ----

  /** The text before the cursor and the text behind it. */
  datatype Gap = Gap(before: Text, after: Text)

  datatype Act = Write(c: Byte) | Erase | Delete | GoLeft | GoRight | GoHome | GoEnd | EraseAll | Nothing

  /** The text without its last character. */
  function Front(t: Text): Text
    requires t != []
  {
    t[..|t| - 1]
  }

  /** A character is written at the gap while the line has room for it and the terminator. */
  function Acted(g: Gap, max: nat, a: Act): Gap {
    match a
    case Write(c) => if |g.before| + |g.after| + 2 <= max then Gap(g.before + [c], g.after) else g
    case Erase => if g.before == [] then g else Gap(Front(g.before), g.after)
    case Delete => if g.after == [] then g else Gap(g.before, g.after[1..])
    case GoLeft => if g.before == [] then g else Gap(Front(g.before), [g.before[|g.before| - 1]] + g.after)
    case GoRight => if g.after == [] then g else Gap(g.before + [g.after[0]], g.after[1..])
    case GoHome => Gap([], g.before + g.after)
    case GoEnd => Gap(g.before + g.after, [])
    case EraseAll => Gap([], [])
    case Nothing => g
  }

  function GapOf(ed: Editor): Gap
    requires ed.pos <= |ed.text|
  {
    Gap(ed.text[..ed.pos], ed.text[ed.pos..])
  }

  // ---- which keys ask for what ----

  /** The start of an escape sequence. */
  predicate Opens(a: Byte, b: Byte) {
    a == 0x1B && (b == '[' as int || b == 'O' as int)
  }

  /** What a single byte asks for; the other bytes end a line or start an escape sequence. */
  predicate ByteAsks(c: Byte, a: Act) {
    match a
    case Write(x) => x == c && 0x20 <= c < 0x7F
    case Erase => c == 0x7F || c == 0x08
    case Delete => false
    case GoLeft => c == 0x02
    case GoRight => c == 0x06
    case GoHome => c == 0x01
    case GoEnd => c == 0x05
    case EraseAll => c == 0x15
    case Nothing =>
      (c < 0x20 || c > 0x7E) && c !in {0x01, 0x02, 0x03, 0x05, 0x06, 0x08, 0x0A, 0x0D, 0x15, 0x1B, 0x7F}
  }

  /** What the letter that ends an escape sequence asks for, besides the arrows up and down. */
  predicate LetterAsks(c: Byte, a: Act) {
    match a
    case GoLeft => c == 'D' as int
    case GoRight => c == 'C' as int
    case GoHome => c == 'H' as int
    case GoEnd => c == 'F' as int
    case Nothing => !(0x30 <= c <= 0x39) && c !in {'A' as int, 'B' as int, 'C' as int, 'D' as int, 'H' as int, 'F' as int}
    case _ => false
  }

  /** What an escape sequence of one digit and a tilde asks for. */
  predicate DigitAsks(d: Byte, a: Act) {
    0x30 <= d <= 0x39 &&
    match a
    case Delete => d == '3' as int
    case GoHome => d == '1' as int || d == '7' as int
    case GoEnd => d == '4' as int || d == '8' as int
    case Nothing => d in {'0' as int, '2' as int, '5' as int, '6' as int, '9' as int}
    case _ => false
  }

  /** These keys ask for the act. */
  predicate Spells(keys: Text, a: Act) {
    || (|keys| == 1 && ByteAsks(keys[0], a))
    || (|keys| == 2 && keys[0] == 0x1B && !Opens(keys[0], keys[1]) && a.Nothing?)
    || (|keys| == 3 && Opens(keys[0], keys[1]) && keys[2] != '~' as int && LetterAsks(keys[2], a))
    || (|keys| == 4 && Opens(keys[0], keys[1]) && keys[3] == '~' as int && DigitAsks(keys[2], a))
  }

  // ---- single keys ----

  /** The line is as the act leaves it, and nothing else of the editor has changed. */
  ghost predicate DidAct(ed: Editor, ed': Editor, max: nat, a: Act)
    requires ed.pos <= |ed.text|
  {
    && ed'.pos <= |ed'.text| && GapOf(ed') == Acted(GapOf(ed), max, a)
    && ed'.esc.Plain? && ed'.nav == ed.nav && ed'.saved == ed.saved
  }

  lemma InsertActs(ed: Editor, max: nat, c: Byte)
    requires ed.pos <= |ed.text| < max && ed.esc.Plain?
    ensures DidAct(ed, Insert(ed, max, c).ed, max, Write(c))
  {
    if |ed.text| + 1 < max {
      var t := Insert(ed, max, c).ed.text;
      assert t[..ed.pos + 1] == ed.text[..ed.pos] + [c];
      assert t[ed.pos + 1..] == ed.text[ed.pos..];
    }
  }

  lemma EraseActs(ed: Editor, max: nat)
    requires ed.pos <= |ed.text| && ed.esc.Plain?
    ensures DidAct(ed, DeleteLeft(ed).ed, max, Erase)
  {
    if ed.pos > 0 {
      var t := DeleteLeft(ed).ed.text;
      assert t[..ed.pos - 1] == Front(ed.text[..ed.pos]);
      assert t[ed.pos - 1..] == ed.text[ed.pos..];
    }
  }

  lemma DeleteActs(ed: Editor, max: nat)
    requires ed.pos <= |ed.text|
    ensures DidAct(ed, DeleteAt(ed).ed.(esc := Plain), max, Delete)
  {
    if ed.pos < |ed.text| {
      var t := DeleteAt(ed).ed.text;
      assert t[..ed.pos] == ed.text[..ed.pos];
      assert t[ed.pos..] == ed.text[ed.pos..][1..];
    }
  }

  lemma LeftActs(ed: Editor, max: nat)
    requires ed.pos <= |ed.text|
    ensures DidAct(ed, Left(ed).ed.(esc := Plain), max, GoLeft)
  {
    if ed.pos > 0 {
      assert ed.text[..ed.pos - 1] == Front(ed.text[..ed.pos]);
      assert ed.text[ed.pos - 1..] == [ed.text[ed.pos - 1]] + ed.text[ed.pos..];
    }
  }

  lemma RightActs(ed: Editor, max: nat)
    requires ed.pos <= |ed.text|
    ensures DidAct(ed, Right(ed).ed.(esc := Plain), max, GoRight)
  {
    if ed.pos < |ed.text| {
      assert ed.text[..ed.pos + 1] == ed.text[..ed.pos] + [ed.text[ed.pos]];
      assert ed.text[ed.pos + 1..] == ed.text[ed.pos..][1..];
    }
  }

  lemma EndsAct(ed: Editor, max: nat)
    requires ed.pos <= |ed.text|
    ensures DidAct(ed, Home(ed).ed.(esc := Plain), max, GoHome)
    ensures DidAct(ed, End(ed).ed.(esc := Plain), max, GoEnd)
    ensures DidAct(ed, Kill(ed).ed.(esc := Plain), max, EraseAll)
  {
    assert ed.text[..ed.pos] + ed.text[ed.pos..] == ed.text;
    assert ed.text[..|ed.text|] == ed.text && ed.text[0..] == ed.text;
  }

  lemma ByteActs(ed: Editor, max: nat, hist: seq<Text>, c: Byte, a: Act)
    requires Fits(ed, max, hist) && ed.esc.Plain? && ByteAsks(c, a)
    ensures var r := Key(ed, max, hist, c); !r.done && DidAct(ed, r.ed, max, a)
  {
    assert ed.(esc := Plain) == ed;
    match a
    case Write(_) => InsertActs(ed, max, c);
    case Erase => EraseActs(ed, max);
    case GoLeft => LeftActs(ed, max);
    case GoRight => RightActs(ed, max);
    case GoHome => EndsAct(ed, max);
    case GoEnd => EndsAct(ed, max);
    case EraseAll => EndsAct(ed, max);
    case Nothing =>
  }

  /** The last key of an escape sequence, after the digits that make csi. */
  lemma LetterActs(ed: Editor, max: nat, hist: seq<Text>, c: Byte, a: Act)
    requires Fits(ed, max, hist) && ed.esc.InCsi? && c != '~' as int && LetterAsks(c, a)
    ensures var r := Key(ed, max, hist, c); !r.done && DidAct(ed, r.ed, max, a)
  {
    match a
    case GoLeft => LeftActs(ed, max);
    case GoRight => RightActs(ed, max);
    case GoHome => EndsAct(ed, max);
    case GoEnd => EndsAct(ed, max);
    case Nothing =>
  }

  lemma TildeActs(ed: Editor, max: nat, hist: seq<Text>, d: Byte, a: Act)
    requires Fits(ed, max, hist) && ed.esc.InCsi? && DigitAsks(d, a) && ed.csi == d - 0x30
    ensures var r := Key(ed, max, hist, '~' as int); !r.done && DidAct(ed, r.ed, max, a)
  {
    match a
    case Delete => DeleteActs(ed, max);
    case GoHome => EndsAct(ed, max);
    case GoEnd => EndsAct(ed, max);
    case Nothing =>
  }

  // ---- whole sequences ----

  lemma FirstKey(ed: Editor, max: nat, hist: seq<Text>, keys: Text)
    requires Fits(ed, max, hist) && keys != [] && !Key(ed, max, hist, keys[0]).done
    ensures var e := Key(ed, max, hist, keys[0]).ed; var o, p := Keys(ed, max, hist, keys), Keys(e, max, hist, keys[1..]);
      o.ed == p.ed && o.done == p.done && o.rest == p.rest
  {
  }

  lemma OneByte(ed: Editor, max: nat, hist: seq<Text>, keys: Text)
    requires Fits(ed, max, hist) && |keys| == 1 && !Key(ed, max, hist, keys[0]).done
    ensures var o := Keys(ed, max, hist, keys); o.ed == Key(ed, max, hist, keys[0]).ed && !o.done && o.rest == []
  {
    FirstKey(ed, max, hist, keys);
    assert keys[1..] == [];
  }

  lemma OpenActs(ed: Editor, max: nat, hist: seq<Text>, keys: Text)
    requires Fits(ed, max, hist) && ed.esc.Plain? && |keys| >= 2 && Opens(keys[0], keys[1])
    ensures var e := ed.(esc := InCsi, csi := 0);
      && Fits(e, max, hist)
      && var o, p := Keys(ed, max, hist, keys), Keys(e, max, hist, keys[2..]);
         o.ed == p.ed && o.done == p.done && o.rest == p.rest
  {
    FirstKey(ed, max, hist, keys);
    var e1 := ed.(esc := SawEsc);
    FirstKey(e1, max, hist, keys[1..]);
    assert keys[1..][1..] == keys[2..];
  }

  /** Keys that ask for an act do it, and leave the editor ready for the next. */
  lemma KeysAct(ed: Editor, max: nat, hist: seq<Text>, keys: Text, a: Act)
    requires Fits(ed, max, hist) && ed.esc.Plain? && Spells(keys, a)
    ensures var o := Keys(ed, max, hist, keys); !o.done && DidAct(ed, o.ed, max, a)
  {
    if |keys| == 1 {
      ByteActs(ed, max, hist, keys[0], a);
      OneByte(ed, max, hist, keys);
    } else if |keys| == 2 {
      FirstKey(ed, max, hist, keys);
      OneByte(ed.(esc := SawEsc), max, hist, keys[1..]);
    } else {
      OpenActs(ed, max, hist, keys);
      SequenceActs(ed, max, hist, keys, a);
    }
  }

  lemma SequenceActs(ed: Editor, max: nat, hist: seq<Text>, keys: Text, a: Act)
    requires Fits(ed, max, hist) && |keys| >= 3 && Spells(keys, a)
    ensures var o := Keys(ed.(esc := InCsi, csi := 0), max, hist, keys[2..]); !o.done && DidAct(ed, o.ed, max, a)
  {
    var e := ed.(esc := InCsi, csi := 0);
    if |keys| == 3 {
      LetterActs(e, max, hist, keys[2], a);
      OneByte(e, max, hist, keys[2..]);
    } else {
      var d := keys[2];
      FirstKey(e, max, hist, keys[2..]);
      TildeActs(e.(csi := d - 0x30), max, hist, d, a);
      OneByte(e.(csi := d - 0x30), max, hist, keys[2..][1..]);
    }
  }

  // ---- sessions ----

  /** A stroke: keys, and the act they ask for. */
  datatype Stroke = Stroke(keys: Text, act: Act)

  predicate AllSpelled(ss: seq<Stroke>) {
    forall i | 0 <= i < |ss| :: Spells(ss[i].keys, ss[i].act)
  }

  function KeysOf(ss: seq<Stroke>): Text {
    if ss == [] then [] else ss[0].keys + KeysOf(ss[1..])
  }

  function ActedAll(g: Gap, max: nat, ss: seq<Stroke>): Gap
    decreases |ss|
  {
    if ss == [] then g else ActedAll(Acted(g, max, ss[0].act), max, ss[1..])
  }

  /** After any strokes the line is what their acts make of it, one after the other. */
  lemma {:induction false} StrokesAct(ed: Editor, max: nat, hist: seq<Text>, ss: seq<Stroke>)
    requires Fits(ed, max, hist) && ed.esc.Plain? && AllSpelled(ss)
    ensures var o := Keys(ed, max, hist, KeysOf(ss));
      !o.done && o.ed.esc.Plain? && GapOf(o.ed) == ActedAll(GapOf(ed), max, ss)
    decreases |ss|
  {
    if ss == [] {
    } else {
      KeysSplit(ed, max, hist, ss[0].keys, KeysOf(ss[1..]));
      KeysAct(ed, max, hist, ss[0].keys, ss[0].act);
      StrokesAct(Keys(ed, max, hist, ss[0].keys).ed, max, hist, ss[1..]);
    }
  }

  function WholeLine(g: Gap): Text {
    g.before + g.after
  }

  /** Enter hands over the whole line, wherever the cursor is. */
  lemma EnterEnds(ed: Editor, max: nat, hist: seq<Text>, ss: seq<Stroke>, key: Byte)
    requires Fits(ed, max, hist) && ed.esc.Plain? && AllSpelled(ss) && (key == 0x0D || key == 0x0A)
    ensures var o := Keys(ed, max, hist, KeysOf(ss) + [key]);
      o.done && o.rest == [] && o.ed.text == WholeLine(ActedAll(GapOf(ed), max, ss))
  {
    StrokesAct(ed, max, hist, ss);
    EnterFinishes(ed, max, hist, KeysOf(ss), key);
    LineOfGap(Keys(ed, max, hist, KeysOf(ss)).ed);
  }

  lemma LineOfGap(ed: Editor)
    requires ed.pos <= |ed.text|
    ensures ed.text == WholeLine(GapOf(ed)) && ed.pos == |GapOf(ed).before|
  {
  }

  /** Ctrl-C hands over an empty line, whatever has been typed. */
  lemma CancelEnds(ed: Editor, max: nat, hist: seq<Text>, ss: seq<Stroke>)
    requires Fits(ed, max, hist) && ed.esc.Plain? && AllSpelled(ss)
    ensures var o := Keys(ed, max, hist, KeysOf(ss) + [0x03]); o.done && o.rest == [] && o.ed.text == []
  {
    StrokesAct(ed, max, hist, ss);
    KeysSplit(ed, max, hist, KeysOf(ss), [0x03]);
    assert [0x03][1..] == [];
  }

  /** The strokes of a text, a key for each character. */
  function Typing(t: Text): (ss: seq<Stroke>)
    ensures |ss| == |t|
  {
    seq(|t|, i requires 0 <= i < |t| => Stroke([t[i]], Write(t[i])))
  }

  lemma {:induction false} TypingIs(g: Gap, max: nat, t: Text)
    requires |g.before| + |g.after| + |t| + 1 <= max
    ensures KeysOf(Typing(t)) == t && ActedAll(g, max, Typing(t)) == Gap(g.before + t, g.after)
    decreases |t|
  {
    if t == [] {
      assert g.before + t == g.before;
    } else {
      assert Typing(t)[1..] == Typing(t[1..]);
      TypingIs(Gap(g.before + [t[0]], g.after), max, t[1..]);
      assert [t[0]] + t[1..] == t;
      assert g.before + [t[0]] + t[1..] == g.before + t;
    }
  }

  lemma TypingSpelled(t: Text)
    requires forall i | 0 <= i < |t| :: Visible(t[i])
    ensures AllSpelled(Typing(t))
  {
    forall i | 0 <= i < |t|
      ensures Spells(Typing(t)[i].keys, Typing(t)[i].act)
    {
      assert Typing(t)[i] == Stroke([t[i]], Write(t[i]));
    }
  }

  /** Text typed where there is room goes in at the cursor, in order, and the cursor behind it. */
  lemma TextGoesIn(ed: Editor, max: nat, hist: seq<Text>, t: Text)
    requires Fits(ed, max, hist) && ed.esc.Plain? && |ed.text| + |t| + 1 <= max
    requires forall i | 0 <= i < |t| :: Visible(t[i])
    ensures var e := Keys(ed, max, hist, t).ed;
      e.text == ed.text[..ed.pos] + t + ed.text[ed.pos..] && e.pos == ed.pos + |t|
  {
    TypingIs(GapOf(ed), max, t);
    TypingSpelled(t);
    StrokesAct(ed, max, hist, Typing(t));
    LineOfGap(Keys(ed, max, hist, t).ed);
  }

  // ---- the arrows up and down ----

  function ArrowKeys(ups: seq<bool>): Text {
    if ups == [] then [] else [ESC, CSI, Letter(ups[0])] + ArrowKeys(ups[1..])
  }

  /** One arrow in a history of n lines; past its ends it does nothing. */
  function Moved(n: nat, d: nat, up: bool): nat {
    if up then (if d < n then d + 1 else d) else if d > 0 then d - 1 else 0
  }

  function DepthAfter(n: nat, d: nat, ups: seq<bool>): nat
    decreases |ups|
  {
    if ups == [] then d else DepthAfter(n, Moved(n, d, ups[0]), ups[1..])
  }

  /** The editor shows the line at depth d, over the parked line `live`, with the cursor at its end. */
  ghost predicate AtLine(e: Editor, max: nat, hist: seq<Text>, live: Text, d: nat) {
    && Fits(e, max, hist) && e.esc.Plain? && |live| < HLEN && |live| < max && d <= |hist|
    && e.nav == d && e.text == Shown(max, hist, live, d) && e.pos == |e.text| && (d > 0 ==> e.saved == live)
  }

  lemma ArrowMoves(e: Editor, max: nat, hist: seq<Text>, live: Text, d: nat, up: bool)
    requires AtLine(e, max, hist, live, d)
    ensures AtLine(Arrow(e, max, hist, up), max, hist, live, Moved(|hist|, d, up))
  {
  }

  lemma {:induction false} ArrowsMove(e: Editor, max: nat, hist: seq<Text>, live: Text, d: nat, ups: seq<bool>)
    requires AtLine(e, max, hist, live, d)
    ensures var o := Keys(e, max, hist, ArrowKeys(ups));
      AtLine(o.ed, max, hist, live, DepthAfter(|hist|, d, ups))
    decreases |ups|
  {
    if ups == [] {
    } else {
      OneArrow(e, max, hist, ups[0], ArrowKeys(ups[1..]));
      ArrowMoves(e, max, hist, live, d, ups[0]);
      ArrowsMove(Arrow(e, max, hist, ups[0]), max, hist, live, Moved(|hist|, d, ups[0]), ups[1..]);
    }
  }

  /** After any arrows up and down, in any order, the line shown is the one at the depth they lead to,
      with the cursor at its end; at depth 0 it is the line in progress, cut to be parked. Before the
      first arrow up that finds a line, nothing has changed. */
  lemma {:induction false} ArrowsShow(ed: Editor, max: nat, hist: seq<Text>, ups: seq<bool>)
    requires Fits(ed, max, hist) && ed.esc.Plain? && ed.nav == 0
    ensures var e := Keys(ed, max, hist, ArrowKeys(ups)).ed; var d := DepthAfter(|hist|, 0, ups);
      && d <= |hist| && e.nav == d
      && if true in ups && hist != [] then e.text == Shown(max, hist, Cut(ed.text), d) && e.pos == |e.text|
         else d == 0 && e.text == ed.text && e.pos == ed.pos
    decreases |ups|
  {
    if ups == [] {
    } else {
      var e := Arrow(ed, max, hist, ups[0]);
      OneArrow(ed, max, hist, ups[0], ArrowKeys(ups[1..]));
      if ups[0] && hist != [] {
        ArrowsMove(e, max, hist, Cut(ed.text), 1, ups[1..]);
      } else {
        assert e == ed.(csi := 0);
        ArrowsShow(e, max, hist, ups[1..]);
      }
    }
  }

  // ---- what the history keeps ----

  /** The last line that was not empty, as the history keeps it. */
  function LastKept(lines: seq<Text>): Text {
    if lines == [] then []
    else if lines[|lines| - 1] != [] then Cut(lines[|lines| - 1])
    else LastKept(lines[..|lines| - 1])
  }

  /** Of the lines accepted, newest first, those that are neither empty nor the same as what was last
      kept before them. */
  function Selected(lines: seq<Text>): seq<Text> {
    if lines == [] then []
    else
      var before, line := lines[..|lines| - 1], lines[|lines| - 1];
      if line == [] || line == LastKept(before) then Selected(before) else [Cut(line)] + Selected(before)
  }

  lemma {:induction false} HistoryIsSelected(lines: seq<Text>)
    ensures var h := Remembered(lines);
      && h == Selected(lines) && |LastKept(lines)| < HLEN
      && (if h == [] then LastKept(lines) == [] else h[0] == LastKept(lines) != [])
  {
    if lines == [] {
    } else {
      HistoryIsSelected(lines[..|lines| - 1]);
    }
  }

  // ---- what the reader gets ----

  /** A read on an idle driver, and then any strokes and Enter: the reader, and no one else, gets the
      line that the acts make of an empty one. */
  lemma ReaderGets(d: Driver, to: int, max: Limit, ss: seq<Stroke>, key: Byte)
    requires Ready(d) && !d.active && d.queue == [] && max > 0 && AllSpelled(ss) && (key == 0x0D || key == 0x0A)
    ensures var d' := OnIrq(OnRead(d, to, max), KeysOf(ss) + [key]);
      !d'.active && d'.queue == [] && d'.replies == d.replies + [Reply(to, WholeLine(ActedAll(Gap([], []), max, ss)))]
  {
    var ed := Began(d, to, max).ed;
    assert GapOf(ed) == Gap([], []);
    StrokesAct(ed, max, d.hist, ss);
    LineOfGap(Keys(ed, max, d.hist, KeysOf(ss)).ed);
    EnterReplies(d, to, max, KeysOf(ss), key);
  }

  /** A read on an idle driver, keys that end no line, and Enter: the line is replied. */
  lemma EnterReplies(d: Driver, to: int, max: Limit, keys: Text, key: Byte)
    requires Ready(d) && !d.active && d.queue == [] && max > 0 && (key == 0x0D || key == 0x0A)
    requires var o := Keys(Began(d, to, max).ed, max, d.hist, keys); !o.done && o.ed.esc.Plain?
    ensures var d' := OnIrq(OnRead(d, to, max), keys + [key]); var line := Keys(Began(d, to, max).ed, max, d.hist, keys).ed.text;
      !d'.active && d'.queue == [] && d'.replies == d.replies + [Reply(to, line)]
  {
    var all, d1 := keys + [key], Began(d, to, max);
    ReadCommutes(d, to, max, all);
    assert d.queue + all == all;
    EnterFinishes(d1.ed, max, d.hist, keys, key);
    TypedIs(d1.ed, max, d.hist, all);
  }

  lemma EnterFinishes(ed: Editor, max: nat, hist: seq<Text>, keys: Text, key: Byte)
    requires Fits(ed, max, hist) && (key == 0x0D || key == 0x0A)
    requires var o := Keys(ed, max, hist, keys); !o.done && o.ed.esc.Plain?
    ensures var o := Keys(ed, max, hist, keys + [key]);
      o.done && o.rest == [] && o.ed.text == Keys(ed, max, hist, keys).ed.text
  {
    KeysSplit(ed, max, hist, keys, [key]);
    assert [key][1..] == [];
  }

  /** A read starts below the history: arrows and Enter bring back the line they lead to. */
  lemma ReaderRecalls(d: Driver, to: int, max: Limit, ups: seq<bool>)
    requires Ready(d) && !d.active && d.queue == [] && max > 0
    ensures var n := DepthAfter(|d.hist|, 0, ups);
      && n <= |d.hist|
      && OnIrq(OnRead(d, to, max), ArrowKeys(ups) + [0x0D]).replies ==
         d.replies + [Reply(to, if n == 0 then [] else Clip(d.hist[n - 1], max))]
  {
    var ed := Began(d, to, max).ed;
    ArrowsShow(ed, max, d.hist, ups);
    ArrowsReady(ed, max, d.hist, ups);
    EnterReplies(d, to, max, ArrowKeys(ups), 0x0D);
  }

  lemma {:induction false} ArrowsReady(ed: Editor, max: nat, hist: seq<Text>, ups: seq<bool>)
    requires Fits(ed, max, hist) && ed.esc.Plain?
    ensures var o := Keys(ed, max, hist, ArrowKeys(ups)); !o.done && o.ed.esc.Plain?
    decreases |ups|
  {
    if ups == [] {
    } else {
      var keys := ArrowKeys(ups);
      OpenActs(ed, max, hist, keys);
      var e := ed.(esc := InCsi, csi := 0);
      assert keys[2..][1..] == ArrowKeys(ups[1..]);
      LastOfArrow(ed, e, max, hist, ups[0]);
      FirstKey(e, max, hist, keys[2..]);
      ArrowsReady(Arrow(ed, max, hist, ups[0]), max, hist, ups[1..]);
    }
  }

  /** So a text that fits, and Enter, is replied as it was typed. */
  lemma ReaderGetsText(d: Driver, to: int, max: Limit, t: Text)
    requires Ready(d) && !d.active && d.queue == [] && |t| < max && forall i | 0 <= i < |t| :: Visible(t[i])
    ensures OnIrq(OnRead(d, to, max), t + [0x0D]).replies == d.replies + [Reply(to, t)]
  {
    FreshText(max, t);
    TypingSpelled(t);
    ReaderGets(d, to, max, Typing(t), 0x0D);
  }

  lemma FreshText(max: nat, t: Text)
    requires |t| < max
    ensures KeysOf(Typing(t)) == t && WholeLine(ActedAll(Gap([], []), max, Typing(t))) == t
  {
    TypingIs(Gap([], []), max, t);
    assert [] + t == t && t + [] == t;
  }
}
