/** What the terminal at the other end shows: the characters the line editor sends, interpreted on
    one line of a terminal, keep that line equal to the editor's buffer and the terminal's cursor
    where the editor's is. Deletes inside a line are the exception, and it is stated exactly. */
module Terminal {
  import opened Words
  import opened LineEditor

  /** A line of the terminal; past the cells written it is blank. */
  datatype Screen = Screen(cells: Text, col: nat)

  function At(row: Text, i: nat): Byte {
    if i < |row| then row[i] else SPACE
  }

  function Cell(s: Screen, i: nat): Byte {
    At(s.cells, i)
  }

  function Blanks(k: nat): Text {
    seq(k, i => SPACE)
  }

  /** One character: a backspace moves the cursor left, but not past the margin; a newline starts a
      fresh line; anything else is shown at the cursor. */
  function Show(s: Screen, b: Byte): Screen {
    if b == BS then Screen(s.cells, if s.col > 0 then s.col - 1 else 0)
    else if b == NL then Screen([], 0)
    else
      var row := if s.col < |s.cells| then s.cells[s.col := b] else s.cells + Blanks(s.col - |s.cells|) + [b];
      Screen(row, s.col + 1)
  }

  function ShowAll(s: Screen, out: Text): Screen
    decreases |out|
  {
    if out == [] then s else ShowAll(Show(s, out[0]), out[1..])
  }

  predicate AllVisible(t: Text) {
    forall i | 0 <= i < |t| :: Visible(t[i])
  }

  // ---- runs of characters ----

  lemma {:induction false} ShowBoth(s: Screen, a: Text, b: Text)
    ensures ShowAll(s, a + b) == ShowAll(ShowAll(s, a), b)
    decreases |a|
  {
    if a == [] {
      assert a + b == b;
    } else {
      assert (a + b)[0] == a[0] && (a + b)[1..] == a[1..] + b;
      ShowBoth(Show(s, a[0]), a[1..], b);
    }
  }

  lemma ShowOne(s: Screen, b: Byte, rest: Text)
    ensures ShowAll(s, [b] + rest) == ShowAll(Show(s, b), rest)
  {
    assert ([b] + rest)[1..] == rest;
  }

  /** s' is s with t written from its cursor on. */
  ghost predicate Wrote(s: Screen, t: Text, s': Screen) {
    && s'.col == s.col + |t|
    && forall i: nat :: Cell(s', i) == if s.col <= i < s.col + |t| then t[i - s.col] else Cell(s, i)
  }

  lemma {:induction false} ShowText(s: Screen, t: Text)
    requires AllVisible(t)
    ensures Wrote(s, t, ShowAll(s, t))
    decreases |t|
  {
    if t == [] {
    } else {
      var s1 := Show(s, t[0]);
      assert forall i: nat :: Cell(s1, i) == if i == s.col then t[0] else Cell(s, i);
      ShowText(s1, t[1..]);
    }
  }

  lemma {:induction false} ShowBacks(s: Screen, k: nat)
    ensures ShowAll(s, Backs(k)) == Screen(s.cells, if k <= s.col then s.col - k else 0)
    decreases k
  {
    if k == 0 {
    } else {
      assert Backs(k)[1..] == Backs(k - 1);
      ShowBacks(Show(s, BS), k - 1);
    }
  }

  lemma {:induction false} ShowErases(s: Screen, k: nat)
    requires k <= s.col
    ensures var s' := ShowAll(s, Erases(k));
      && s'.col == s.col - k
      && forall i: nat :: Cell(s', i) == if s.col - k <= i < s.col then SPACE else Cell(s, i)
    decreases k
  {
    if k == 0 {
    } else {
      ShowBoth(s, [BS, SPACE, BS], Erases(k - 1));
      EraseOne(s);
      ShowErases(ShowAll(s, [BS, SPACE, BS]), k - 1);
    }
  }

  lemma EraseOne(s: Screen)
    requires s.col > 0
    ensures var s' := ShowAll(s, [BS, SPACE, BS]);
      s'.col == s.col - 1 && forall i: nat :: Cell(s', i) == if i == s.col - 1 then SPACE else Cell(s, i)
  {
    assert [BS, SPACE, BS] == [BS] + [SPACE, BS] && [SPACE, BS] == [SPACE] + [BS] && [BS] == [BS] + [];
    ShowOne(s, BS, [SPACE, BS]);
    ShowOne(Show(s, BS), SPACE, [BS]);
    ShowOne(Show(Show(s, BS), SPACE), BS, []);
  }

  // ---- agreement ----

  /** The line shows `left`, what was there before the read (a prompt), then the text, then blanks,
      and the cursor stands at pos in the text. */
  ghost predicate Shows(s: Screen, left: Text, text: Text, pos: nat) {
    s.col == |left| + pos && forall i: nat :: Cell(s, i) == At(left + text, i)
  }

  /** Writing the rest of a line whose screen shows `before` up to the cursor. */
  lemma RestShown(s: Screen, left: Text, text: Text, pos: nat)
    requires AllVisible(text) && pos <= |text| && s.col == |left| + pos
    requires forall i: nat | i < |left| + pos || i >= |left| + |text| :: Cell(s, i) == At(left + text, i)
    ensures Shows(ShowAll(s, text[pos..]), left, text, |text|)
  {
    var t := text[pos..];
    ShowText(s, t);
    var s' := ShowAll(s, t);
    forall i: nat
      ensures Cell(s', i) == At(left + text, i)
    {
      assert Cell(s', i) == if s.col <= i < s.col + |t| then t[i - s.col] else Cell(s, i);
    }
  }

  /** The characters [lo, hi) of the way back to the cursor. */
  lemma BackShown(s: Screen, left: Text, text: Text, pos: nat, k: nat)
    requires Shows(s, left, text, pos) && k <= pos
    ensures Shows(ShowAll(s, Backs(k)), left, text, pos - k)
  {
    ShowBacks(s, k);
  }

  lemma EraseShown(s: Screen, left: Text, text: Text)
    requires Shows(s, left, text, |text|)
    ensures Shows(ShowAll(s, Erases(|text|)), left, [], 0)
  {
    ShowErases(s, |text|);
    var s' := ShowAll(s, Erases(|text|));
    forall i: nat
      ensures Cell(s', i) == At(left + [], i)
    {
      assert Cell(s', i) == if s.col - |text| <= i < s.col then SPACE else Cell(s, i);
      assert left + [] == left;
    }
  }

  ghost predicate Tracks(s: Screen, left: Text, ed: Editor) {
    AllVisible(ed.text) && Shows(s, left, ed.text, ed.pos)
  }

  lemma EndTracks(s: Screen, left: Text, ed: Editor)
    requires Tracks(s, left, ed) && ed.pos <= |ed.text|
    ensures Shows(ShowAll(s, ed.text[ed.pos..]), left, ed.text, |ed.text|)
  {
    RestShown(s, left, ed.text, ed.pos);
  }

  /** Erasing the whole line from wherever the cursor is. */
  lemma KillTracks(s: Screen, left: Text, ed: Editor)
    requires Tracks(s, left, ed) && ed.pos <= |ed.text|
    ensures Shows(ShowAll(s, ed.text[ed.pos..] + Erases(|ed.text|)), left, [], 0)
  {
    EndTracks(s, left, ed);
    ShowBoth(s, ed.text[ed.pos..], Erases(|ed.text|));
    EraseShown(ShowAll(s, ed.text[ed.pos..]), left, ed.text);
  }

  lemma SetLineTracks(s: Screen, left: Text, ed: Editor, max: nat, line: Text)
    requires Tracks(s, left, ed) && ed.pos <= |ed.text| && max > 0 && AllVisible(line)
    ensures var r := SetLine(ed, max, line);
      Tracks(ShowAll(s, r.out), left, r.ed)
  {
    var r := SetLine(ed, max, line);
    var gone := ed.text[ed.pos..] + Erases(|ed.text|);
    KillTracks(s, left, ed);
    ShowBoth(s, gone, r.ed.text);
    var s1 := ShowAll(s, gone);
    assert r.ed.text[0..] == r.ed.text;
    forall i: nat | i < |left| || i >= |left| + |r.ed.text|
      ensures Cell(s1, i) == At(left + r.ed.text, i)
    {
      assert Cell(s1, i) == At(left + [], i);
    }
    RestShown(s1, left, r.ed.text, 0);
  }

  lemma InsertTracks(s: Screen, left: Text, ed: Editor, max: nat, c: Byte)
    requires Tracks(s, left, ed) && ed.pos <= |ed.text| && Visible(c)
    ensures var r := Insert(ed, max, c);
      Tracks(ShowAll(s, r.out), left, r.ed)
  {
    if |ed.text| + 1 < max {
      var r := Insert(ed, max, c);
      var t, back := r.ed.text, |ed.text| - ed.pos;
      forall i: nat | i < |left| + ed.pos || i >= |left| + |t|
        ensures Cell(s, i) == At(left + t, i)
      {
        assert Cell(s, i) == At(left + ed.text, i);
      }
      RestShown(s, left, t, ed.pos);
      ShowBoth(s, t[ed.pos..], Backs(back));
      BackShown(ShowAll(s, t[ed.pos..]), left, t, |t|, back);
    }
  }

  // ---- deletes ----

  function SmearedAt(left: Text, t: Text, pos: nat, last: Byte, i: nat): Byte {
    if i == |left| + pos then SPACE else if i == |left| + |t| then last else At(left + t, i)
  }

  /** The redrawn line after a delete: the cell at the cursor is blanked, the old last character
      stays, and the cursor goes back once for every character after it too many. */
  ghost predicate Smeared(s: Screen, left: Text, t: Text, pos: nat, last: Byte) {
    && s.col == (if |t| - pos <= |left| + pos then |left| + pos - (|t| - pos) else 0)
    && forall i: nat :: Cell(s, i) == SmearedAt(left, t, pos, last, i)
  }

  /** What stands in cell i after the redraw on a screen, from its cursor on. */
  function RedrawnAt(s: Screen, t: Text, pos: nat, i: nat): Byte
    requires pos <= |t|
  {
    if i == s.col then SPACE else if s.col < i < s.col + (|t| - pos) then t[pos + (i - s.col)] else Cell(s, i)
  }

  /** What the redraw does to any screen. */
  lemma RedrawWrites(s: Screen, t: Text, pos: nat)
    requires AllVisible(t) && pos <= |t|
    ensures var s' := ShowAll(s, Redraw(t, pos)); var k := |t| - pos;
      && s'.col == (if k <= s.col then s.col - k else 0)
      && forall i: nat :: Cell(s', i) == RedrawnAt(s, t, pos, i)
  {
    var k := |t| - pos;
    var tail := t[pos..];
    ShowText(s, tail);
    var s1 := ShowAll(s, tail);
    ShowBoth(s, tail, Backs(k));
    ShowBacks(s1, k);
    var s2 := Screen(s1.cells, s.col);
    ShowBoth(s, tail + Backs(k), [SPACE]);
    ShowOne(s2, SPACE, []);
    assert [SPACE] == [SPACE] + [];
    var s3 := Show(s2, SPACE);
    ShowBoth(s, tail + Backs(k) + [SPACE], Backs(k + 1));
    ShowBacks(s3, k + 1);
    assert forall i: nat :: Cell(s3, i) == if i == s.col then SPACE else Cell(s1, i);
    var s' := ShowAll(s, Redraw(t, pos));
    forall i: nat
      ensures Cell(s', i) == RedrawnAt(s, t, pos, i)
    {
      assert Cell(s', i) == Cell(s3, i);
      assert Cell(s1, i) == if s.col <= i < s.col + k then tail[i - s.col] else Cell(s, i);
    }
  }

  /** A screen that shows the line before the delete, with the cursor where it is after it. */
  lemma RedrawSmears(s: Screen, left: Text, text: Text, pos: nat)
    requires AllVisible(text) && pos < |text| && Shows(s, left, text, pos)
    ensures var t := Without(text, pos);
      Smeared(ShowAll(s, Redraw(t, pos)), left, t, pos, text[|text| - 1])
  {
    var t := Without(text, pos);
    RedrawWrites(s, t, pos);
    var s' := ShowAll(s, Redraw(t, pos));
    var last := text[|text| - 1];
    forall i: nat
      ensures Cell(s', i) == SmearedAt(left, t, pos, last, i)
    {
      SmearCell(s, left, text, t, pos, last, i);
    }
  }

  lemma SmearCell(s: Screen, left: Text, text: Text, t: Text, pos: nat, last: Byte, i: nat)
    requires pos < |text| && t == Without(text, pos) && last == text[|text| - 1] && Shows(s, left, text, pos)
    ensures RedrawnAt(s, t, pos, i) == SmearedAt(left, t, pos, last, i)
  {
    assert Cell(s, i) == At(left + text, i);
  }

  /** The smeared line is right exactly when the cursor is at the end of the line, or else when it
      stands at the left margin and the characters that are wrong happen to be blanks. */
  lemma SmearedRight(s: Screen, left: Text, t: Text, pos: nat, last: Byte)
    requires AllVisible(t) && pos <= |t| && Smeared(s, left, t, pos, last) && (pos < |t| ==> last == t[|t| - 1])
    ensures Shows(s, left, t, pos) <==>
      pos == |t| || (left == [] && pos == 0 && t[0] == SPACE && t[|t| - 1] == SPACE)
  {
    var p := |left| + pos;
    assert Cell(s, p) == SPACE;
    if pos < |t| {
      assert At(left + t, p) == t[pos];
      assert Cell(s, |left| + |t|) == last && At(left + t, |left| + |t|) == SPACE;
    }
  }

  predicate DeleteRight(left: Text, ed: Editor) {
    ed.pos == |ed.text| || (left == [] && ed.pos == 0 && ed.text[0] == SPACE && ed.text[|ed.text| - 1] == SPACE)
  }

  lemma LastStays(text: Text, pos: nat)
    requires pos < |text| && pos < |Without(text, pos)|
    ensures text[|text| - 1] == Without(text, pos)[|text| - 2]
  {
  }

  /** After the delete key the screen tracks the buffer exactly under the condition above. */
  lemma DeleteAtTracks(s: Screen, left: Text, ed: Editor)
    requires Tracks(s, left, ed) && ed.pos < |ed.text|
    ensures var r := DeleteAt(ed);
      && Smeared(ShowAll(s, r.out), left, r.ed.text, r.ed.pos, ed.text[|ed.text| - 1])
      && (Tracks(ShowAll(s, r.out), left, r.ed) <==> DeleteRight(left, r.ed))
  {
    var t, last := Without(ed.text, ed.pos), ed.text[|ed.text| - 1];
    var s' := ShowAll(s, Redraw(t, ed.pos));
    RedrawSmears(s, left, ed.text, ed.pos);
    if ed.pos < |t| {
      LastStays(ed.text, ed.pos);
    }
    assert AllVisible(t);
    SmearedRight(s', left, t, ed.pos, last);
  }

  /** And so after a backspace. */
  lemma DeleteLeftTracks(s: Screen, left: Text, ed: Editor)
    requires Tracks(s, left, ed) && 0 < ed.pos <= |ed.text|
    ensures var r := DeleteLeft(ed);
      && Smeared(ShowAll(s, r.out), left, r.ed.text, r.ed.pos, ed.text[|ed.text| - 1])
      && (Tracks(ShowAll(s, r.out), left, r.ed) <==> DeleteRight(left, r.ed))
  {
    var before := ed.(pos := ed.pos - 1);
    var r := DeleteLeft(ed);
    assert Backs(1) == [BS];
    BackShown(s, left, ed.text, ed.pos, 1);
    ShowBoth(s, [BS], Redraw(r.ed.text, r.ed.pos));
    DeleteAtTracks(ShowAll(s, [BS]), left, before);
  }

  // ---- every key ----

  /** A delete that does nothing or leaves the cursor at the end of the line, or any other key. */
  predicate Safe(ed: Editor, c: Byte) {
    && (ed.esc.Plain? && (c == DEL || c == BS) ==> ed.pos == 0 || ed.pos == |ed.text|)
    && (ed.esc.InCsi? && c == TILDE && ed.csi == 3 ==> ed.pos + 1 >= |ed.text|)
  }

  predicate AllLines(hist: seq<Text>) {
    forall k | 0 <= k < |hist| :: AllVisible(hist[k])
  }

  lemma NavigateTracks(s: Screen, left: Text, ed: Editor, max: nat, hist: seq<Text>, up: bool)
    requires Fits(ed, max, hist) && Tracks(s, left, ed) && AllLines(hist) && AllVisible(ed.saved)
    ensures var r := Navigate(ed, max, hist, up);
      Tracks(ShowAll(s, r.out), left, r.ed) && AllVisible(r.ed.saved)
  {
    var nav := if up then ed.nav + 1 else ed.nav - 1;
    if 0 <= nav <= |hist| {
      var e := if ed.nav == 0 then ed.(saved := Cut(ed.text), nav := nav) else ed.(nav := nav);
      assert AllVisible(e.saved);
      SetLineTracks(s, left, e, max, if nav == 0 then e.saved else hist[nav - 1]);
    }
  }

  lemma MoveTracks(s: Screen, left: Text, ed: Editor)
    requires Tracks(s, left, ed) && ed.pos <= |ed.text|
    ensures Tracks(ShowAll(s, Left(ed).out), left, Left(ed).ed)
    ensures Tracks(ShowAll(s, Right(ed).out), left, Right(ed).ed)
    ensures Tracks(ShowAll(s, Home(ed).out), left, Home(ed).ed)
    ensures Tracks(ShowAll(s, End(ed).out), left, End(ed).ed)
    ensures Tracks(ShowAll(s, Kill(ed).out), left, Kill(ed).ed)
  {
    if ed.pos > 0 {
      assert Backs(1) == [BS];
      BackShown(s, left, ed.text, ed.pos, 1);
    }
    RightTracks(s, left, ed);
    BackShown(s, left, ed.text, ed.pos, ed.pos);
    EndTracks(s, left, ed);
    KillTracks(s, left, ed);
  }

  lemma RightTracks(s: Screen, left: Text, ed: Editor)
    requires Tracks(s, left, ed) && ed.pos <= |ed.text|
    ensures Tracks(ShowAll(s, Right(ed).out), left, Right(ed).ed)
  {
    if ed.pos < |ed.text| {
      var c := ed.text[ed.pos];
      ShowText(s, [c]);
      forall i: nat
        ensures Cell(ShowAll(s, [c]), i) == At(left + ed.text, i)
      {
        assert Cell(s, i) == At(left + ed.text, i);
      }
    }
  }

  ghost predicate Follows(s: Screen, left: Text, r: Reaction) {
    Tracks(ShowAll(s, r.out), left, r.ed) && AllVisible(r.ed.saved)
  }

  lemma SafeDeletes(s: Screen, left: Text, ed: Editor)
    requires Tracks(s, left, ed) && ed.pos <= |ed.text| && AllVisible(ed.saved)
    ensures ed.pos + 1 >= |ed.text| ==> Follows(s, left, DeleteAt(ed))
    ensures ed.pos == 0 || ed.pos == |ed.text| ==> Follows(s, left, DeleteLeft(ed))
  {
    if ed.pos < |ed.text| {
      DeleteAtTracks(s, left, ed);
    }
    if ed.pos > 0 {
      DeleteLeftTracks(s, left, ed);
    }
  }

  lemma InCsiTracks(s: Screen, left: Text, ed: Editor, max: nat, hist: seq<Text>, c: Byte)
    requires Fits(ed, max, hist) && Tracks(s, left, ed) && AllLines(hist) && AllVisible(ed.saved)
    requires ed.esc.InCsi? && Safe(ed, c)
    ensures Follows(s, left, InCsiKey(ed, max, hist, c))
  {
    if c == 0x41 {
      NavigateTracks(s, left, ed, max, hist, true);
    } else if c == 0x42 {
      NavigateTracks(s, left, ed, max, hist, false);
    } else if c == TILDE && ed.csi == 3 {
      SafeDeletes(s, left, ed);
    } else {
      InCsiMoves(s, left, ed, max, hist, c);
    }
  }

  /** The sequences that only move the cursor, or do nothing. */
  lemma InCsiMoves(s: Screen, left: Text, ed: Editor, max: nat, hist: seq<Text>, c: Byte)
    requires Fits(ed, max, hist) && Tracks(s, left, ed) && AllVisible(ed.saved)
    requires c != 0x41 && c != 0x42 && !(c == TILDE && ed.csi == 3)
    ensures Follows(s, left, InCsiKey(ed, max, hist, c))
  {
    var r := InCsiKey(ed, max, hist, c);
    assert r == Right(ed) || r == Left(ed) || r == Home(ed) || r == End(ed) || r == Say(ed, []);
    MoveTracks(s, left, ed);
  }

  lemma PlainTracks(s: Screen, left: Text, ed: Editor, max: nat, hist: seq<Text>, c: Byte)
    requires Fits(ed, max, hist) && Tracks(s, left, ed) && AllVisible(ed.saved)
    requires ed.esc.Plain? && Safe(ed, c) && !PlainKey(ed, max, hist, c).done
    ensures Follows(s, left, PlainKey(ed, max, hist, c))
  {
    if c == DEL || c == BS {
      SafeDeletes(s, left, ed);
    } else if Visible(c) {
      InsertTracks(s, left, ed, max, c);
    } else {
      PlainMoves(s, left, ed, max, hist, c);
    }
  }

  lemma PlainMoves(s: Screen, left: Text, ed: Editor, max: nat, hist: seq<Text>, c: Byte)
    requires Fits(ed, max, hist) && Tracks(s, left, ed) && AllVisible(ed.saved)
    requires c != DEL && c != BS && !Visible(c) && !PlainKey(ed, max, hist, c).done
    ensures Follows(s, left, PlainKey(ed, max, hist, c))
  {
    var r := PlainKey(ed, max, hist, c);
    assert || r == Right(ed) || r == Left(ed) || r == Home(ed) || r == End(ed) || r == Kill(ed)
           || r == Say(ed.(esc := SawEsc), []) || r == Say(ed, []);
    MoveTracks(s, left, ed);
  }

  lemma KeyTracks(s: Screen, left: Text, ed: Editor, max: nat, hist: seq<Text>, c: Byte)
    requires Fits(ed, max, hist) && Tracks(s, left, ed) && AllLines(hist) && AllVisible(ed.saved)
    requires Safe(ed, c) && !Key(ed, max, hist, c).done
    ensures Follows(s, left, Key(ed, max, hist, c))
  {
    match ed.esc
    case SawEsc =>
    case InCsi => InCsiTracks(s, left, ed, max, hist, c);
    case Plain => PlainTracks(s, left, ed, max, hist, c);
  }

  /** No key of the stream is a delete inside the line. */
  predicate SafeKeys(ed: Editor, max: nat, hist: seq<Text>, keys: Text)
    requires Fits(ed, max, hist)
    decreases |keys|
  {
    keys == [] || (
      && Safe(ed, keys[0])
      && var r := Key(ed, max, hist, keys[0]);
         r.done || SafeKeys(r.ed, max, hist, keys[1..]))
  }

  /** Whatever is typed, until the line is done, the terminal's line is the buffer followed by
      blanks, with the cursor at the editor's position; and a finished line leaves a fresh line. */
  lemma {:induction false} ScreenTracks(s: Screen, left: Text, ed: Editor, max: nat, hist: seq<Text>, keys: Text)
    requires Fits(ed, max, hist) && Tracks(s, left, ed) && AllLines(hist) && AllVisible(ed.saved)
    requires SafeKeys(ed, max, hist, keys)
    ensures var o := Keys(ed, max, hist, keys);
      if o.done then ShowAll(s, o.out) == Screen([], 0)
      else Tracks(ShowAll(s, o.out), left, o.ed)
    decreases |keys|
  {
    if keys == [] {
    } else {
      var r := Key(ed, max, hist, keys[0]);
      if r.done {
        DoneShows(s, ed, max, hist, keys[0]);
      } else {
        KeyTracks(s, left, ed, max, hist, keys[0]);
        ScreenTracks(ShowAll(s, r.out), left, r.ed, max, hist, keys[1..]);
        ShowBoth(s, r.out, Keys(r.ed, max, hist, keys[1..]).out);
      }
    }
  }

  lemma DoneShows(s: Screen, ed: Editor, max: nat, hist: seq<Text>, c: Byte)
    requires Fits(ed, max, hist) && Key(ed, max, hist, c).done
    ensures ShowAll(s, Key(ed, max, hist, c).out) == Screen([], 0)
  {
    if c == CTRL_C {
      assert [CARET, UPPER_C, NL, NL] == [CARET, UPPER_C, NL] + [NL];
      NewlineFrees(s, [CARET, UPPER_C, NL]);
    } else {
      assert [NL] == [] + [NL];
      NewlineFrees(s, []);
    }
  }

  lemma NewlineFrees(s: Screen, front: Text)
    ensures ShowAll(s, front + [NL]) == Screen([], 0)
  {
    ShowBoth(s, front, [NL]);
    assert [NL] == [NL] + [];
    ShowOne(ShowAll(s, front), NL, []);
  }

  // ---- visible characters ----

  /** No key brings an invisible character into the line. */
  lemma KeyVisible(ed: Editor, max: nat, hist: seq<Text>, c: Byte)
    requires Fits(ed, max, hist) && AllVisible(ed.text) && AllVisible(ed.saved) && AllLines(hist)
    ensures var e := Key(ed, max, hist, c).ed;
      AllVisible(e.text) && AllVisible(e.saved)
  {
    if ed.esc.InCsi? {
      CsiVisible(ed, max, hist, c);
    }
  }

  lemma CsiVisible(ed: Editor, max: nat, hist: seq<Text>, c: Byte)
    requires Fits(ed, max, hist) && AllVisible(ed.text) && AllVisible(ed.saved) && AllLines(hist)
    ensures var e := InCsiKey(ed, max, hist, c).ed;
      AllVisible(e.text) && AllVisible(e.saved)
  {
    if c == 0x41 {
      NavigateVisible(ed, max, hist, true);
    } else if c == 0x42 {
      NavigateVisible(ed, max, hist, false);
    }
  }

  lemma NavigateVisible(ed: Editor, max: nat, hist: seq<Text>, up: bool)
    requires Fits(ed, max, hist) && AllVisible(ed.text) && AllVisible(ed.saved) && AllLines(hist)
    ensures var e := Navigate(ed, max, hist, up).ed;
      AllVisible(e.text) && AllVisible(e.saved)
  {
  }

  lemma {:induction false} KeysVisible(ed: Editor, max: nat, hist: seq<Text>, keys: Text)
    requires Fits(ed, max, hist) && AllVisible(ed.text) && AllVisible(ed.saved) && AllLines(hist)
    ensures var e := Keys(ed, max, hist, keys).ed;
      AllVisible(e.text) && AllVisible(e.saved)
    decreases |keys|
  {
    if keys == [] {
    } else {
      KeyVisible(ed, max, hist, keys[0]);
      var r := Key(ed, max, hist, keys[0]);
      if !r.done {
        KeysVisible(r.ed, max, hist, keys[1..]);
      }
    }
  }

  lemma PushVisible(hist: seq<Text>, line: Text)
    requires AllLines(hist) && AllVisible(line)
    ensures AllLines(Push(hist, line))
  {
  }
}
