/** What becomes of a page table above the first GiB (arch/x86_64/mm/paging.c, next_table): its zeros
    go where the address of its frame leads, and it is linked as it was. */
module HighFrames {
  import opened Options
  import opened Words
  import opened FrameAllocator
  import opened PageTable
  import opened Paging
  import opened UserMemory

  /** A store to the address of frame f reaches f exactly if the page there is mapped to f itself. While
      no page shows a free frame, as after any maps but those of chosen physical memory, a store to
      the address of a free frame misses it: it faults or goes to another frame. */
  lemma StoreMisses(s: Snapshot, root: nat, f: nat)
    requires f < PAGES && !Translate(s.m, root, f).LargePage?
    ensures Reached(s.m, root, f) == Some(f) <==> MapsTo(s, root, f, f)
    ensures Safe(s, root) && f in s.free ==> Reached(s.m, root, f) != Some(f)
  {
  }

  /** Table t, of the given level, lacks the table below it that serves page p, and frame f, which is
      free, is to become it, though start-up has not mapped its address. */
  ghost predicate ToLink(s: Snapshot, root: nat, t: nat, level: nat, p: nat, f: nat) {
    && Tree(s.m, root, s.nodes) && Safe(s, root) && s.nodes.Keys !! s.free
    && f in s.free && 0 < f < PAGES && !Translate(s.m, root, f).LargePage?
    && 2 <= level <= 4 && p < PAGES
    && t in s.nodes && s.nodes[t].level == level && TableAt(s.m, root, 4, p, level) == t
    && !Present(Entry(s.m, t, Index(p, level)))
  }

  /** From m to m' the first n words of frame g have become zero. */
  ghost predicate WordsZeroed(m: Ram, m': Ram, g: nat, n: nat) {
    && |m'| == |m|
    && forall x: nat, j: nat | j < 512 :: Entry(m', x, j) == if x == g && j < n then 0 else Entry(m, x, j)
  }

  /** From m to m' frame g has been zeroed and frame f linked, at entry i of t. */
  ghost predicate Misplaced(m: Ram, m': Ram, t: nat, i: nat, f: nat, g: nat) {
    && f < 0x100_0000_0000 && i < 512 && |m'| == |m|
    && forall x: nat, j: nat | j < 512 ::
      Entry(m', x, j) == if x == t && j == i then TableEntry(f) else if x == g then 0 else Entry(m, x, j)
  }

  /** The code of next_table with such a frame: each store goes through the tables, and the first one
      faults if they lead nowhere. */
  method ZeroAndLink(ram: array<Word>, root: nat, t: nat, i: nat, f: nat, ghost s: Snapshot, ghost level: nat, ghost p: nat)
    returns (ok: bool)
    requires s.m == ram[..] && ToLink(s, root, t, level, p, f) && i == Index(p, level)
    modifies ram
    ensures ok <==> Reached(s.m, root, f).Some?
    ensures ok ==> Misplaced(s.m, ram[..], t, i, f, Reached(s.m, root, f).value)
    ensures !ok ==> ram[..] == s.m
  {
    ghost var x := Translate(s.m, root, f);
    var j := 0;
    while j < 512
      invariant 0 <= j <= 512 && (j > 0 ==> x.Page?) && Tree(ram[..], root, s.nodes)
      invariant Translate(ram[..], root, f) == x
      invariant if x.Page? then WordsZeroed(s.m, ram[..], x.frame, j) else ram[..] == s.m
    {
      ok := StoreThrough(ram, root, f, j, 0, s, x);
      if !ok {
        return;
      }
      j := j + 1;
    }
    ok := true;
    LinkAfter(s, ram[..], root, t, i, f, x.frame);
    ram[512 * t + i] := TableEntry(f);
  }

  /** A store to word j of the page at the address of frame f. */
  method StoreThrough(ram: array<Word>, root: nat, f: nat, j: nat, w: Word, ghost s: Snapshot, ghost x: Mapping) returns (ok: bool)
    requires Tree(ram[..], root, s.nodes) && Safe(s, root) && ram.Length == |s.m| && j < 512 && f < PAGES
    requires x == Translate(s.m, root, f) == Translate(ram[..], root, f) && !x.LargePage?
    modifies ram
    ensures ok <==> x.Page?
    ensures ok ==> Stored(old(ram[..]), ram[..], x.frame, j, w) && Tree(ram[..], root, s.nodes) && Translate(ram[..], root, f) == x
    ensures !ok ==> ram[..] == old(ram[..])
  {
    match Translate(ram[..], root, f) {
      case Page(g, _, _) =>
        ghost var m := ram[..];
        assert Owned(s, g);
        StoreEntry(m, g, j, w);
        ram[512 * g + j] := w;
        DataKeepsView(m, ram[..], root, s.nodes, g, j, w);
        return true;
      case _ =>
        return false;
    }
  }

  lemma LinkAfter(s: Snapshot, m: Ram, root: nat, t: nat, i: nat, f: nat, g: nat)
    requires WordsZeroed(s.m, m, g, 512) && f < PAGES && i < 512 && 512 * t + 512 <= |m|
    ensures Misplaced(s.m, m[512 * t + i := TableEntry(f)], t, i, f, g)
  {
    StoreEntry(m, t, i, TableEntry(f));
  }

  // ---- what the linked table shows ----

  /** The same frame or large page, or nothing, whatever the rights. */
  predicate SameTarget(a: Mapping, b: Mapping) {
    match a
    case Unmapped => b.Unmapped?
    case Page(f, _, _) => b.Page? && b.frame == f
    case LargePage(_, _) => b == a
  }

  /** A walk comes to what the table of level k on its path shows. */
  lemma {:induction false} PathShows(m: Ram, x: nat, level: nat, p: nat, k: nat)
    requires 1 <= k <= level <= 4 && TableAt(m, x, level, p, k) != 0
    ensures SameTarget(Walk(m, x, level, p), Walk(m, TableAt(m, x, level, p, k), k, p))
    decreases level
  {
    if k == level {
    } else {
      PathShows(m, FrameOf(Entry(m, x, Index(p, level))), level - 1, p, k);
    }
  }

  /** A change below table t leaves the path to t. */
  lemma {:induction false} PathToStays(m: Ram, m': Ram, root: nat, nodes: Nodes, x: nat, level: nat, q: nat, k: nat)
    requires Tree(m, root, nodes) && 1 <= k <= level <= 4 && x in nodes && nodes[x] == Node(level, Prefix(q, level))
    requires forall y: nat, j: nat | y in nodes && nodes[y].level > k && j < 512 :: Entry(m', y, j) == Entry(m, y, j)
    ensures TableAt(m', x, level, q, k) == TableAt(m, x, level, q, k)
    decreases level
  {
    if k == level {
    } else {
      var i := Index(q, level);
      assert ChildOk(m, nodes, x, i) && Entry(m', x, i) == Entry(m, x, i);
      if Present(Entry(m, x, i)) && !Large(Entry(m, x, i)) {
        PrefixStep(q, level);
        PathToStays(m, m', root, nodes, FrameOf(Entry(m, x, i)), level - 1, q, k);
      }
    }
  }

  /** The frame that the zeros go to is neither the new table nor any other, and if a page shows it,
      the page's content is gone. The new table keeps what it held, and every page whose path leads
      through it now shows that: a word that looks like a large page becomes one. No other page
      changes its translation. */
  lemma UnzeroedTableShows(s: Snapshot, m': Ram, root: nat, t: nat, level: nat, p: nat, f: nat, g: nat, q: nat)
    requires ToLink(s, root, t, level, p, f) && Reached(s.m, root, f) == Some(g)
    requires Misplaced(s.m, m', t, Index(p, level), f, g) && q < PAGES
    ensures g != f && g !in s.nodes && MapsTo(s, root, f, g)
    ensures forall k: nat | k < 4096 :: ByteOf(m', g, k) == 0
    ensures forall j: nat | j < 512 :: Entry(m', f, j) == Entry(s.m, f, j)
    ensures if Prefix(q, level - 1) == Prefix(p, level - 1)
            then SameTarget(Translate(m', root, q), Walk(m', f, level - 1, q))
            else Translate(m', root, q) == Translate(s.m, root, q)
  {
    StoreMisses(s, root, f);
    assert Owned(s, g);
    forall k: nat | k < 4096
      ensures ByteOf(m', g, k) == 0
    {
      ZeroByte(k % 8);
    }
    PathInTree(s.m, root, s.nodes, root, 4, p, level);
    PrefixStep(p, level);
    PrefixStep(q, level);
    if Prefix(q, level - 1) == Prefix(p, level - 1) {
      NewTableShows(s, m', root, t, level, p, f, g, q);
    } else {
      WalkAgrees(s.m, m', root, s.nodes, root, 4, q);
    }
  }

  lemma NewTableShows(s: Snapshot, m': Ram, root: nat, t: nat, level: nat, p: nat, f: nat, g: nat, q: nat)
    requires ToLink(s, root, t, level, p, f) && g !in s.nodes && q < PAGES
    requires Misplaced(s.m, m', t, Index(p, level), f, g) && Prefix(q, level - 1) == Prefix(p, level - 1)
    ensures SameTarget(Translate(m', root, q), Walk(m', f, level - 1, q))
  {
    PrefixUp(p, q, level - 1, level);
    SharedPath(s.m, root, 4, p, q, level);
    PathToStays(s.m, m', root, s.nodes, root, 4, q, level);
    assert Index(q, level) == Index(p, level) by {
      PrefixStep(p, level);
      PrefixStep(q, level);
    }
    TableFields(f);
    PathShows(m', root, 4, q, level);
    PathShows(m', t, level, q, level - 1);
  }

  lemma {:induction false} ZeroByte(k: nat)
    ensures GetByte(0, k) == 0
  {
    if k == 0 {
    } else {
      ZeroByte(k - 1);
    }
  }
}
