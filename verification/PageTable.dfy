/** Four-level page tables held in RAM, as values: what a walk of the tables translates, which
    shapes of table are well formed, and how one store changes the translation. Translation
    follows section 4.5 (and, for access rights, section 4.6) of the Intel SDM, Volume 3A. */
module PageTable {
  import opened Words

  /** RAM as words, 512 to the frame. */
  type Ram = seq<Word>

  /** A virtual page number: bits 12 to 47 of an address. */
  const PAGES: nat := 0x10_0000_0000

  /** What a virtual page translates to. `write` and `user` are the effective rights, that is the
      conjunction of the rights along the whole walk. */
  datatype Mapping = Unmapped | Page(frame: nat, write: bool, user: bool) | LargePage(level: nat, entry: Word)

  datatype Rights = Rights(write: bool, user: bool)

  // ---- table entries ----

  predicate Present(e: Word) { e % 2 == 1 }
  predicate Writable(e: Word) { e / 2 % 2 == 1 }
  predicate UserOk(e: Word) { e / 4 % 2 == 1 }
  predicate Large(e: Word) { e / 128 % 2 == 1 }

  /** The frame number in the address field, bits 12 to 51. */
  function FrameOf(e: Word): nat {
    e / 4096 % 0x100_0000_0000
  }

  const VM_WRITE: nat := 2
  const VM_USER: nat := 4

  /** The low bits of a leaf entry for the requested flags; the entry is always present. */
  function FlagsToPte(flags: Word): (p: nat)
    ensures p < 8
  {
    1 + (if flags / VM_WRITE % 2 == 1 then 2 else 0) + (if flags / VM_USER % 2 == 1 then 4 else 0)
  }

  /** The leaf entry for physical address `pa`: its address field joined with the flag bits. */
  function LeafEntry(pa: Word, flags: Word): Word {
    FrameOf(pa) * 4096 + FlagsToPte(flags)
  }

  /** The entry that links a table: present, writable, user. */
  function TableEntry(frame: nat): Word
    requires frame < 0x100_0000_0000
  {
    frame * 4096 + 7
  }

  lemma FieldsOf(frame: nat, low: nat)
    requires frame < 0x100_0000_0000 && low < 8
    ensures FrameOf(frame * 4096 + low) == frame
    ensures Present(frame * 4096 + low) == (low % 2 == 1) && !Large(frame * 4096 + low)
    ensures Writable(frame * 4096 + low) == (low / 2 % 2 == 1) && UserOk(frame * 4096 + low) == (low / 4 % 2 == 1)
  {
    var e := frame * 4096 + low;
    assert e / 4096 == frame;
    Parity(e, frame * 2048, low);
    Parity(e / 2, frame * 1024, low / 2);
    Parity(e / 4, frame * 512, low / 4);
    Parity(e / 128, frame * 16, 0);
  }

  lemma Parity(x: nat, half: nat, r: nat)
    requires x == 2 * half + r
    ensures x % 2 == r % 2
  {
  }

  lemma LeafFields(pa: Word, flags: Word)
    ensures var e := LeafEntry(pa, flags);
      && Present(e) && !Large(e) && FrameOf(e) == FrameOf(pa)
      && Writable(e) == (flags / VM_WRITE % 2 == 1) && UserOk(e) == (flags / VM_USER % 2 == 1)
  {
    FieldsOf(FrameOf(pa), FlagsToPte(flags));
  }

  lemma TableFields(frame: nat)
    requires frame < 0x100_0000_0000
    ensures var e := TableEntry(frame); Present(e) && !Large(e) && FrameOf(e) == frame && Writable(e) && UserOk(e)
  {
    assert 7 % 2 == 1 && 7 / 2 % 2 == 1 && 7 / 4 % 2 == 1;
    FieldsOf(frame, 7);
  }

  // ---- indices and prefixes of a page number ----

  /** 512 to the power `level`. */
  function Span(level: nat): nat
    requires level <= 4
  {
    match level
    case 0 => 1
    case 1 => 0x200
    case 2 => 0x4_0000
    case 3 => 0x800_0000
    case 4 => 0x10_0000_0000
  }

  /** The entry that page p selects in its table of this level. */
  function Index(p: nat, level: nat): (i: nat)
    requires 1 <= level <= 4
    ensures i < 512
  {
    p / Span(level - 1) % 512
  }

  /** The bits of p above the table of this level: pages share a table exactly when they share
      these bits. */
  function Prefix(p: nat, level: nat): nat
    requires level <= 4
  {
    p / Span(level)
  }

  lemma PrefixStep(p: nat, level: nat)
    requires 1 <= level <= 4
    ensures Prefix(p, level - 1) == Prefix(p, level) * 512 + Index(p, level)
  {
  }

  // ---- the walk ----

  function Entry(m: Ram, t: nat, i: nat): Word {
    if 512 * t + i < |m| then m[512 * t + i] else 0
  }

  /** The walk for page p from the table t of the given level, with the rights collected so far. */
  function Walk(m: Ram, t: nat, level: nat, p: nat): Mapping
    requires 1 <= level <= 4
    decreases level
  {
    var e := Entry(m, t, Index(p, level));
    if !Present(e) then Unmapped
    else if level == 1 then Page(FrameOf(e), Writable(e), UserOk(e))
    else if Large(e) then LargePage(level, e)
    else Restrict(Walk(m, FrameOf(e), level - 1, p), Writable(e), UserOk(e))
  }

  function Restrict(x: Mapping, write: bool, user: bool): Mapping {
    match x
    case Page(f, w, u) => Page(f, w && write, u && user)
    case _ => x
  }

  /** The rights that the tables above a leaf leave to page p: a missing table would be created
      with every right. */
  function PathRights(m: Ram, t: nat, level: nat, p: nat): Rights
    requires 1 <= level <= 4
    decreases level
  {
    var e := Entry(m, t, Index(p, level));
    if level == 1 || !Present(e) || Large(e) then Rights(true, true)
    else var r := PathRights(m, FrameOf(e), level - 1, p);
      Rights(r.write && Writable(e), r.user && UserOk(e))
  }

  /** How many tables a map of page p has to create. */
  function Missing(m: Ram, t: nat, level: nat, p: nat): nat
    requires 1 <= level <= 4
    decreases level
  {
    var e := Entry(m, t, Index(p, level));
    if level == 1 then 0
    else if !Present(e) then level - 1
    else if Large(e) then 0
    else Missing(m, FrameOf(e), level - 1, p)
  }

  lemma {:induction false} MissingAtMost(m: Ram, t: nat, level: nat, p: nat)
    requires 1 <= level <= 4
    ensures Missing(m, t, level, p) < level
    decreases level
  {
    var e := Entry(m, t, Index(p, level));
    if level > 1 && Present(e) && !Large(e) {
      MissingAtMost(m, FrameOf(e), level - 1, p);
    }
  }

  /** The table of level k on the path of page p, if the path gets that far. */
  function TableAt(m: Ram, t: nat, level: nat, p: nat, k: nat): (r: nat)
    requires 1 <= k <= level <= 4
    decreases level
  {
    if k == level then t
    else
      var e := Entry(m, t, Index(p, level));
      if !Present(e) || Large(e) then 0 else TableAt(m, FrameOf(e), level - 1, p, k)
  }

  function Translate(m: Ram, root: nat, p: nat): Mapping {
    Walk(m, root, 4, p)
  }

  function RightsOf(m: Ram, root: nat, p: nat): Rights {
    PathRights(m, root, 4, p)
  }

  /** m and m' translate every page alike, and would give a new leaf the same rights. */
  ghost predicate SameView(m: Ram, m': Ram, root: nat) {
    forall p: nat | p < PAGES :: Translate(m', root, p) == Translate(m, root, p) && RightsOf(m', root, p) == RightsOf(m, root, p)
  }

  /** m and m' have the same tables missing. */
  ghost predicate SameMissing(m: Ram, m': Ram, root: nat) {
    forall p: nat | p < PAGES :: Missing(m', root, 4, p) == Missing(m, root, 4, p)
  }

  /** A map of page p would have to create a table of level k. */
  predicate Lacks(m: Ram, root: nat, p: nat, k: nat) {
    1 <= k <= Missing(m, root, 4, p)
  }

  // ---- well-formed trees ----

  /** The place of a table in the tree: its level, and the pages it serves. */
  datatype Node = Node(level: nat, prefix: nat)

  type Nodes = map<nat, Node>

  ghost predicate ChildOk(m: Ram, nodes: Nodes, t: nat, i: nat)
    requires t in nodes
  {
    var e := Entry(m, t, i);
    Present(e) && !Large(e) ==>
      && FrameOf(e) in nodes
      && nodes[FrameOf(e)].level + 1 == nodes[t].level
      && nodes[FrameOf(e)].prefix == nodes[t].prefix * 512 + i
  }

  /** Every table frame has one place in the tree, and every entry above level 1 that links a
      table links the one that belongs there. No frame can be a table in two places. */
  ghost predicate Tree(m: Ram, root: nat, nodes: Nodes) {
    && root in nodes && nodes[root] == Node(4, 0)
    && (forall t | t in nodes :: 0 < t && 512 * t + 512 <= |m| && 1 <= nodes[t].level <= 4)
    && (forall t, i: nat | t in nodes && nodes[t].level > 1 && i < 512 :: ChildOk(m, nodes, t, i))
  }

  /** The path of page p passes through a table only where that table belongs. */
  lemma {:induction false} PathInTree(m: Ram, root: nat, nodes: Nodes, t: nat, level: nat, p: nat, k: nat)
    requires Tree(m, root, nodes) && 1 <= k <= level <= 4
    requires t in nodes && nodes[t] == Node(level, Prefix(p, level))
    ensures var r := TableAt(m, t, level, p, k); r == 0 || (r in nodes && nodes[r] == Node(k, Prefix(p, k)))
    decreases level
  {
    if k == level {
    } else {
      var i := Index(p, level);
      var e := Entry(m, t, i);
      assert ChildOk(m, nodes, t, i);
      if Present(e) && !Large(e) {
        PrefixStep(p, level);
        PathInTree(m, root, nodes, FrameOf(e), level - 1, p, k);
      }
    }
  }

  /** No aliasing: if one frame is a table on two paths, it is at the same level of both and
      serves the same pages. */
  lemma NoAliasing(m: Ram, root: nat, nodes: Nodes, p: nat, k: nat, q: nat, j: nat)
    requires Tree(m, root, nodes) && p < PAGES && q < PAGES && 1 <= k <= 4 && 1 <= j <= 4
    requires TableAt(m, root, 4, p, k) == TableAt(m, root, 4, q, j) != 0
    ensures k == j && Prefix(p, k) == Prefix(q, j)
  {
    PathInTree(m, root, nodes, root, 4, p, k);
    PathInTree(m, root, nodes, root, 4, q, j);
  }

  // ---- what one store changes ----

  /** m' is m with entry i of frame t set to e. */
  ghost predicate Stored(m: Ram, m': Ram, t: nat, i: nat, e: Word) {
    && |m'| == |m|
    && forall g: nat, j: nat | j < 512 :: Entry(m', g, j) == if g == t && j == i then e else Entry(m, g, j)
  }

  lemma StoreEntry(m: Ram, t: nat, i: nat, e: Word)
    requires i < 512 && 512 * t + i < |m|
    ensures Stored(m, m[512 * t + i := e], t, i, e)
  {
    var m' := m[512 * t + i := e];
    forall g: nat, j: nat | j < 512
      ensures Entry(m', g, j) == if g == t && j == i then e else Entry(m, g, j)
    {
      assert 512 * g + j == 512 * t + i ==> g == t && j == i;
    }
  }

  /** m' differs from m, among the entries the tables of `nodes` hold, at most where page q does
      not look. */
  ghost predicate AgreeFor(m: Ram, m': Ram, nodes: Nodes, q: nat) {
    forall t | t in nodes && 1 <= nodes[t].level <= 4 && nodes[t].prefix == Prefix(q, nodes[t].level) ::
      Entry(m', t, Index(q, nodes[t].level)) == Entry(m, t, Index(q, nodes[t].level))
  }

  lemma {:induction false} WalkAgrees(m: Ram, m': Ram, root: nat, nodes: Nodes, t: nat, level: nat, q: nat)
    requires Tree(m, root, nodes) && AgreeFor(m, m', nodes, q) && 1 <= level <= 4
    requires t in nodes && nodes[t] == Node(level, Prefix(q, level))
    ensures Walk(m', t, level, q) == Walk(m, t, level, q)
    ensures PathRights(m', t, level, q) == PathRights(m, t, level, q)
    ensures Missing(m', t, level, q) == Missing(m, t, level, q)
    decreases level
  {
    var i := Index(q, level);
    var e := Entry(m, t, i);
    assert Entry(m', t, i) == e;
    if level > 1 && Present(e) && !Large(e) {
      assert ChildOk(m, nodes, t, i);
      PrefixStep(q, level);
      WalkAgrees(m, m', root, nodes, FrameOf(e), level - 1, q);
    }
  }

  /** A table frame whose entries are all zero. */
  ghost predicate ZeroTable(m: Ram, f: nat) {
    forall i: nat | i < 512 :: Entry(m, f, i) == 0
  }

  /** m' is m with frame f zeroed and then linked at entry i of table t. */
  ghost predicate Linked(m: Ram, m': Ram, t: nat, i: nat, f: nat) {
    && f < 0x100_0000_0000 && |m'| == |m| && f != t && i < 512
    && (forall g: nat, j: nat | j < 512 && g != f && (g != t || j != i) :: Entry(m', g, j) == Entry(m, g, j))
    && ZeroTable(m', f)
    && Entry(m', t, i) == TableEntry(f)
  }

  lemma LinkKeepsTree(m: Ram, m': Ram, root: nat, nodes: Nodes, t: nat, i: nat, f: nat)
    requires Tree(m, root, nodes) && Linked(m, m', t, i, f)
    requires t in nodes && nodes[t].level > 1 && f !in nodes && 0 < f && 512 * f + 512 <= |m|
    ensures Tree(m', root, nodes[f := Node(nodes[t].level - 1, nodes[t].prefix * 512 + i)])
  {
    var nodes' := nodes[f := Node(nodes[t].level - 1, nodes[t].prefix * 512 + i)];
    TableFields(f);
    forall x, j: nat | x in nodes' && nodes'[x].level > 1 && j < 512
      ensures ChildOk(m', nodes', x, j)
    {
      if x != f {
        assert ChildOk(m, nodes, x, j);
      }
    }
  }

  /** Linking an empty table changes no translation: it only takes the place of an absent one. */
  lemma {:induction false} LinkWalk(m: Ram, m': Ram, root: nat, nodes: Nodes, x: nat, level: nat, q: nat, t: nat, i: nat, f: nat)
    requires Tree(m, root, nodes) && Linked(m, m', t, i, f) && f !in nodes
    requires t in nodes && nodes[t].level > 1 && !Present(Entry(m, t, i))
    requires 1 <= level <= 4 && x in nodes && nodes[x] == Node(level, Prefix(q, level))
    ensures Walk(m', x, level, q) == Walk(m, x, level, q)
    ensures PathRights(m', x, level, q) == PathRights(m, x, level, q)
    decreases level
  {
    var j := Index(q, level);
    var e := Entry(m, x, j);
    TableFields(f);
    if x == t && j == i {
      assert Entry(m', f, Index(q, level - 1)) == 0;
    } else {
      assert Entry(m', x, j) == e;
      if level > 1 && Present(e) && !Large(e) {
        assert ChildOk(m, nodes, x, j);
        PrefixStep(q, level);
        LinkWalk(m, m', root, nodes, FrameOf(e), level - 1, q, t, i, f);
      }
    }
  }

  lemma LinkKeepsView(m: Ram, m': Ram, root: nat, nodes: Nodes, t: nat, i: nat, f: nat)
    requires Tree(m, root, nodes) && Linked(m, m', t, i, f) && f !in nodes
    requires t in nodes && nodes[t].level > 1 && !Present(Entry(m, t, i))
    ensures SameView(m, m', root)
  {
    forall p: nat | p < PAGES
      ensures Translate(m', root, p) == Translate(m, root, p) && RightsOf(m', root, p) == RightsOf(m, root, p)
    {
      LinkWalk(m, m', root, nodes, root, 4, p, t, i, f);
    }
  }

  /** The table that a path has reached decides what is left of the walk. */
  lemma {:induction false} PathRest(m: Ram, x: nat, level: nat, p: nat, k: nat)
    requires 1 <= k <= level <= 4 && TableAt(m, x, level, p, k) != 0
    ensures Missing(m, x, level, p) == Missing(m, TableAt(m, x, level, p, k), k, p)
    ensures Walk(m, x, level, p).LargePage? == Walk(m, TableAt(m, x, level, p, k), k, p).LargePage?
    ensures Walk(m, x, level, p).LargePage? ==> Walk(m, x, level, p) == Walk(m, TableAt(m, x, level, p, k), k, p)
    ensures k > 1 ==> TableAt(m, x, level, p, k - 1) == TableAt(m, TableAt(m, x, level, p, k), k, p, k - 1)
    decreases level
  {
    if k == level {
    } else {
      PathRest(m, FrameOf(Entry(m, x, Index(p, level))), level - 1, p, k);
    }
  }

  lemma {:induction false} MissingUnmapped(m: Ram, t: nat, level: nat, p: nat)
    requires 1 <= level <= 4 && Missing(m, t, level, p) > 0
    ensures Walk(m, t, level, p) == Unmapped
    decreases level
  {
    var e := Entry(m, t, Index(p, level));
    if Present(e) {
      MissingUnmapped(m, FrameOf(e), level - 1, p);
    }
  }

  lemma {:induction false} LargeMissesNone(m: Ram, t: nat, level: nat, p: nat)
    requires 1 <= level <= 4 && Walk(m, t, level, p).LargePage?
    ensures Missing(m, t, level, p) == 0
    decreases level
  {
    var e := Entry(m, t, Index(p, level));
    if level > 1 && Present(e) && !Large(e) {
      LargeMissesNone(m, FrameOf(e), level - 1, p);
    }
  }

  /** Linking the missing table of page p extends its path by one table. */
  lemma {:induction false} LinkPath(m: Ram, m': Ram, root: nat, nodes: Nodes, x: nat, level: nat, p: nat, t: nat, k: nat, f: nat)
    requires Tree(m, root, nodes) && f !in nodes && 0 < f
    requires 2 <= k <= level <= 4 && Linked(m, m', t, Index(p, k), f) && !Present(Entry(m, t, Index(p, k)))
    requires x in nodes && nodes[x] == Node(level, Prefix(p, level))
    requires TableAt(m, x, level, p, k) == t && t in nodes && nodes[t].level == k
    ensures TableAt(m', x, level, p, k - 1) == f
    ensures Missing(m', x, level, p) == Missing(m, x, level, p) - 1
    decreases level
  {
    var i := Index(p, level);
    TableFields(f);
    if k < level {
      assert ChildOk(m, nodes, x, i);
      assert Entry(m', x, i) == Entry(m, x, i);
      PrefixStep(p, level);
      LinkPath(m, m', root, nodes, FrameOf(Entry(m, x, i)), level - 1, p, t, k, f);
    } else if level > 2 {
      assert Entry(m', f, Index(p, level - 1)) == 0;
    }
  }

  /** Pages that share a table share all the tables above it. */
  lemma {:induction false} PrefixUp(p: nat, q: nat, k: nat, l: nat)
    requires k <= l <= 4 && Prefix(p, k) == Prefix(q, k)
    ensures Prefix(p, l) == Prefix(q, l)
    ensures k < l ==> Index(p, l) == Index(q, l)
    decreases l
  {
    if k == l {
    } else {
      PrefixUp(p, q, k, l - 1);
      PrefixStep(p, l);
      PrefixStep(q, l);
    }
  }

  lemma {:induction false} SharedPath(m: Ram, x: nat, level: nat, p: nat, q: nat, k: nat)
    requires 1 <= k <= level <= 4 && Prefix(p, k) == Prefix(q, k)
    ensures TableAt(m, x, level, p, k) == TableAt(m, x, level, q, k)
    decreases level
  {
    if k == level {
    } else {
      PrefixUp(p, q, k, level);
      SharedPath(m, FrameOf(Entry(m, x, Index(p, level))), level - 1, p, q, k);
    }
  }

  /** The path of page q, followed from table x, comes to entry i of table t of level k. */
  predicate ComesTo(m: Ram, x: nat, level: nat, q: nat, t: nat, i: nat, k: nat)
    requires 1 <= level <= 4 && 1 <= k <= 4
  {
    k <= level && TableAt(m, x, level, q, k) == t && Index(q, k) == i
  }

  /** Linking a table supplies the one missing table, to all pages whose path comes to it. */
  lemma {:induction false} LinkMissing(m: Ram, m': Ram, root: nat, nodes: Nodes, x: nat, level: nat, q: nat, t: nat, i: nat, f: nat)
    requires Tree(m, root, nodes) && Linked(m, m', t, i, f) && f !in nodes && 0 < f
    requires t in nodes && nodes[t].level > 1 && !Present(Entry(m, t, i))
    requires 1 <= level <= 4 && x in nodes && nodes[x] == Node(level, Prefix(q, level))
    ensures var k := nodes[t].level;
      if ComesTo(m, x, level, q, t, i, k)
      then Missing(m, x, level, q) == k - 1 && Missing(m', x, level, q) == k - 2
      else Missing(m', x, level, q) == Missing(m, x, level, q)
    decreases level
  {
    var j := Index(q, level);
    if x == t && j == i {
      LinkedHere(m, m', t, i, f, level, q);
    } else {
      var e := Entry(m, x, j);
      assert Entry(m', x, j) == e;
      if level > 1 && Present(e) && !Large(e) {
        assert ChildOk(m, nodes, x, j);
        PrefixStep(q, level);
        LinkMissing(m, m', root, nodes, FrameOf(e), level - 1, q, t, i, f);
        ComesLower(m, x, level, q, t, i, nodes[t].level);
      }
    }
  }

  lemma ComesLower(m: Ram, x: nat, level: nat, q: nat, t: nat, i: nat, k: nat)
    requires 2 <= level <= 4 && 1 <= k <= 4 && (x != t || Index(q, level) != i)
    requires Present(Entry(m, x, Index(q, level))) && !Large(Entry(m, x, Index(q, level)))
    ensures ComesTo(m, x, level, q, t, i, k) <==> ComesTo(m, FrameOf(Entry(m, x, Index(q, level))), level - 1, q, t, i, k)
  {
  }

  lemma LinkedHere(m: Ram, m': Ram, t: nat, i: nat, f: nat, k: nat, q: nat)
    requires Linked(m, m', t, i, f) && 2 <= k <= 4 && Index(q, k) == i && !Present(Entry(m, t, i))
    ensures Missing(m, t, k, q) == k - 1 && Missing(m', t, k, q) == k - 2
  {
    TableFields(f);
    if k > 2 {
      assert Entry(m', f, Index(q, k - 1)) == 0;
    }
  }

  /** After the missing table of level k - 1 on the path of page p is linked, exactly the pages that
      share it no longer lack it, and nothing else has changed in what is missing. */
  lemma LinkSupplies(m: Ram, m': Ram, root: nat, nodes: Nodes, p: nat, k: nat, t: nat, f: nat, q: nat, j: nat)
    requires Tree(m, root, nodes) && f !in nodes && 0 < f && 2 <= k <= 4 && p < PAGES && q < PAGES
    requires Linked(m, m', t, Index(p, k), f) && !Present(Entry(m, t, Index(p, k)))
    requires t in nodes && nodes[t].level == k && TableAt(m, root, 4, p, k) == t
    ensures Lacks(m', root, q, j) <==> Lacks(m, root, q, j) && !(j == k - 1 && Prefix(q, j) == Prefix(p, j))
  {
    LinkMissing(m, m', root, nodes, root, 4, q, t, Index(p, k), f);
    PathInTree(m, root, nodes, root, 4, p, k);
    PathInTree(m, root, nodes, root, 4, q, k);
    PrefixStep(p, k);
    PrefixStep(q, k);
    if Prefix(q, k - 1) == Prefix(p, k - 1) {
      PrefixUp(p, q, k - 1, k);
      SharedPath(m, root, 4, p, q, k);
    }
  }

  lemma {:induction false} LeafWalk(m: Ram, m': Ram, root: nat, nodes: Nodes, t: nat, level: nat, p: nat, pt: nat, e: Word)
    requires Tree(m, root, nodes) && Stored(m, m', pt, Index(p, 1), e) && 1 <= level <= 4
    requires t in nodes && nodes[t] == Node(level, Prefix(p, level)) && pt in nodes && nodes[pt].level == 1
    requires TableAt(m, t, level, p, 1) == pt
    ensures PathRights(m', t, level, p) == PathRights(m, t, level, p)
    ensures Missing(m', t, level, p) == Missing(m, t, level, p)
    ensures Walk(m', t, level, p) ==
      if Present(e) then Page(FrameOf(e), Writable(e) && PathRights(m, t, level, p).write, UserOk(e) && PathRights(m, t, level, p).user)
      else Unmapped
    decreases level
  {
    if level == 1 {
    } else {
      var i := Index(p, level);
      var x := Entry(m, t, i);
      assert ChildOk(m, nodes, t, i);
      assert Entry(m', t, i) == x;
      PrefixStep(p, level);
      LeafWalk(m, m', root, nodes, FrameOf(x), level - 1, p, pt, e);
    }
  }

  /** A leaf store changes the translation of the one page it serves. */
  lemma LeafChangesOne(m: Ram, m': Ram, root: nat, nodes: Nodes, p: nat, pt: nat, e: Word)
    requires Tree(m, root, nodes) && Stored(m, m', pt, Index(p, 1), e) && p < PAGES
    requires pt in nodes && nodes[pt] == Node(1, Prefix(p, 1)) && TableAt(m, root, 4, p, 1) == pt
    ensures Tree(m', root, nodes)
    ensures forall q: nat | q < PAGES :: RightsOf(m', root, q) == RightsOf(m, root, q)
    ensures SameMissing(m, m', root)
    ensures forall q: nat | q < PAGES && q != p :: Translate(m', root, q) == Translate(m, root, q)
    ensures Translate(m', root, p) ==
      if Present(e) then Page(FrameOf(e), Writable(e) && RightsOf(m, root, p).write, UserOk(e) && RightsOf(m, root, p).user)
      else Unmapped
  {
    LeafKeepsTree(m, m', root, nodes, p, pt, e);
    LeafWalk(m, m', root, nodes, root, 4, p, pt, e);
    forall q: nat | q < PAGES && q != p
      ensures Translate(m', root, q) == Translate(m, root, q) && RightsOf(m', root, q) == RightsOf(m, root, q)
      ensures Missing(m', root, 4, q) == Missing(m, root, 4, q)
    {
      LeafElsewhere(m, m', root, nodes, p, pt, e, q);
      WalkAgrees(m, m', root, nodes, root, 4, q);
    }
  }

  lemma LeafKeepsTree(m: Ram, m': Ram, root: nat, nodes: Nodes, p: nat, pt: nat, e: Word)
    requires Tree(m, root, nodes) && Stored(m, m', pt, Index(p, 1), e)
    requires pt in nodes && nodes[pt].level == 1
    ensures Tree(m', root, nodes)
  {
    forall t, i: nat | t in nodes && nodes[t].level > 1 && i < 512
      ensures ChildOk(m', nodes, t, i)
    {
      assert ChildOk(m, nodes, t, i);
      assert Entry(m', t, i) == Entry(m, t, i);
    }
  }

  lemma LeafElsewhere(m: Ram, m': Ram, root: nat, nodes: Nodes, p: nat, pt: nat, e: Word, q: nat)
    requires Tree(m, root, nodes) && Stored(m, m', pt, Index(p, 1), e) && q != p
    requires pt in nodes && nodes[pt] == Node(1, Prefix(p, 1))
    ensures AgreeFor(m, m', nodes, q)
  {
    PrefixStep(p, 1);
    PrefixStep(q, 1);
  }

  /** A store into a frame that is no table changes no translation. */
  lemma DataKeepsView(m: Ram, m': Ram, root: nat, nodes: Nodes, f: nat, i: nat, w: Word)
    requires Tree(m, root, nodes) && Stored(m, m', f, i, w) && f !in nodes
    ensures Tree(m', root, nodes) && SameView(m, m', root) && SameMissing(m, m', root)
  {
    forall t, j: nat | t in nodes && nodes[t].level > 1 && j < 512
      ensures ChildOk(m', nodes, t, j)
    {
      assert ChildOk(m, nodes, t, j);
    }
    forall p: nat | p < PAGES
      ensures Translate(m', root, p) == Translate(m, root, p) && RightsOf(m', root, p) == RightsOf(m, root, p)
      ensures Missing(m', root, 4, p) == Missing(m, root, 4, p)
    {
      WalkAgrees(m, m', root, nodes, root, 4, p);
    }
  }
}
