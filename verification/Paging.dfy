/** Mapping and unmapping pages in the active address space (arch/x86_64/mm/paging.c): walks that
    read and write the tables in RAM, with new tables taken from the frame allocator. */
module Paging {
  import opened Options
  import opened Words
  import opened FrameAllocator
  import opened PageTable

  /** The page that an address lies in; bits 48 to 63 take no part in the walk. */
  function PageOf(va: Word): (p: nat)
    ensures p < PAGES
  {
    va / 4096 % PAGES
  }

  /** The index fields of an address are the indices of its page. */
  lemma IndicesOfAddress(va: Word)
    ensures va / 0x80_0000_0000 % 512 == Index(PageOf(va), 4)
    ensures va / 0x4000_0000 % 512 == Index(PageOf(va), 3)
    ensures va / 0x20_0000 % 512 == Index(PageOf(va), 2)
    ensures va / 0x1000 % 512 == Index(PageOf(va), 1)
  {
    var x := va / 4096;
    var p, q := x % PAGES, x / PAGES;
    assert x == q * PAGES + p;
    FieldsOfPage(x, p, q);
    assert va / 0x80_0000_0000 == x / 0x800_0000;
    assert va / 0x4000_0000 == x / 0x4_0000;
    assert va / 0x20_0000 == x / 0x200;
  }

  lemma Divided(x: nat, s: nat)
    requires 0 < s
    ensures x == s * (x / s) + x % s && 0 <= x % s < s
  {
  }

  lemma Distribute(s: nat, a: nat, b: nat)
    ensures s * (a + b) == a * s + s * b
  {
  }

  lemma DropMultiple(s: nat, b: nat, y: nat, x: nat)
    requires 0 < s && x == b * s + y
    ensures x / s == b + y / s
  {
    Divided(x, s);
    Divided(y, s);
    Distribute(s, b, y / s);
    QuotientUnique(s, x / s, b + y / s, x % s, y % s);
  }

  /** Adding whole address spaces to a page number changes none of its digits. */
  lemma FieldsOfPage(x: nat, p: nat, q: nat)
    requires x == q * PAGES + p
    ensures x / 0x800_0000 % 512 == p / 0x800_0000 % 512
    ensures x / 0x4_0000 % 512 == p / 0x4_0000 % 512
    ensures x / 0x200 % 512 == p / 0x200 % 512
    ensures x % 512 == p % 512
  {
    DropMultiple(0x800_0000, q * 512, p, x);
    SameDigit(q, p / 0x800_0000);
    DropMultiple(0x4_0000, q * 0x4_0000, p, x);
    SameDigit(q * 0x200, p / 0x4_0000);
    DropMultiple(0x200, q * 0x800_0000, p, x);
    SameDigit(q * 0x4_0000, p / 0x200);
    SameDigit(q * 0x800_0000, p);
  }

  lemma SameDigit(a: nat, d: nat)
    ensures (a * 512 + d) % 512 == d % 512
  {
  }

  class Mmu {
    /** All of RAM, as words. */
    const ram: array<Word>
    /** The frame that cr3 names. */
    const root: nat
    const pmm: Pmm
    /** The place of every frame that is a page table. */
    ghost var nodes: Nodes

    /** The tables form a tree, apart from the free frames. The kernel reaches them at the addresses
        of their frames, so they lie in the first GiB, which is identity mapped. */
    ghost predicate Valid()
      reads this, ram, pmm, pmm.bitmap
    {
      && pmm.Valid()
      && pmm.total <= 0x100_0000_0000 && ram.Length == 512 * pmm.total
      && Tree(ram[..], root, nodes)
      && nodes.Keys !! pmm.free
      && 0 !in pmm.free
      && (forall t | t in nodes :: t < LOW)
      && IdentityMapped(ram[..], root)
    }

    /** The state that start-up code leaves (arch/x86_64/boot/loader.S): a root, one level-3 table
        and one level-2 table of 512 large pages, all in zeroed kernel memory. */
    constructor Boot(ram: array<Word>, pmm: Pmm, pml4: nat, pdpt: nat, pd: nat)
      requires pmm.Valid() && pmm.total <= 0x100_0000_0000 && ram.Length == 512 * pmm.total
      requires 0 < pml4 < pmm.total && 0 < pdpt < pmm.total && 0 < pd < pmm.total
      requires pml4 < LOW && pdpt < LOW && pd < LOW
      requires pml4 != pdpt && pml4 != pd && pdpt != pd
      requires pmm.free !! {0, pml4, pdpt, pd}
      requires ZeroTable(ram[..], pml4) && ZeroTable(ram[..], pdpt)
      modifies ram
      ensures Valid() && this.ram == ram && this.pmm == pmm && root == pml4
      ensures nodes.Keys == {pml4, pdpt, pd}
      ensures forall p: nat | p < PAGES :: Translate(ram[..], root, p) == BootMapping(p)
      ensures forall p: nat | p < PAGES :: RightsOf(ram[..], root, p) == BootRights(p)
      ensures forall p: nat | p < PAGES :: Missing(ram[..], root, 4, p) == BootMissing(p)
    {
      this.ram := ram;
      this.pmm := pmm;
      root := pml4;
      nodes := map[pml4 := Node(4, 0), pdpt := Node(3, 0), pd := Node(2, 0)];
      new;
      BuildTables(ram, pml4, pdpt, pd);
      BootTree(ram[..], pml4, pdpt, pd);
    }

    ghost function Snap(): Snapshot
      reads this, ram, pmm`free, pmm`allocHint
    {
      Snapshot(ram[..], nodes, pmm.free, pmm.allocHint)
    }

    method SetEntry(t: nat, i: nat, e: Word)
      requires i < 512 && 512 * t + i < ram.Length
      modifies ram
      ensures ram[..] == old(ram[..])[512 * t + i := e] && Stored(old(ram[..]), ram[..], t, i, e)
    {
      StoreEntry(ram[..], t, i, e);
      ram[512 * t + i] := e;
    }

    /** A store through phys_ptr(t), the address of frame t taken as a pointer. It goes where the
        tables send that address, which must be frame t itself. */
    method PhysStore(t: nat, i: nat, e: Word)
      requires i < 512 && 512 * t + i < ram.Length && Reached(ram[..], root, t) == Some(t)
      modifies ram
      ensures ram[..] == old(ram[..])[512 * t + i := e] && Stored(old(ram[..]), ram[..], t, i, e)
    {
      SetEntry(t, i, e);
    }

    /** The child table that entry i of table t links, created if it is absent and `create` is
        set; 0 if there is none. Page p is the one whose path the walk is following. */
    method NextTable(t: nat, i: nat, create: bool, ghost level: nat, ghost p: nat) returns (child: nat, stray: bool)
      requires Valid() && 2 <= level <= 4 && p < PAGES && i == Index(p, level)
      requires t != 0 && TableAt(ram[..], root, 4, p, level) == t
      modifies this`nodes, ram, pmm, pmm.bitmap
      ensures Valid() && Stepped(old(Snap()), Snap(), root, p, level - 1, child, stray)
      ensures !create ==> !stray && Snap() == old(Snap()) && (child == 0 ==> !Translate(ram[..], root, p).Page?)
      ensures create && child == 0 && !stray ==> Blocked(Snap(), root, p)
    {
      PathInTree(ram[..], root, nodes, root, 4, p, level);
      PathRest(ram[..], root, 4, p, level);
      assert ChildOk(ram[..], nodes, t, i);
      assert Entry(ram[..], t, i) == ram[512 * t + i];
      stray := false;
      if !Present(ram[512 * t + i]) {
        if !create {
          ExtendsSame(Snap(), root, p);
          return 0, false;
        }
        child, stray := CreateTable(t, i, level, p);
      } else if Large(ram[512 * t + i]) {
        ExtendsSame(Snap(), root, p);
        return 0, false;
      } else {
        ExtendsSame(Snap(), root, p);
        return FrameOf(ram[512 * t + i]), false;
      }
    }

    /** Takes a free frame, zeroes it and links it at the absent entry i of table t. The frame is
        zeroed through its own address. If it lies above the identity map, the store goes astray,
        to whatever frame that address has been mapped to, or it faults: the model ends there. */
    method CreateTable(t: nat, i: nat, ghost level: nat, ghost p: nat) returns (child: nat, stray: bool)
      requires Valid() && 2 <= level <= 4 && p < PAGES && i == Index(p, level)
      requires TableAt(ram[..], root, 4, p, level) == t
      requires t in nodes && nodes[t].level == level && !Present(Entry(ram[..], t, i))
      modifies this`nodes, ram, pmm, pmm.bitmap
      ensures Valid() && Stepped(old(Snap()), Snap(), root, p, level - 1, child, stray)
      ensures child == 0 && !stray ==> Snap() == old(Snap()) && pmm.free == {}
    {
      ghost var s := Snap();
      var addr := pmm.AllocFrame();
      if addr == 0 {
        ExtendsSame(s, root, p);
        return 0, false;
      }
      child := addr / 4096;
      if child >= LOW {
        StrayStep(s, Snap(), root, p, level, child);
        return 0, true;
      }
      LinkNew(t, i, child, s, level, p);
      stray := false;
    }

    /** Zeroes the frame just taken and links it; s is the state before it was taken. */
    method LinkNew(t: nat, i: nat, f: nat, ghost s: Snapshot, ghost level: nat, ghost p: nat)
      requires pmm.Valid() && pmm.total <= 0x100_0000_0000 && ram.Length == 512 * pmm.total
      requires s.m == ram[..] && s.nodes == nodes && HandsOut(PoolOf(s), f, pmm.Now()) && 0 !in s.free
      requires Tree(s.m, root, nodes) && nodes.Keys !! s.free && IdentityMapped(s.m, root)
      requires (forall x | x in nodes :: x < LOW) && f < LOW
      requires 2 <= level <= 4 && p < PAGES && i == Index(p, level) && TableAt(s.m, root, 4, p, level) == t
      requires t in nodes && nodes[t].level == level && !Present(Entry(s.m, t, i))
      modifies this`nodes, ram
      ensures Valid() && Extends(s, Snap(), root, p) && TableAt(ram[..], root, 4, p, level - 1) == f
    {
      LinkZeroed(t, i, f, s);
      LinkStep(s, ram[..], root, t, i, f, level, p);
      nodes := AfterLink(s, ram[..], t, i, f, level).nodes;
    }

    /** The stores of next_table: the new table is zeroed, then linked. */
    method LinkZeroed(t: nat, i: nat, f: nat, ghost s: Snapshot)
      requires s.m == ram[..] && Tree(s.m, root, nodes) && IdentityMapped(s.m, root)
      requires 512 * f + 512 <= ram.Length && f < LOW && f !in nodes && t in nodes && i < 512
      requires forall x | x in nodes :: x < LOW
      modifies ram
      ensures Linked(s.m, ram[..], t, i, f)
    {
      ZeroFrame(f);
      IdentityReaches(ram[..], root, t);
      PhysStore(t, i, TableEntry(f));
    }

    /** The zeroing loop of next_table, through the frame's own address. */
    method ZeroFrame(f: nat)
      requires 512 * f + 512 <= ram.Length && f < LOW && IdentityMapped(ram[..], root)
      requires Tree(ram[..], root, nodes) && f !in nodes && forall t | t in nodes :: t < LOW
      modifies ram
      ensures forall g: nat, j: nat | j < 512 :: Entry(ram[..], g, j) == if g == f then 0 else Entry(old(ram[..]), g, j)
      ensures IdentityMapped(ram[..], root)
    {
      var i := 0;
      while i < 512
        invariant 0 <= i <= 512 && Tree(ram[..], root, nodes) && IdentityMapped(ram[..], root)
        invariant forall g: nat, j: nat | j < 512 ::
          Entry(ram[..], g, j) == if g == f && j < i then 0 else Entry(old(ram[..]), g, j)
      {
        ghost var m := ram[..];
        IdentityReaches(m, root, f);
        PhysStore(f, i, 0);
        DataKeepsView(m, ram[..], root, nodes, f, i, 0);
        i := i + 1;
      }
    }

    /** Maps the page of `va` to the frame of `pa`. It succeeds unless a large page lies on the
        path, there are fewer free frames than missing tables, or a frame taken for a table lies
        above the first GiB. Otherwise it changes no translation, though the tables it has created
        stay. STRAY stands for a call that does not get past a store through such a frame. */
    method VmmMap(va: Word, pa: Word, flags: Word) returns (r: int)
      requires Valid()
      modifies this`nodes, ram, pmm, pmm.bitmap
      ensures Valid() && Grown(old(Snap()), Snap())
      ensures r == 0 || r == -1 || r == STRAY
      ensures r == 0 <==> Mappable(old(Snap()), root, PageOf(va))
      ensures r == STRAY <==> Strays(old(Snap()), root, PageOf(va))
      ensures r == 0 ==> Mapped(old(Snap()), Snap(), root, PageOf(va), pa, flags)
      ensures r == -1 ==> Unchanged(old(Snap()), Snap(), root, PageOf(va))
      ensures r == STRAY ==> Lost(old(Snap()), Snap(), root, PageOf(va))
    {
      ghost var p := PageOf(va);
      ghost var s := Snap();
      var pt, stray := Descend(va, true);
      ghost var s' := Snap();
      if stray {
        return STRAY;
      }
      if pt == 0 {
        Stuck(s, s', root, p);
        return -1;
      }
      IndicesOfAddress(va);
      PathInTree(ram[..], root, nodes, root, 4, p, 1);
      IdentityReaches(ram[..], root, pt);
      PhysStore(pt, va / 0x1000 % 512, LeafEntry(pa, flags));
      LeafMapped(s, s', ram[..], root, p, pt, pa, flags);
      return 0;
    }

    /** The three table steps that map and unmap share: the level-1 table for `va`, or 0. */
    method Descend(va: Word, create: bool) returns (pt: nat, stray: bool)
      requires Valid()
      modifies this`nodes, ram, pmm, pmm.bitmap
      ensures Valid() && Stepped(old(Snap()), Snap(), root, PageOf(va), 1, pt, stray)
      ensures create && pt == 0 && !stray ==> Blocked(Snap(), root, PageOf(va))
      ensures !create ==> !stray && Snap() == old(Snap()) && (pt == 0 ==> !Translate(ram[..], root, PageOf(va)).Page?)
    {
      IndicesOfAddress(va);
      ghost var p := PageOf(va);
      ghost var s0 := Snap();
      var pdpt, pd;
      pdpt, stray := NextTable(root, va / 0x80_0000_0000 % 512, create, 4, p);
      if pdpt == 0 {
        return 0, stray;
      }
      ghost var s1 := Snap();
      pd, stray := NextTable(pdpt, va / 0x4000_0000 % 512, create, 3, p);
      SteppedTrans(s0, s1, Snap(), root, p, 2, pd, stray);
      if pd == 0 {
        return 0, stray;
      }
      ghost var s2 := Snap();
      pt, stray := NextTable(pd, va / 0x20_0000 % 512, create, 2, p);
      SteppedTrans(s0, s2, Snap(), root, p, 1, pt, stray);
    }

    /** Unmaps the page of `va` if it is mapped by a level-1 entry; otherwise changes nothing. */
    method VmmUnmap(va: Word)
      requires Valid()
      modifies this`nodes, ram, pmm, pmm.bitmap
      ensures Valid() && nodes == old(nodes) && pmm.free == old(pmm.free)
      ensures Unmapped1(old(Snap()), Snap(), root, PageOf(va))
    {
      ghost var p := PageOf(va);
      ghost var s := Snap();
      var pt, _ := Descend(va, false);
      if pt == 0 {
        return;
      }
      IndicesOfAddress(va);
      PathInTree(ram[..], root, nodes, root, 4, p, 1);
      IdentityReaches(ram[..], root, pt);
      PhysStore(pt, va / 0x1000 % 512, 0);
      LeafChangesOne(s.m, ram[..], root, nodes, p, pt, 0);
      PathRest(s.m, root, 4, p, 1);
    }
  }

  /** What stands for a call of vmm_map that stores through the address of a frame above the first
      GiB. */
  const STRAY: int := -2

  // ---- the identity map ----

  /** The first GiB is mapped at its own addresses, as start-up code left it. */
  ghost predicate IdentityMapped(m: Ram, root: nat) {
    forall p: nat | p < LOW :: Translate(m, root, p) == BootMapping(p)
  }

  /** The frame that a store to the address of frame f goes to; none if it faults. */
  function Reached(m: Ram, root: nat, f: nat): Option<nat> {
    match Translate(m, root, f)
    case Unmapped => None
    case Page(g, _, _) => Some(g)
    case LargePage(level, e) => if level == 2 then Some(FrameOf(e) / 512 * 512 + f % 512) else Some(FrameOf(e) / LOW * LOW + f % LOW)
  }

  lemma IdentityReaches(m: Ram, root: nat, f: nat)
    requires IdentityMapped(m, root) && f < LOW
    ensures Reached(m, root, f) == Some(f)
  {
    var i := f / 512;
    assert BootEntry(i) == i * 512 * 4096 + 0x83;
    assert BootEntry(i) / 4096 == i * 512;
    assert FrameOf(BootEntry(i)) == i * 512;
  }

  /** s' maps no 4 KiB page at p and is otherwise like s. */
  ghost predicate Unmapped1(s: Snapshot, s': Snapshot, root: nat, p: nat) {
    && Translate(s'.m, root, p) == (if Translate(s.m, root, p).Page? then Unmapped else Translate(s.m, root, p))
    && (forall q: nat | q < PAGES && q != p :: Translate(s'.m, root, q) == Translate(s.m, root, q))
    && (forall q: nat | q < PAGES :: RightsOf(s'.m, root, q) == RightsOf(s.m, root, q))
    && forall g: nat, j: nat | j < 512 && g !in s.nodes :: Entry(s'.m, g, j) == Entry(s.m, g, j)
  }

  /** The tables, their places in the tree, and the state of the allocator. */
  datatype Snapshot = Snapshot(m: Ram, nodes: Nodes, free: set<nat>, hint: nat)

  function PoolOf(s: Snapshot): Pool {
    Pool(s.free, s.hint, |s.m| / 512)
  }

  /** From s to s', tables were made of free frames, and no other frame changed but tables. */
  ghost predicate Grown(s: Snapshot, s': Snapshot) {
    && |s'.m| == |s.m| && s'.free <= s.free
    && s.nodes.Keys <= s'.nodes.Keys <= s.nodes.Keys + (s.free - s'.free)
    && forall g: nat, j: nat | j < 512 && g !in s'.nodes :: Entry(s'.m, g, j) == Entry(s.m, g, j)
  }

  /** From m to m', exactly the tables on the path of page p that it no longer lacks were supplied,
      to all pages that share them. */
  ghost predicate Supplied(m: Ram, m': Ram, root: nat, p: nat) {
    forall q: nat, j: nat | q < PAGES && 1 <= j <= 3 ::
      Lacks(m', root, q, j) <==>
      Lacks(m, root, q, j) && !(Prefix(q, j) == Prefix(p, j) && Lacks(m, root, p, j) && !Lacks(m', root, p, j))
  }

  /** No page lacks more tables than before. */
  ghost predicate FewerMissing(m: Ram, m': Ram, root: nat) {
    forall q: nat | q < PAGES :: Missing(m', root, 4, q) <= Missing(m, root, 4, q)
  }

  lemma SuppliedFewer(m: Ram, m': Ram, root: nat, p: nat)
    requires Supplied(m, m', root, p)
    ensures FewerMissing(m, m', root)
  {
    forall q: nat | q < PAGES
      ensures Missing(m', root, 4, q) <= Missing(m, root, 4, q)
    {
      MissingAtMost(m', root, 4, q);
      var n := Missing(m', root, 4, q);
      assert n > 0 ==> Lacks(m', root, q, n);
    }
  }

  /** From s to s' only tables on the path of page p were created, of frames of the first GiB. */
  ghost predicate Extends(s: Snapshot, s': Snapshot, root: nat, p: nat) {
    && Grown(s, s') && SameView(s.m, s'.m, root) && Supplied(s.m, s'.m, root, p)
    && Missing(s'.m, root, 4, p) <= Missing(s.m, root, 4, p)
    && LowTaken(PoolOf(s), Missing(s.m, root, 4, p) - Missing(s'.m, root, 4, p), PoolOf(s'))
  }

  /** From s to s' tables may have been created, and then a frame was taken that lies above the
      first GiB. */
  ghost predicate Lost(s: Snapshot, s': Snapshot, root: nat, p: nat) {
    && Grown(s, s') && SameView(s.m, s'.m, root) && FewerMissing(s.m, s'.m, root)
    && exists f: nat | f in s.free :: f >= LOW && f !in s'.free && f !in s'.nodes && s'.hint == f + 1
  }

  /** A call for page p goes astray: it has tables to create, and a frame that it would take for one
      lies above the first GiB. */
  ghost predicate Strays(s: Snapshot, root: nat, p: nat) {
    !Translate(s.m, root, p).LargePage? && !LowFor(PoolOf(s), Missing(s.m, root, 4, p))
  }

  /** What steps along the path of page p come to: they reach the table of level k or not, or go
      astray. */
  ghost predicate Stepped(s: Snapshot, s': Snapshot, root: nat, p: nat, k: nat, child: nat, stray: bool)
    requires 1 <= k <= 4
  {
    && (stray ==> child == 0 && Strays(s, root, p) && Lost(s, s', root, p))
    && (!stray ==> Extends(s, s', root, p))
    && (child != 0 ==> TableAt(s'.m, root, 4, p, k) == child)
  }

  lemma ExtendsSame(s: Snapshot, root: nat, p: nat)
    ensures Extends(s, s, root, p)
  {
  }

  lemma ExtendsTrans(s0: Snapshot, s1: Snapshot, s2: Snapshot, root: nat, p: nat)
    requires Extends(s0, s1, root, p) && Extends(s1, s2, root, p) && p < PAGES
    ensures Extends(s0, s2, root, p)
  {
    var j := Missing(s0.m, root, 4, p) - Missing(s1.m, root, 4, p);
    var k := Missing(s1.m, root, 4, p) - Missing(s2.m, root, 4, p);
    LowTakenMore(PoolOf(s0), j, PoolOf(s1), k, PoolOf(s2));
    SuppliedTrans(s0.m, s1.m, s2.m, root, p);
  }

  lemma SuppliedTrans(m0: Ram, m1: Ram, m2: Ram, root: nat, p: nat)
    requires Supplied(m0, m1, root, p) && Supplied(m1, m2, root, p) && p < PAGES
    ensures Supplied(m0, m2, root, p)
  {
  }

  lemma SteppedTrans(s0: Snapshot, s1: Snapshot, s2: Snapshot, root: nat, p: nat, k: nat, child: nat, stray: bool)
    requires 1 <= k <= 4 && p < PAGES && Extends(s0, s1, root, p) && Stepped(s1, s2, root, p, k, child, stray)
    ensures Stepped(s0, s2, root, p, k, child, stray)
  {
    if stray {
      var k := Missing(s0.m, root, 4, p) - Missing(s1.m, root, 4, p);
      LowTakenRest(PoolOf(s0), k, PoolOf(s1), Missing(s1.m, root, 4, p));
      SuppliedFewer(s0.m, s1.m, root, p);
      var f: nat :| f in s1.free && f >= LOW && f !in s2.free && f !in s2.nodes && s2.hint == f + 1;
      assert f in s0.free;
    } else {
      ExtendsTrans(s0, s1, s2, root, p);
    }
  }

  /** A frame above the first GiB is taken for the missing table of level k - 1 of page p. */
  lemma StrayStep(s: Snapshot, s': Snapshot, root: nat, p: nat, k: nat, f: nat)
    requires 2 <= k <= 4 && p < PAGES && Missing(s.m, root, 4, p) > 0 && s.nodes.Keys !! s.free
    requires s'.m == s.m && s'.nodes == s.nodes && f >= LOW && HandsOut(PoolOf(s), f, PoolOf(s'))
    ensures Stepped(s, s', root, p, k - 1, 0, true)
  {
    MissingUnmapped(s.m, root, 4, p);
    LowOne(PoolOf(s), f, PoolOf(s'), Missing(s.m, root, 4, p) - 1);
    assert f in s.free;
  }

  /** A map of page p can succeed: no large page is in the way, there are frames enough, and those
      that become tables lie in the first GiB. */
  ghost predicate Mappable(s: Snapshot, root: nat, p: nat) {
    && !Translate(s.m, root, p).LargePage? && Missing(s.m, root, 4, p) <= |s.free|
    && LowFor(PoolOf(s), Missing(s.m, root, 4, p))
  }

  /** s' translates page p as a map with these arguments asks, and every other page as s does. */
  ghost predicate Mapped(s: Snapshot, s': Snapshot, root: nat, p: nat, pa: Word, flags: Word) {
    && Translate(s'.m, root, p) == Granted(pa, flags, RightsOf(s.m, root, p))
    && (forall q: nat | q < PAGES && q != p :: Translate(s'.m, root, q) == Translate(s.m, root, q))
    && (forall q: nat | q < PAGES :: RightsOf(s'.m, root, q) == RightsOf(s.m, root, q))
    && Missing(s'.m, root, 4, p) == 0 && Supplied(s.m, s'.m, root, p)
    && LowTaken(PoolOf(s), Missing(s.m, root, 4, p), PoolOf(s'))
  }

  /** A failed map of page p: no translation has changed, and either a large page is in the way, and
      then no frame was taken, or no free frame is left. */
  ghost predicate Unchanged(s: Snapshot, s': Snapshot, root: nat, p: nat) {
    && SameView(s.m, s'.m, root) && FewerMissing(s.m, s'.m, root)
    && if Translate(s.m, root, p).LargePage? then PoolOf(s') == PoolOf(s) else s'.free == {}
  }

  /** No table can be created for page p: a large page is in the way, or there is no frame. */
  ghost predicate Blocked(s: Snapshot, root: nat, p: nat) {
    Translate(s.m, root, p).LargePage? || (s.free == {} && Missing(s.m, root, 4, p) > 0)
  }

  lemma Stuck(s: Snapshot, s': Snapshot, root: nat, p: nat)
    requires Extends(s, s', root, p) && p < PAGES
    requires Blocked(s', root, p)
    ensures !Mappable(s, root, p) && !Strays(s, root, p) && Unchanged(s, s', root, p)
  {
    var n, n' := Missing(s.m, root, 4, p), Missing(s'.m, root, 4, p);
    LowTakenRest(PoolOf(s), n - n', PoolOf(s'), n');
    SuppliedFewer(s.m, s'.m, root, p);
    if Translate(s.m, root, p).LargePage? {
      LargeMissesNone(s.m, root, 4, p);
    } else {
      AllLow(PoolOf(s'), n');
    }
  }

  // ---- memory above the first GiB ----

  /** On a machine whose free frames all lie in the first GiB no call goes astray. */
  lemma LowMachine(s: Snapshot, root: nat, p: nat)
    requires forall f: nat | f in s.free :: f < LOW
    ensures !Strays(s, root, p)
  {
    AllLow(PoolOf(s), Missing(s.m, root, 4, p));
  }

  /** If the next frame lies above the first GiB, every call that has a table to create does. */
  lemma NextFrameHigh(s: Snapshot, root: nat, p: nat, f: nat, after: Pool)
    requires HandsOut(PoolOf(s), f, after) && f >= LOW && Missing(s.m, root, 4, p) > 0
    ensures Strays(s, root, p)
  {
    MissingUnmapped(s.m, root, 4, p);
    LowOne(PoolOf(s), f, after, Missing(s.m, root, 4, p) - 1);
  }

  /** Such a machine: one frame more than the first GiB, and only that one is free. After boot no
      page above 512 GiB can be mapped, and the store that zeroes the new table faults. */
  lemma HighFrameFaults(s: Snapshot, root: nat, p: nat)
    requires |s.m| == 512 * (LOW + 1) && s.free == {LOW} && 0x800_0000 <= p < PAGES
    requires Translate(s.m, root, LOW) == BootMapping(LOW) && Missing(s.m, root, 4, p) == BootMissing(p)
    ensures Strays(s, root, p) && !Mappable(s, root, p) && Reached(s.m, root, LOW) == None
  {
    NextFrameHigh(s, root, p, LOW, Pool({}, LOW + 1, LOW + 1));
  }

  lemma SuppliedSame(m: Ram, m1: Ram, m2: Ram, root: nat, p: nat)
    requires Supplied(m, m1, root, p) && SameMissing(m1, m2, root) && p < PAGES
    ensures Supplied(m, m2, root, p)
  {
    forall q: nat, j: nat | q < PAGES
      ensures Lacks(m2, root, q, j) <==> Lacks(m1, root, q, j)
    {
    }
  }

  /** The walk has reached the level-1 table: the condition for success held. */
  lemma ReachedMappable(s: Snapshot, s': Snapshot, root: nat, p: nat)
    requires Extends(s, s', root, p) && p < PAGES && TableAt(s'.m, root, 4, p, 1) != 0
    ensures Missing(s'.m, root, 4, p) == 0 && LowTaken(PoolOf(s), Missing(s.m, root, 4, p), PoolOf(s'))
    ensures Mappable(s, root, p) && !Strays(s, root, p)
  {
    PathRest(s'.m, root, 4, p, 1);
    LowTakenRest(PoolOf(s), Missing(s.m, root, 4, p), PoolOf(s'), 0);
  }

  lemma LeafMapped(s: Snapshot, s': Snapshot, m: Ram, root: nat, p: nat, pt: nat, pa: Word, flags: Word)
    requires Extends(s, s', root, p) && Tree(s'.m, root, s'.nodes) && p < PAGES
    requires pt in s'.nodes && s'.nodes[pt] == Node(1, Prefix(p, 1)) && TableAt(s'.m, root, 4, p, 1) == pt
    requires Stored(s'.m, m, pt, Index(p, 1), LeafEntry(pa, flags))
    ensures Tree(m, root, s'.nodes) && Mapped(s, s'.(m := m), root, p, pa, flags) && Grown(s, s'.(m := m))
    ensures Mappable(s, root, p) && !Strays(s, root, p)
    ensures forall q: nat | q < PAGES && q != p :: Translate(m, root, q) == Translate(s'.m, root, q)
  {
    ReachedMappable(s, s', root, p);
    LeafFields(pa, flags);
    LeafChangesOne(s'.m, m, root, s'.nodes, p, pt, LeafEntry(pa, flags));
    SuppliedSame(s.m, s'.m, m, root, p);
  }

  /** Fills in the three zeroed boot tables. */
  method BuildTables(ram: array<Word>, pml4: nat, pdpt: nat, pd: nat)
    requires 512 * pml4 + 512 <= ram.Length && 512 * pdpt + 512 <= ram.Length && 512 * pd + 512 <= ram.Length
    requires pml4 != pdpt && pml4 != pd && pdpt != pd && pdpt < 0x100_0000_0000 && pd < 0x100_0000_0000
    requires ZeroTable(ram[..], pml4) && ZeroTable(ram[..], pdpt)
    modifies ram
    ensures BootTables(ram[..], pml4, pdpt, pd)
  {
    StoreEntry(ram[..], pml4, 0, pdpt * 4096 + 3);
    ram[512 * pml4] := pdpt * 4096 + 3;
    StoreEntry(ram[..], pdpt, 0, pd * 4096 + 3);
    ram[512 * pdpt] := pd * 4096 + 3;
    ghost var m := ram[..];
    var i := 0;
    while i < 512
      invariant 0 <= i <= 512
      invariant forall g: nat, j: nat | j < 512 ::
        Entry(ram[..], g, j) == if g == pd && j < i then BootEntry(j) else Entry(m, g, j)
    {
      StoreEntry(ram[..], pd, i, BootEntry(i));
      ram[512 * pd + i] := BootEntry(i);
      i := i + 1;
    }
  }

  /** Entry i of the boot level-2 table: an identity-mapped 2 MiB page, present and writable. */
  function BootEntry(i: nat): Word
    requires i < 512
  {
    i * 0x20_0000 + 0x83
  }

  /** At boot the first GiB is identity mapped with large pages, and nothing else is mapped. */
  function BootMapping(p: nat): Mapping {
    if p < LOW then LargePage(2, BootEntry(p / 512)) else Unmapped
  }

  /** How many tables a first map of page p creates after boot. */
  function BootMissing(p: nat): nat {
    if p < LOW then 0 else if p < 0x800_0000 then 2 else 3
  }

  /** The boot tables do not let user code through, so no page below 512 GiB can be a user page. */
  function BootRights(p: nat): Rights {
    Rights(true, p >= 0x800_0000)
  }

  lemma BootEntryFields(i: nat)
    requires i < 512
    ensures Present(BootEntry(i)) && Large(BootEntry(i))
  {
    var e := BootEntry(i);
    assert e == 2 * (i * 0x10_0000 + 0x41) + 1;
    assert e / 128 == 2 * (i * 0x2000) + 1;
  }

  ghost predicate BootTables(m: Ram, pml4: nat, pdpt: nat, pd: nat) {
    && pdpt < 0x100_0000_0000 && pd < 0x100_0000_0000
    && (forall i: nat | i < 512 :: Entry(m, pml4, i) == if i == 0 then pdpt * 4096 + 3 else 0)
    && (forall i: nat | i < 512 :: Entry(m, pdpt, i) == if i == 0 then pd * 4096 + 3 else 0)
    && (forall i: nat | i < 512 :: Entry(m, pd, i) == BootEntry(i))
  }

  lemma BootTree(m: Ram, pml4: nat, pdpt: nat, pd: nat)
    requires BootTables(m, pml4, pdpt, pd)
    requires 0 < pml4 && 0 < pdpt < 0x100_0000_0000 && 0 < pd < 0x100_0000_0000 && pml4 != pdpt && pml4 != pd && pdpt != pd
    requires 512 * pml4 + 512 <= |m| && 512 * pdpt + 512 <= |m| && 512 * pd + 512 <= |m|
    ensures Tree(m, pml4, map[pml4 := Node(4, 0), pdpt := Node(3, 0), pd := Node(2, 0)])
    ensures forall p: nat | p < PAGES :: Translate(m, pml4, p) == BootMapping(p) && RightsOf(m, pml4, p) == BootRights(p)
    ensures forall p: nat | p < PAGES :: Missing(m, pml4, 4, p) == BootMissing(p)
  {
    var nodes := map[pml4 := Node(4, 0), pdpt := Node(3, 0), pd := Node(2, 0)];
    FieldsOf(pdpt, 3);
    FieldsOf(pd, 3);
    forall t, i: nat | t in nodes && nodes[t].level > 1 && i < 512
      ensures ChildOk(m, nodes, t, i)
    {
      if t == pml4 {
        assert Entry(m, t, i) == if i == 0 then pdpt * 4096 + 3 else 0;
      } else if t == pdpt {
        assert Entry(m, t, i) == if i == 0 then pd * 4096 + 3 else 0;
      } else {
        assert Entry(m, t, i) == BootEntry(i);
        BootEntryFields(i);
      }
    }
    BootWalks(m, pml4, pdpt, pd);
  }

  lemma BootWalks(m: Ram, pml4: nat, pdpt: nat, pd: nat)
    requires BootTables(m, pml4, pdpt, pd) && pdpt < 0x100_0000_0000 && pd < 0x100_0000_0000
    ensures forall p: nat | p < PAGES :: Translate(m, pml4, p) == BootMapping(p) && RightsOf(m, pml4, p) == BootRights(p)
    ensures forall p: nat | p < PAGES :: Missing(m, pml4, 4, p) == BootMissing(p)
  {
    forall p: nat | p < PAGES
      ensures Translate(m, pml4, p) == BootMapping(p) && RightsOf(m, pml4, p) == BootRights(p)
      ensures Missing(m, pml4, 4, p) == BootMissing(p)
    {
      RootWalk(m, pml4, pdpt, pd, p);
    }
  }

  lemma RootWalk(m: Ram, pml4: nat, pdpt: nat, pd: nat, p: nat)
    requires BootTables(m, pml4, pdpt, pd) && p < PAGES && pdpt < 0x100_0000_0000 && pd < 0x100_0000_0000
    ensures Translate(m, pml4, p) == BootMapping(p) && RightsOf(m, pml4, p) == BootRights(p)
    ensures Missing(m, pml4, 4, p) == BootMissing(p)
  {
    assert Index(p, 4) == p / 0x800_0000;
    if p < 0x800_0000 {
      LowerHalf(m, pml4, pdpt, pd, p);
    } else {
      assert Entry(m, pml4, Index(p, 4)) == 0;
    }
  }

  lemma LowerHalf(m: Ram, pml4: nat, pdpt: nat, pd: nat, p: nat)
    requires BootTables(m, pml4, pdpt, pd) && p < 0x800_0000 && Index(p, 4) == 0
    ensures Translate(m, pml4, p) == BootMapping(p) && RightsOf(m, pml4, p) == BootRights(p)
    ensures Missing(m, pml4, 4, p) == BootMissing(p)
  {
    FieldsOf(pdpt, 3);
    StepDown(m, pml4, 4, p, pdpt * 4096 + 3, pdpt);
    DirectoryWalk(m, pml4, pdpt, pd, p);
  }

  /** A walk through an entry that links a table for supervisor writes. */
  lemma StepDown(m: Ram, t: nat, level: nat, p: nat, e: Word, child: nat)
    requires 2 <= level <= 4 && Entry(m, t, Index(p, level)) == e && Present(e) && !Large(e) && FrameOf(e) == child
    requires Writable(e) && !UserOk(e)
    ensures Walk(m, t, level, p) == Restrict(Walk(m, child, level - 1, p), true, false)
    ensures PathRights(m, t, level, p) == Rights(PathRights(m, child, level - 1, p).write, false)
    ensures Missing(m, t, level, p) == Missing(m, child, level - 1, p)
  {
  }

  lemma DirectoryWalk(m: Ram, pml4: nat, pdpt: nat, pd: nat, p: nat)
    requires BootTables(m, pml4, pdpt, pd) && p < 0x800_0000
    ensures Walk(m, pdpt, 3, p) == BootMapping(p)
    ensures PathRights(m, pdpt, 3, p).write
    ensures Missing(m, pdpt, 3, p) == BootMissing(p)
  {
    assert Index(p, 3) == p / 0x4_0000;
    if Index(p, 3) == 0 {
      FieldsOf(pd, 3);
      StepDown(m, pdpt, 3, p, pd * 4096 + 3, pd);
      BootEntryFields(Index(p, 2));
      assert Index(p, 2) == p / 512;
      assert Walk(m, pd, 2, p) == LargePage(2, BootEntry(p / 512));
    } else {
      assert Entry(m, pdpt, Index(p, 3)) == 0;
    }
  }

  /** What a mapping made with these flags translates to, under the rights of its path. */
  function Granted(pa: Word, flags: Word, path: Rights): Mapping {
    Page(FrameOf(pa), flags / VM_WRITE % 2 == 1 && path.write, flags / VM_USER % 2 == 1 && path.user)
  }

  /** The state after frame f has become the table that entry i of t was missing. */
  function AfterLink(s: Snapshot, m': Ram, t: nat, i: nat, f: nat, level: nat): Snapshot
    requires t in s.nodes && level > 0
  {
    Snapshot(m', s.nodes[f := Node(level - 1, s.nodes[t].prefix * 512 + i)], s.free - {f}, f + 1)
  }

  lemma LinkStep(s: Snapshot, m': Ram, root: nat, t: nat, i: nat, f: nat, level: nat, p: nat)
    requires Tree(s.m, root, s.nodes) && p < PAGES && 2 <= level <= 4 && i == Index(p, level)
    requires t in s.nodes && s.nodes[t].level == level && TableAt(s.m, root, 4, p, level) == t
    requires Linked(s.m, m', t, i, f) && !Present(Entry(s.m, t, i)) && 0 < f < LOW && 512 * f + 512 <= |s.m|
    requires FirstFree(s.free, s.hint, |s.m| / 512, f) && s.nodes.Keys !! s.free
    ensures Tree(m', root, AfterLink(s, m', t, i, f, level).nodes)
    ensures Extends(s, AfterLink(s, m', t, i, f, level), root, p)
    ensures TableAt(m', root, 4, p, level - 1) == f
  {
    var s' := AfterLink(s, m', t, i, f, level);
    LinkKeepsTree(s.m, m', root, s.nodes, t, i, f);
    LinkPath(s.m, m', root, s.nodes, root, 4, p, t, level, f);
    LinkExtends(s, s', root, t, i, f, level, p);
  }

  lemma LinkExtends(s: Snapshot, s': Snapshot, root: nat, t: nat, i: nat, f: nat, level: nat, p: nat)
    requires Tree(s.m, root, s.nodes) && p < PAGES && 2 <= level <= 4 && i == Index(p, level)
    requires t in s.nodes && s.nodes[t].level == level && TableAt(s.m, root, 4, p, level) == t
    requires Linked(s.m, s'.m, t, i, f) && !Present(Entry(s.m, t, i)) && 0 < f < LOW
    requires FirstFree(s.free, s.hint, |s.m| / 512, f) && s.nodes.Keys !! s.free && s' == AfterLink(s, s'.m, t, i, f, level)
    ensures Extends(s, s', root, p)
  {
    LinkKeepsView(s.m, s'.m, root, s.nodes, t, i, f);
    LinkPath(s.m, s'.m, root, s.nodes, root, 4, p, t, level, f);
    LinkGrows(s, s'.m, t, i, f, level);
    LinkSuppliesAll(s.m, s'.m, root, s.nodes, p, level, t, f);
    ExtendsByOne(s, s', root, p, f);
  }

  lemma ExtendsByOne(s: Snapshot, s': Snapshot, root: nat, p: nat, f: nat)
    requires Grown(s, s') && SameView(s.m, s'.m, root) && Supplied(s.m, s'.m, root, p)
    requires Missing(s'.m, root, 4, p) == Missing(s.m, root, 4, p) - 1
    requires FirstFree(s.free, s.hint, |s.m| / 512, f) && f < LOW && s'.free == s.free - {f} && s'.hint == f + 1
    ensures Extends(s, s', root, p)
  {
    OneTaken(PoolOf(s), f, PoolOf(s'), Missing(s.m, root, 4, p) - Missing(s'.m, root, 4, p));
  }

  lemma OneTaken(pool: Pool, f: nat, after: Pool, n: nat)
    requires HandsOut(pool, f, after) && f < LOW && n == 1
    ensures LowTaken(pool, n, after)
  {
    assert LowTaken(after, 0, after);
  }

  lemma LinkSuppliesAll(m: Ram, m': Ram, root: nat, nodes: Nodes, p: nat, k: nat, t: nat, f: nat)
    requires Tree(m, root, nodes) && f !in nodes && 0 < f && 2 <= k <= 4 && p < PAGES
    requires Linked(m, m', t, Index(p, k), f) && !Present(Entry(m, t, Index(p, k)))
    requires t in nodes && nodes[t].level == k && TableAt(m, root, 4, p, k) == t
    requires Missing(m, root, 4, p) == k - 1
    ensures Supplied(m, m', root, p)
  {
    forall q: nat, j: nat | q < PAGES && 1 <= j <= 3
      ensures Lacks(m', root, q, j) <==>
        Lacks(m, root, q, j) && !(Prefix(q, j) == Prefix(p, j) && Lacks(m, root, p, j) && !Lacks(m', root, p, j))
    {
      LinkSupplies(m, m', root, nodes, p, k, t, f, q, j);
      LinkSupplies(m, m', root, nodes, p, k, t, f, p, j);
    }
  }

  lemma LinkGrows(s: Snapshot, m': Ram, t: nat, i: nat, f: nat, level: nat)
    requires t in s.nodes && level > 0 && f in s.free && Linked(s.m, m', t, i, f)
    ensures Grown(s, AfterLink(s, m', t, i, f, level))
  {
    assert s.free - (s.free - {f}) == {f};
  }
}
