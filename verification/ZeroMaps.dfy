/** Zeroed memory for programs (map_zeroed in kernel/proc.c): what one round and a whole region come
    to, whatever the allocator has left, and how many frames they take. */
module ZeroMaps {
  import opened Options
  import opened Words
  import opened FrameAllocator
  import opened PageTable
  import opened Paging
  import opened UserMemory

  /** Frames set apart at start-up, which no user page may show. */
  type Reserved = set<nat>

  /** How a piece of kernel code ends: it gets through; a store to an unmapped page faults, which in
      the kernel is fatal; or a map goes astray. */
  datatype Fate = Through | Faulted | Strayed

  // ---- counting frames ----

  /** The tables that maps of these pages would have to create, by level and the pages they serve. */
  ghost function Lacking(m: Ram, root: nat, pages: set<nat>): set<(nat, nat)> {
    set p: nat, k: nat | p in pages && p < PAGES && k <= 3 && Lacks(m, root, p, k) :: (k, Prefix(p, k))
  }

  /** The tables that a map of page p alone would create. */
  ghost function PathLack(m: Ram, root: nat, p: nat): set<(nat, nat)> {
    set k: nat | k <= 3 && Lacks(m, root, p, k) :: (k, Prefix(p, k))
  }

  lemma PathLackSize(m: Ram, root: nat, p: nat)
    ensures |PathLack(m, root, p)| == Missing(m, root, 4, p)
  {
    MissingAtMost(m, root, 4, p);
    var n := Missing(m, root, 4, p);
    var a, b, c := (1, Prefix(p, 1)), (2, Prefix(p, 2)), (3, Prefix(p, 3));
    assert PathLack(m, root, p) == if n == 0 then {} else if n == 1 then {a} else if n == 2 then {a, b} else {a, b, c};
  }

  lemma PathLackWithin(m: Ram, root: nat, p: nat, pages: set<nat>)
    requires p in pages && p < PAGES
    ensures PathLack(m, root, p) <= Lacking(m, root, pages)
    ensures Missing(m, root, 4, p) <= |Lacking(m, root, pages)|
  {
    PathLackSize(m, root, p);
    SubsetSize(PathLack(m, root, p), Lacking(m, root, pages));
  }

  lemma SubsetSize(a: set<(nat, nat)>, b: set<(nat, nat)>)
    requires a <= b
    ensures |b - a| == |b| - |a| && |a| <= |b|
  {
    assert b == a + (b - a);
  }

  /** Supplying the tables of page p takes just those from what the pages lack. */
  lemma LackingSupplied(m: Ram, m': Ram, root: nat, p: nat, pages: set<nat>)
    requires p in pages && p < PAGES && Supplied(m, m', root, p) && Missing(m', root, 4, p) == 0
    ensures |Lacking(m', root, pages)| == |Lacking(m, root, pages)| - Missing(m, root, 4, p)
  {
    var had, got, path := Lacking(m, root, pages), Lacking(m', root, pages), PathLack(m, root, p);
    forall x | x in got
      ensures x in had - path
    {
      var q: nat, k: nat :| q in pages && q < PAGES && k <= 3 && Lacks(m', root, q, k) && x == (k, Prefix(q, k));
      assert Lacks(m, root, q, k);
    }
    forall x | x in had - path
      ensures x in got
    {
      var q: nat, k: nat :| q in pages && q < PAGES && k <= 3 && Lacks(m, root, q, k) && x == (k, Prefix(q, k));
      assert Prefix(q, k) == Prefix(p, k) ==> !Lacks(m, root, p, k);
    }
    assert got == had - path;
    PathLackWithin(m, root, p, pages);
    PathLackSize(m, root, p);
    SubsetSize(path, had);
  }

  lemma NothingLacking(m: Ram, root: nat, pages: set<nat>)
    requires forall p: nat | p in pages && p < PAGES :: Missing(m, root, 4, p) == 0
    ensures Lacking(m, root, pages) == {}
  {
  }

  /** What maps of i pages of the area take: a frame for each, and one for each table they supply. */
  ghost predicate Spent(s: Snapshot, s': Snapshot, root: nat, area: set<nat>, i: nat) {
    |s.free| - |s'.free| == i + |Lacking(s.m, root, area)| - |Lacking(s'.m, root, area)|
  }

  /** Frames that were low stay so while the allocator moves on. */
  ghost predicate LowAfter(s: Snapshot, s': Snapshot) {
    |s'.free| <= |s.free| && forall x: nat :: LowFor(PoolOf(s), |s.free| - |s'.free| + x) ==> LowFor(PoolOf(s'), x)
  }

  /** What i rounds of the area need in all: their pages, and the tables the area lacks. */
  ghost function Need(s: Snapshot, root: nat, area: set<nat>, i: nat): nat {
    i + |Lacking(s.m, root, area)|
  }

  lemma UsedSpent(s: Snapshot, s': Snapshot, root: nat, area: set<nat>, p: nat)
    requires p in area && p < PAGES && TookFor(s, s', root, p)
    ensures Spent(s, s', root, area, 1) && LowAfter(s, s')
  {
    var f: nat :| Next(s, f) && LowTaken(PoolOf(TakeOne(s, f)), Missing(s.m, root, 4, p), PoolOf(s'));
    UsedLow(s, s', f, Missing(s.m, root, 4, p));
    LackingSupplied(s.m, s'.m, root, p, area);
  }

  lemma UsedLow(s: Snapshot, s': Snapshot, f: nat, n: nat)
    requires Next(s, f) && LowTaken(PoolOf(TakeOne(s, f)), n, PoolOf(s'))
    ensures |s'.free| == |s.free| - 1 - n && LowAfter(s, s')
  {
    var p, p1, p2 := PoolOf(s), PoolOf(TakeOne(s, f)), PoolOf(s');
    LowTakenRest(p1, n, p2, 0);
    assert HandsOut(p, f, p1);
    LowOne(p, f, p1, 0);
    forall x: nat | LowFor(p, 1 + n + x)
      ensures LowFor(p2, x)
    {
      LowOne(p, f, p1, n + x);
      LowTakenRest(p1, n, p2, x);
    }
  }

  lemma SpentMore(s: Snapshot, s1: Snapshot, s2: Snapshot, root: nat, area: set<nat>, i: nat, j: nat)
    requires Spent(s, s1, root, area, i) && LowAfter(s, s1) && Spent(s1, s2, root, area, j) && LowAfter(s1, s2)
    ensures Spent(s, s2, root, area, i + j) && LowAfter(s, s2)
  {
    var d, e := |s.free| - |s1.free|, |s1.free| - |s2.free|;
    forall x: nat | LowFor(PoolOf(s), d + e + x)
      ensures LowFor(PoolOf(s2), x)
    {
      assert LowFor(PoolOf(s), d + (e + x));
      assert LowFor(PoolOf(s1), e + x);
    }
  }

  /** With low frames for all that is still needed, the next round does not go astray. */
  lemma NotAstray(s: Snapshot, root: nat, area: set<nat>, p: nat, i: nat)
    requires p in area && p < PAGES && 0 < i && LowFor(PoolOf(s), Need(s, root, area, i))
    ensures !MapStrays(s, root, p)
  {
    var n := Missing(s.m, root, 4, p);
    PathLackWithin(s.m, root, p, area);
    LowForFewer(PoolOf(s), Need(s, root, area, i), n + 1);
    forall f: nat | Next(s, f)
      ensures !Strays(TakeOne(s, f), root, p)
    {
      LowOne(PoolOf(s), f, PoolOf(TakeOne(s, f)), n);
    }
  }

  // ---- what maps never change ----

  /** No page changes its rights or becomes or ceases to be a large page, and no table is lost and no
      frame freed. */
  ghost predicate Tame(s: Snapshot, s': Snapshot, root: nat) {
    && |s'.m| == |s.m| && s'.free <= s.free
    && forall q: nat | q < PAGES ::
         && RightsOf(s'.m, root, q) == RightsOf(s.m, root, q)
         && Translate(s'.m, root, q).LargePage? == Translate(s.m, root, q).LargePage?
         && Missing(s'.m, root, 4, q) <= Missing(s.m, root, 4, q)
  }

  lemma TameMore(s: Snapshot, s1: Snapshot, s2: Snapshot, root: nat)
    requires Tame(s, s1, root) && Tame(s1, s2, root)
    ensures Tame(s, s2, root)
  {
  }

  // ---- one page ----

  /** m' differs from m only in the first n bytes of frame f, which are zero. */
  ghost predicate Filled(m: Ram, m': Ram, f: nat, n: nat) {
    forall g: nat, j: nat | j < 4096 :: ByteOf(m', g, j) == if g == f && j < n then 0 else ByteOf(m, g, j)
  }

  lemma AddressInPage(va: Word, i: nat)
    requires va % 4096 == 0 && i < 4096 && va + i < TWO_64
    ensures PageOf(va + i) == PageOf(va) && (va + i) % 4096 == i
  {
    var q := va / 4096;
    assert va + i == q * 4096 + i;
    assert (va + i) / 4096 == q;
  }

  lemma FilledStep(m: Ram, m1: Ram, m2: Ram, f: nat, i: nat)
    requires Filled(m, m1, f, i) && i < 4096 && ByteStored(m1, m2, f, i, 0)
    ensures Filled(m, m2, f, i + 1)
  {
  }

  /** Only bytes of user frames have changed. */
  ghost predicate SameTables(m: Ram, m': Ram, root: nat) {
    SameView(m, m', root) && SameMissing(m, m', root)
  }

  /** The 4096 stores that clear the page at `va`; the first one faults if no page is mapped. */
  method ClearPage(mmu: Mmu, va: Word) returns (ok: bool)
    requires mmu.Valid() && Safe(mmu.Snap(), mmu.root) && va % 4096 == 0 && va + 4096 <= TWO_64
    requires !Translate(mmu.ram[..], mmu.root, PageOf(va)).LargePage?
    modifies mmu.ram
    ensures mmu.Valid() && Safe(mmu.Snap(), mmu.root) && SameTables(old(mmu.ram[..]), mmu.ram[..], mmu.root)
    ensures ok <==> Translate(old(mmu.ram[..]), mmu.root, PageOf(va)).Page?
    ensures ok ==> Filled(old(mmu.ram[..]), mmu.ram[..], Translate(old(mmu.ram[..]), mmu.root, PageOf(va)).frame, 4096)
  {
    ghost var s, p := mmu.Snap(), PageOf(va);
    ghost var x := Translate(s.m, mmu.root, p);
    var i := 0;
    while i < 4096
      invariant 0 <= i <= 4096 && mmu.Valid() && Safe(mmu.Snap(), mmu.root)
      invariant SameTables(s.m, mmu.ram[..], mmu.root) && (i > 0 ==> x.Page?)
      invariant x.Page? ==> Filled(s.m, mmu.ram[..], x.frame, i)
    {
      ghost var m := mmu.ram[..];
      AddressInPage(va, i);
      ok := StoreByte(mmu, va + i, 0, p, i);
      if !ok {
        return false;
      }
      FilledStep(s.m, m, mmu.ram[..], x.frame, i);
      i := i + 1;
    }
    return true;
  }

  ghost predicate ZeroPage(m: Ram, root: nat, p: nat) {
    Translate(m, root, p).Page? && forall k: nat | k < 4096 :: ByteOf(m, Translate(m, root, p).frame, k) == 0
  }

  /** One round of map_zeroed, which ignores the result of both calls it makes. `fed` says that both
      succeeded. With no frame left the round maps frame 0 if the tables are there already; if a
      table is missing and cannot be made, the first store faults. */
  method MapZeroPage(mmu: Mmu, va: Word, ghost p: nat, ghost reserved: Reserved) returns (fate: Fate, fed: bool)
    requires mmu.Valid() && Safe(mmu.Snap(), mmu.root) && va % 4096 == 0 && va + 4096 <= TWO_64
    requires p == PageOf(va) && !Translate(mmu.ram[..], mmu.root, p).LargePage?
    modifies mmu`nodes, mmu.ram, mmu.pmm, mmu.pmm.bitmap
    ensures mmu.Valid() && Cleared(old(mmu.Snap()), mmu.Snap(), mmu.root, reserved, p, fate, fed)
  {
    ghost var s := mmu.Snap();
    var r;
    r, fed := PlaceFrame(mmu, va, p, reserved);
    if r == STRAY {
      return Strayed, false;
    }
    ghost var s' := mmu.Snap();
    var ok := ClearPage(mmu, va);
    ClearKeeps(s, s', mmu.Snap(), mmu.root, reserved, p, r, fed, ok);
    fate := if ok then Through else Faulted;
  }

  /** What one round comes to. It gets through exactly when it does not go astray and the tables are
      there or both calls succeed, and then the page is zero. If both calls succeed, a frame was
      taken for the page and one for each missing table, the page has a frame of its own, and no
      other page has changed; if not, no frame is left. */
  ghost predicate Cleared(s: Snapshot, s': Snapshot, root: nat, reserved: Reserved, p: nat, fate: Fate, fed: bool) {
    && Safe(s', root) && KeepsTranslation(s, s', root, {p}) && Tame(s, s', root)
    && (fed <==> MapRoom(s, root, p)) && (fate.Strayed? <==> MapStrays(s, root, p))
    && (fate.Through? <==> !fate.Strayed? && (Missing(s.m, root, 4, p) == 0 || fed))
    && (fate.Through? ==> ZeroPage(s'.m, root, p))
    && (fate.Through? && s.free == {} ==> MapsTo(s', root, p, 0))
    && (fed ==> Fed(s, s', root, reserved, p))
    && (!fed && !fate.Strayed? ==> s'.free == {} && |s.free| <= Missing(s.m, root, 4, p))
  }

  /** Page p was given a frame: what that took, and whose it is. */
  ghost predicate Fed(s: Snapshot, s': Snapshot, root: nat, reserved: Reserved, p: nat) {
    && TookFor(s, s', root, p) && UserPage(s'.m, root, p)
    && (Exclusive(s, root, reserved) ==> Exclusive(s', root, reserved) && KeepsOutside(s, s', root, {p}))
  }

  /** The first half of a round: a frame is taken and mapped, whatever the two calls return. */
  method PlaceFrame(mmu: Mmu, va: Word, ghost p: nat, ghost reserved: Reserved) returns (r: int, fed: bool)
    requires mmu.Valid() && Safe(mmu.Snap(), mmu.root)
    requires p == PageOf(va) && !Translate(mmu.ram[..], mmu.root, p).LargePage?
    modifies mmu`nodes, mmu.ram, mmu.pmm, mmu.pmm.bitmap
    ensures mmu.Valid() && Placed(old(mmu.Snap()), mmu.Snap(), mmu.root, reserved, p, r, fed)
  {
    ghost var s := mmu.Snap();
    var addr := TakeForPage(mmu);
    ghost var f := addr / 4096;
    r := MapUser(mmu, va, addr, p, f);
    fed := addr != 0 && r == 0;
    if addr == 0 {
      NothingPlaced(s, mmu.Snap(), mmu.root, reserved, p, r);
    } else {
      FramePlaced(s, mmu.Snap(), mmu.root, reserved, p, f, r);
    }
  }

  method MapUser(mmu: Mmu, va: Word, addr: Word, ghost p: nat, ghost f: nat) returns (r: int)
    requires mmu.Valid() && p == PageOf(va) && addr == f * 4096 && f < 0x100_0000_0000
    modifies mmu`nodes, mmu.ram, mmu.pmm, mmu.pmm.bitmap
    ensures mmu.Valid() && MapReturns(old(mmu.Snap()), mmu.Snap(), mmu.root, p, f, r)
  {
    r := mmu.VmmMap(va, addr, USER_PAGE);
  }

  /** What the first half of a round comes to. */
  ghost predicate Placed(s: Snapshot, s': Snapshot, root: nat, reserved: Reserved, p: nat, r: int, fed: bool) {
    && Safe(s', root) && KeepsTranslation(s, s', root, {p}) && Tame(s, s', root)
    && !Translate(s'.m, root, p).LargePage?
    && (fed <==> MapRoom(s, root, p)) && (r == STRAY <==> MapStrays(s, root, p)) && (fed ==> r != STRAY)
    && (r != STRAY ==> (Translate(s'.m, root, p).Page? <==> Missing(s.m, root, 4, p) == 0 || fed))
    && (Translate(s'.m, root, p).Page? && s.free == {} ==> MapsTo(s', root, p, 0))
    && (fed ==> Fed(s, s', root, reserved, p))
    && (!fed && r != STRAY ==> s'.free == {} && |s.free| <= Missing(s.m, root, 4, p))
  }

  /** The call of vmm_map in a round, on what the allocator has left: s1. */
  ghost predicate MapReturns(s1: Snapshot, s': Snapshot, root: nat, p: nat, f: nat, r: int)
    requires f < 0x100_0000_0000
  {
    && Grown(s1, s') && (r == 0 || r == -1 || r == STRAY)
    && (r == 0 <==> Mappable(s1, root, p)) && (r == STRAY <==> Strays(s1, root, p))
    && (r == 0 ==> Mapped(s1, s', root, p, f * 4096, USER_PAGE))
    && (r == -1 ==> Unchanged(s1, s', root, p))
    && (r != 0 ==> SameView(s1.m, s'.m, root) && FewerMissing(s1.m, s'.m, root))
  }

  lemma MapTame(s1: Snapshot, s': Snapshot, root: nat, p: nat, f: nat, r: int)
    requires p < PAGES && f < 0x100_0000_0000 && MapReturns(s1, s', root, p, f, r)
    requires !Translate(s1.m, root, p).LargePage?
    ensures Tame(s1, s', root) && !Translate(s'.m, root, p).LargePage?
    ensures r == 0 ==> UserPage(s'.m, root, p)
    ensures r != 0 && r != STRAY ==> s'.free == {}
  {
    if r == 0 {
      SuppliedFewer(s1.m, s'.m, root, p);
      UserPageGranted(s1, s', root, p, f);
    }
  }

  /** A round with no frame left. */
  lemma NothingPlaced(s: Snapshot, s': Snapshot, root: nat, reserved: Reserved, p: nat, r: int)
    requires Safe(s, root) && s.nodes.Keys !! s.free && Owned(s, 0) && s.free == {} && p < PAGES
    requires !Translate(s.m, root, p).LargePage? && MapReturns(s, s', root, p, 0, r)
    ensures Placed(s, s', root, reserved, p, r, false)
  {
    MapTame(s, s', root, p, 0, r);
    MapKeepsSafe(s, s', root, p, 0, USER_PAGE);
    AllLow(PoolOf(s), Missing(s.m, root, 4, p));
    if Missing(s.m, root, 4, p) > 0 {
      MissingUnmapped(s.m, root, 4, p);
    }
  }

  lemma FramePlaced(s: Snapshot, s': Snapshot, root: nat, reserved: Reserved, p: nat, f: nat, r: int)
    requires Safe(s, root) && s.nodes.Keys !! s.free && Next(s, f) && p < PAGES
    requires f < 0x100_0000_0000 && 512 * f + 512 <= |s.m|
    requires !Translate(s.m, root, p).LargePage? && MapReturns(TakeOne(s, f), s', root, p, f, r)
    ensures Placed(s, s', root, reserved, p, r, r == 0)
  {
    NextOne(s, root, p, f);
    MapTame(TakeOne(s, f), s', root, p, f, r);
    MapKeepsSafe(TakeOne(s, f), s', root, p, f, USER_PAGE);
    if Missing(s.m, root, 4, p) > 0 {
      MissingUnmapped(s.m, root, 4, p);
    }
    if r == 0 {
      FrameFed(s, s', root, reserved, p, f);
    }
  }

  lemma FrameFed(s: Snapshot, s': Snapshot, root: nat, reserved: Reserved, p: nat, f: nat)
    requires Safe(s, root) && s.nodes.Keys !! s.free && Next(s, f) && p < PAGES
    requires f < 0x100_0000_0000 && 512 * f + 512 <= |s.m| && UserPage(s'.m, root, p)
    requires Grown(TakeOne(s, f), s') && Mapped(TakeOne(s, f), s', root, p, f * 4096, USER_PAGE)
    ensures Fed(s, s', root, reserved, p)
  {
    if Exclusive(s, root, reserved) {
      MapKeepsExclusive(s, s', root, reserved, p, f, USER_PAGE);
    }
  }

  lemma ClearKeeps(s: Snapshot, s1: Snapshot, s2: Snapshot, root: nat, reserved: Reserved, p: nat, r: int, fed: bool, ok: bool)
    requires p < PAGES && Placed(s, s1, root, reserved, p, r, fed) && r != STRAY && SameTables(s1.m, s2.m, root)
    requires Safe(s2, root) && |s2.m| == |s1.m| && s2.nodes == s1.nodes && s2.free == s1.free && s2.hint == s1.hint
    requires ok <==> Translate(s1.m, root, p).Page?
    requires ok ==> Filled(s1.m, s2.m, Translate(s1.m, root, p).frame, 4096)
    ensures Cleared(s, s2, root, reserved, p, if ok then Through else Faulted, fed)
  {
    SameViewKeeps(s1, s2, root, reserved);
    if fed && Exclusive(s, root, reserved) {
      ClearKeepsOutside(s, s1, s2, root, reserved, p);
    }
    if fed {
      UsedSameTables(s, s1, s2, root, p);
    }
  }

  lemma UsedSameTables(s: Snapshot, s1: Snapshot, s2: Snapshot, root: nat, p: nat)
    requires TookFor(s, s1, root, p) && SameMissing(s1.m, s2.m, root) && p < PAGES
    requires |s2.m| == |s1.m| && s2.free == s1.free && s2.hint == s1.hint
    ensures TookFor(s, s2, root, p)
  {
    forall q: nat, j: nat | q < PAGES && 1 <= j <= 3
      ensures Lacks(s2.m, root, q, j) <==> Lacks(s1.m, root, q, j)
    {
    }
  }

  lemma ClearKeepsOutside(s: Snapshot, s1: Snapshot, s2: Snapshot, root: nat, reserved: Reserved, p: nat)
    requires p < PAGES && Translate(s1.m, root, p).Page? && SameView(s1.m, s2.m, root)
    requires Filled(s1.m, s2.m, Translate(s1.m, root, p).frame, 4096)
    requires Exclusive(s1, root, reserved) && KeepsOutside(s, s1, root, {p})
    ensures KeepsOutside(s, s2, root, {p})
  {
    forall q: nat | q < PAGES && q != p && Translate(s.m, root, q).Page?
      ensures SameBytes(s.m, s2.m, Translate(s.m, root, q).frame)
    {
      assert Translate(s1.m, root, q) == Translate(s.m, root, q);
      assert SameBytes(s.m, s1.m, Translate(s.m, root, q).frame);
    }
  }

  // ---- regions ----

  predicate InRange(q: nat, a: nat, n: nat) {
    a <= q < a + n
  }

  function Range(a: nat, n: nat): set<nat> {
    set q: nat | q < a + n && InRange(q, a, n)
  }

  /** n whole pages from page-aligned address `va`, none of which wraps around. */
  ghost predicate WholePages(va: Word, n: nat) {
    va % 4096 == 0 && va + n * 4096 <= TWO_64 && PageOf(va) + n <= PAGES
  }

  function PagesFrom(va: Word, n: nat): set<nat> {
    Range(PageOf(va), n)
  }

  ghost predicate NoLargePages(m: Ram, root: nat, pages: set<nat>) {
    forall p: nat | p in pages && p < PAGES :: !Translate(m, root, p).LargePage?
  }

  /** n pages of zeros from page a. */
  ghost predicate ZeroPages(m: Ram, root: nat, a: nat, n: nat) {
    forall q: nat | InRange(q, a, n) :: ZeroPage(m, root, q)
  }

  ghost predicate UserPages(m: Ram, root: nat, a: nat, n: nat) {
    forall q: nat | InRange(q, a, n) :: UserPage(m, root, q)
  }

  ghost predicate AllMapped(m: Ram, root: nat, a: nat, n: nat) {
    forall q: nat | InRange(q, a, n) :: Translate(m, root, q).Page?
  }

  ghost predicate NoneMissing(m: Ram, root: nat, a: nat, n: nat) {
    forall q: nat | InRange(q, a, n) :: Missing(m, root, 4, q) == 0
  }

  lemma RegionAddress(va: Word, n: nat, k: nat)
    requires WholePages(va, n) && k < n * 4096
    ensures va + k < TWO_64 && PageOf(va + k) == PageOf(va) + k / 4096 && (va + k) % 4096 == k % 4096
  {
    var q := va / 4096;
    assert va == q * 4096 && k == k / 4096 * 4096 + k % 4096;
    assert (va + k) / 4096 == q + k / 4096;
    assert q % PAGES + k / 4096 < PAGES;
    WithinPages(q, k / 4096);
  }

  lemma WithinPages(q: nat, d: nat)
    requires q % PAGES + d < PAGES
    ensures (q + d) % PAGES == q % PAGES + d
  {
  }

  lemma RangeStep(a: nat, n: nat)
    ensures Range(a, n) + {a + n} == Range(a, n + 1)
  {
  }

  /** From s to s' the n pages from page a were given zeroed frames of their own, and nothing else
      changed. */
  ghost predicate ZeroMapped(s: Snapshot, s': Snapshot, root: nat, reserved: Reserved, a: nat, n: nat) {
    && Exclusive(s', root, reserved) && KeepsOutside(s, s', root, Range(a, n))
    && ZeroPages(s'.m, root, a, n) && UserPages(s'.m, root, a, n)
  }

  lemma ZeroMappedStep(s: Snapshot, s1: Snapshot, s2: Snapshot, root: nat, reserved: Reserved, a: nat, n: nat, p: nat)
    requires p == a + n && ZeroMapped(s, s1, root, reserved, a, n) && p < PAGES && Tame(s1, s2, root)
    requires Exclusive(s2, root, reserved) && KeepsOutside(s1, s2, root, {p})
    requires ZeroPage(s2.m, root, p) && UserPage(s2.m, root, p)
    ensures ZeroMapped(s, s2, root, reserved, a, n + 1)
  {
    KeepsTrans(s, s1, s2, root, Range(a, n), {p});
    RangeStep(a, n);
    ZeroPagesStep(s1, s2, root, a, n, p);
  }

  lemma ZeroPagesStep(s1: Snapshot, s2: Snapshot, root: nat, a: nat, n: nat, p: nat)
    requires p == a + n && ZeroPages(s1.m, root, a, n) && UserPages(s1.m, root, a, n) && p < PAGES
    requires Tame(s1, s2, root) && KeepsOutside(s1, s2, root, {p})
    requires ZeroPage(s2.m, root, p) && UserPage(s2.m, root, p)
    ensures ZeroPages(s2.m, root, a, n + 1) && UserPages(s2.m, root, a, n + 1)
  {
    forall q: nat | InRange(q, a, n + 1)
      ensures ZeroPage(s2.m, root, q) && UserPage(s2.m, root, q)
    {
      if q < p {
        assert InRange(q, a, n);
        ZeroPageStays(s1, s2, root, p, q);
      }
    }
  }

  lemma ZeroPageStays(s1: Snapshot, s2: Snapshot, root: nat, p: nat, q: nat)
    requires KeepsOutside(s1, s2, root, {p}) && q < PAGES && q != p && RightsOf(s2.m, root, q) == RightsOf(s1.m, root, q)
    requires ZeroPage(s1.m, root, q) && UserPage(s1.m, root, q)
    ensures ZeroPage(s2.m, root, q) && UserPage(s2.m, root, q)
  {
    assert SameBytes(s1.m, s2.m, Translate(s1.m, root, q).frame);
  }

  /** i pages of n from page a are done; `fed` says that every frame asked for so far was there. */
  ghost predicate Progress(s: Snapshot, s': Snapshot, root: nat, reserved: Reserved, area: set<nat>,
                           a: nat, i: nat, n: nat, fed: bool) {
    && KeepsTranslation(s, s', root, Range(a, i)) && Tame(s, s', root) && AllMapped(s'.m, root, a, i)
    && Tally(s, s', root, reserved, area, a, i, n, fed)
  }

  /** What i pages of n have taken, and what they are if that was there. */
  ghost predicate Tally(s: Snapshot, s': Snapshot, root: nat, reserved: Reserved, area: set<nat>,
                        a: nat, i: nat, n: nat, fed: bool) {
    && (if fed then Spent(s, s', root, area, i) && LowAfter(s, s') && NoneMissing(s'.m, root, a, i)
        else s'.free == {} && |s.free| < Need(s, root, area, n))
    && (fed && Exclusive(s, root, reserved) ==> ZeroMapped(s, s', root, reserved, a, i))
  }

  /** A round that gets through makes progress. */
  lemma RoundProgress(s: Snapshot, s1: Snapshot, s2: Snapshot, root: nat, reserved: Reserved, area: set<nat>,
                      a: nat, i: nat, p: nat, n: nat, fed: bool, fate: Fate, fed1: bool)
    requires p == a + i && Progress(s, s1, root, reserved, area, a, i, n, fed) && Cleared(s1, s2, root, reserved, p, fate, fed1)
    requires fate.Through? && i < n && a + n <= PAGES && p in area
    ensures Progress(s, s2, root, reserved, area, a, i + 1, n, fed && fed1)
  {
    RoundTally(s, s1, s2, root, reserved, area, a, i, p, n, fed, fate, fed1);
    CarriesOn(s, s1, s2, root, a, i, p);
    AllMappedStep(s1, s2, root, a, i, p);
  }

  lemma RoundTally(s: Snapshot, s1: Snapshot, s2: Snapshot, root: nat, reserved: Reserved, area: set<nat>,
                   a: nat, i: nat, p: nat, n: nat, fed: bool, fate: Fate, fed1: bool)
    requires p == a + i && Tally(s, s1, root, reserved, area, a, i, n, fed) && Cleared(s1, s2, root, reserved, p, fate, fed1)
    requires fate.Through? && i < n && a + n <= PAGES && p in area
    ensures Tally(s, s2, root, reserved, area, a, i + 1, n, fed && fed1)
  {
    if !fed {
      NothingMore(s1, s2, root, reserved, p, fate, fed1);
    } else if !fed1 {
      ShortOfFrames(s, s1, root, area, i, p, n);
    } else {
      RoundFed(s, s1, s2, root, reserved, area, a, i, p, n);
    }
  }

  lemma AllMappedStep(s1: Snapshot, s2: Snapshot, root: nat, a: nat, i: nat, p: nat)
    requires p == a + i && AllMapped(s1.m, root, a, i) && KeepsTranslation(s1, s2, root, {p})
    requires Translate(s2.m, root, p).Page? && p < PAGES
    ensures AllMapped(s2.m, root, a, i + 1)
  {
    forall q: nat | InRange(q, a, i + 1)
      ensures Translate(s2.m, root, q).Page?
    {
      assert q < a + i ==> InRange(q, a, i);
    }
  }

  lemma CarriesOn(s: Snapshot, s1: Snapshot, s2: Snapshot, root: nat, a: nat, i: nat, p: nat)
    requires p == a + i && KeepsTranslation(s, s1, root, Range(a, i)) && KeepsTranslation(s1, s2, root, {p})
    requires Tame(s, s1, root) && Tame(s1, s2, root)
    ensures KeepsTranslation(s, s2, root, Range(a, i + 1)) && Tame(s, s2, root)
  {
    KeepsTrans(s, s1, s2, root, Range(a, i), {p});
    RangeStep(a, i);
    TameMore(s, s1, s2, root);
  }

  lemma NothingMore(s1: Snapshot, s2: Snapshot, root: nat, reserved: Reserved, p: nat, fate: Fate, fed1: bool)
    requires s1.free == {} && Cleared(s1, s2, root, reserved, p, fate, fed1) && !fate.Strayed?
    ensures s2.free == {} && !fed1
  {
  }

  /** The first round that finds too few frames shows that there were too few for all of them. */
  lemma ShortOfFrames(s: Snapshot, s1: Snapshot, root: nat, area: set<nat>, i: nat, p: nat, n: nat)
    requires Spent(s, s1, root, area, i) && p in area && p < PAGES && i < n
    requires |s1.free| <= Missing(s1.m, root, 4, p)
    ensures |s.free| < Need(s, root, area, n)
  {
    PathLackWithin(s1.m, root, p, area);
  }

  lemma NoneMissingStep(s1: Snapshot, s2: Snapshot, root: nat, a: nat, i: nat, p: nat)
    requires p == a + i && NoneMissing(s1.m, root, a, i) && Tame(s1, s2, root) && Missing(s2.m, root, 4, p) == 0 && p < PAGES
    ensures NoneMissing(s2.m, root, a, i + 1)
  {
    forall q: nat | InRange(q, a, i + 1)
      ensures Missing(s2.m, root, 4, q) == 0
    {
      assert q < a + i ==> InRange(q, a, i);
    }
  }

  lemma CountRound(s: Snapshot, s1: Snapshot, s2: Snapshot, root: nat, area: set<nat>, i: nat, p: nat)
    requires Spent(s, s1, root, area, i) && LowAfter(s, s1)
    requires TookFor(s1, s2, root, p) && p in area && p < PAGES
    ensures Spent(s, s2, root, area, i + 1) && LowAfter(s, s2)
  {
    UsedSpent(s1, s2, root, area, p);
    SpentMore(s, s1, s2, root, area, i, 1);
  }

  lemma RoundFed(s: Snapshot, s1: Snapshot, s2: Snapshot, root: nat, reserved: Reserved, area: set<nat>, a: nat, i: nat, p: nat, n: nat)
    requires p == a + i && Tally(s, s1, root, reserved, area, a, i, n, true) && Fed(s1, s2, root, reserved, p)
    requires Tame(s1, s2, root) && ZeroPage(s2.m, root, p) && i < n && a + n <= PAGES && p in area
    ensures Spent(s, s2, root, area, i + 1) && LowAfter(s, s2) && NoneMissing(s2.m, root, a, i + 1)
    ensures Exclusive(s, root, reserved) ==> ZeroMapped(s, s2, root, reserved, a, i + 1)
  {
    CountRound(s, s1, s2, root, area, i, p);
    NoneMissingStep(s1, s2, root, a, i, p);
    if Exclusive(s, root, reserved) {
      assert ZeroMapped(s, s1, root, reserved, a, i);
      ZeroMappedStep(s, s1, s2, root, reserved, a, i, p);
    }
  }

  /** The next round does not go astray if all the frames needed are low. */
  lemma RoundNotAstray(s: Snapshot, s1: Snapshot, root: nat, reserved: Reserved, area: set<nat>, a: nat, i: nat, p: nat, n: nat, fed: bool)
    requires p == a + i && Progress(s, s1, root, reserved, area, a, i, n, fed) && i < n && a + n <= PAGES && p in area
    requires LowFor(PoolOf(s), Need(s, root, area, n))
    ensures !MapStrays(s1, root, p)
  {
    if fed {
      var rest: nat := n - i;
      LowAfterFed(s, s1, root, area, i, rest, n);
      NotAstray(s1, root, area, p, rest);
    }
  }

  /** The page that the i-th round works on is still as the region demands. */
  lemma NextPage(s: Snapshot, s': Snapshot, root: nat, reserved: Reserved, area: set<nat>, va: Word, n: nat, i: nat, p: nat, fed: bool)
    requires WholePages(va, n) && i < n && p == PageOf(va) + i && NoLargePages(s.m, root, PagesFrom(va, n))
    ensures va + i * 4096 + 4096 <= TWO_64 && (va + i * 4096) % 4096 == 0
    ensures PageOf(va + i * 4096) == p < PAGES
    ensures Progress(s, s', root, reserved, area, PageOf(va), i, n, fed) ==> !Translate(s'.m, root, p).LargePage?
  {
    NextAddress(va, n, i);
    InArea(PageOf(va), i, n, PagesFrom(va, n));
  }

  lemma NextAddress(va: Word, n: nat, i: nat)
    requires WholePages(va, n) && i < n
    ensures va + i * 4096 + 4096 <= TWO_64 && (va + i * 4096) % 4096 == 0 && PageOf(va + i * 4096) == PageOf(va) + i
  {
    RegionAddress(va, n, i * 4096);
    FrameAddress(i);
  }

  /** The frames that a piece of code for n pages of the area takes. It is fed exactly when there are
      frames for the pages and the tables the area lacks, unless it goes astray; and it does not if
      those frames all lie in the first GiB. Not fed, it leaves no frame free. */
  ghost predicate Counted(s: Snapshot, s': Snapshot, root: nat, area: set<nat>, n: nat, fate: Fate, fed: bool) {
    && Tame(s, s', root)
    && (fed ==> fate.Through? && Spent(s, s', root, area, n) && LowAfter(s, s'))
    && (!fed && !fate.Strayed? ==> |s.free| < Need(s, root, area, n))
    && (!fed && fate.Through? ==> s'.free == {})
    && (fate.Strayed? ==> !LowFor(PoolOf(s), Need(s, root, area, n)))
  }

  /** One piece of code after another that has got through. */
  lemma CountedMore(s: Snapshot, s1: Snapshot, s2: Snapshot, root: nat, area: set<nat>, n1: nat, fed1: bool,
                    n2: nat, n: nat, fate: Fate, fed2: bool)
    requires n == n1 + n2 && Counted(s, s1, root, area, n1, Through, fed1) && Counted(s1, s2, root, area, n2, fate, fed2)
    ensures Counted(s, s2, root, area, n, fate, fed1 && fed2)
  {
    TameMore(s, s1, s2, root);
    if fed1 && fed2 {
      SpentMore(s, s1, s2, root, area, n1, n2);
    }
    if fed1 {
      LowAfterFed(s, s1, root, area, n1, n2, n);
    } else {
      AllLow(PoolOf(s1), Need(s1, root, area, n2));
    }
  }

  /** Low frames for all leave low frames for the rest. */
  lemma LowAfterFed(s: Snapshot, s1: Snapshot, root: nat, area: set<nat>, n1: nat, n2: nat, n: nat)
    requires n == n1 + n2 && Spent(s, s1, root, area, n1) && LowAfter(s, s1)
    ensures |s.free| - |s1.free| + Need(s1, root, area, n2) == Need(s, root, area, n)
    ensures LowFor(PoolOf(s), Need(s, root, area, n)) ==> LowFor(PoolOf(s1), Need(s1, root, area, n2))
  {
    var rest := Need(s1, root, area, n2);
    var d: nat := |s.free| - |s1.free|;
    assert LowFor(PoolOf(s), d + rest) ==> LowFor(PoolOf(s1), rest);
  }

  /** Stores to user frames count for nothing. */
  lemma CountedSame(s: Snapshot, s1: Snapshot, s2: Snapshot, root: nat, area: set<nat>, n: nat, fate: Fate, fed: bool)
    requires Counted(s, s1, root, area, n, fate, fed) && SameTables(s1.m, s2.m, root)
    requires |s2.m| == |s1.m| && s2.free == s1.free && s2.hint == s1.hint
    ensures Counted(s, s2, root, area, n, fate, fed)
  {
    forall q: nat, j: nat | q < PAGES
      ensures Lacks(s2.m, root, q, j) <==> Lacks(s1.m, root, q, j)
    {
    }
    assert Lacking(s2.m, root, area) == Lacking(s1.m, root, area);
    assert PoolOf(s2) == PoolOf(s1);
  }

  /** Code that stops short would have stopped short of more. */
  lemma CountedFewer(s: Snapshot, s': Snapshot, root: nat, area: set<nat>, n: nat, more: nat, fate: Fate)
    requires Counted(s, s', root, area, n, fate, false) && n <= more && !fate.Through?
    ensures Counted(s, s', root, area, more, fate, false)
  {
    if LowFor(PoolOf(s), Need(s, root, area, more)) {
      LowForFewer(PoolOf(s), Need(s, root, area, more), Need(s, root, area, n));
    }
  }

  /** What map_zeroed of n pages from page a comes to, counted over an area that contains them. If
      every allocation and map succeeds, the pages are zero and each has a frame of its own. */
  ghost predicate Zeroed(s: Snapshot, s': Snapshot, root: nat, reserved: Reserved, area: set<nat>,
                         a: nat, n: nat, fate: Fate, fed: bool) {
    && Safe(s', root) && KeepsTranslation(s, s', root, Range(a, n)) && Counted(s, s', root, area, n, fate, fed)
    && (fate.Through? ==> AllMapped(s'.m, root, a, n))
    && (fed ==> NoneMissing(s'.m, root, a, n))
    && (fed && Exclusive(s, root, reserved) ==> ZeroMapped(s, s', root, reserved, a, n))
  }

  method MapZeroed(mmu: Mmu, va: Word, n: nat, ghost area: set<nat>, ghost reserved: Reserved) returns (fate: Fate, fed: bool)
    requires mmu.Valid() && Safe(mmu.Snap(), mmu.root) && WholePages(va, n) && PagesFrom(va, n) <= area
    requires NoLargePages(mmu.ram[..], mmu.root, PagesFrom(va, n))
    modifies mmu`nodes, mmu.ram, mmu.pmm, mmu.pmm.bitmap
    ensures mmu.Valid() && Zeroed(old(mmu.Snap()), mmu.Snap(), mmu.root, reserved, area, PageOf(va), n, fate, fed)
  {
    ghost var s, a := mmu.Snap(), PageOf(va);
    fate, fed := Through, true;
    ProgressStart(s, mmu.root, reserved, area, a, n);
    var i := 0;
    while i < n
      invariant 0 <= i <= n && mmu.Valid() && Safe(mmu.Snap(), mmu.root) && fate == Through
      invariant Progress(s, mmu.Snap(), mmu.root, reserved, area, a, i, n, fed)
    {
      fate, fed := MapZeroNext(mmu, va, i, fed, s, n, area, reserved);
      if fate != Through {
        return;
      }
      i := i + 1;
    }
    ProgressDone(s, mmu.Snap(), mmu.root, reserved, area, a, n, fed);
  }

  /** Page i of the region. */
  method MapZeroNext(mmu: Mmu, va: Word, i: nat, before: bool, ghost s: Snapshot, ghost n: nat,
                     ghost area: set<nat>, ghost reserved: Reserved) returns (fate: Fate, fed: bool)
    requires mmu.Valid() && Safe(mmu.Snap(), mmu.root) && WholePages(va, n) && i < n && PagesFrom(va, n) <= area
    requires Progress(s, mmu.Snap(), mmu.root, reserved, area, PageOf(va), i, n, before)
    requires NoLargePages(s.m, mmu.root, PagesFrom(va, n))
    modifies mmu`nodes, mmu.ram, mmu.pmm, mmu.pmm.bitmap
    ensures mmu.Valid() && Safe(mmu.Snap(), mmu.root)
    ensures RoundDone(s, mmu.Snap(), mmu.root, reserved, area, PageOf(va), i, n, fate, fed)
  {
    ghost var s1, p := mmu.Snap(), PageOf(va) + i;
    NextPage(s, s1, mmu.root, reserved, area, va, n, i, p, before);
    var fed1;
    fate, fed1 := MapZeroPage(mmu, va + i * 4096, p, reserved);
    fed := before && fed1 && fate.Through?;
    ghost var s2 := mmu.Snap();
    RoundEnds(s, s1, s2, mmu.root, reserved, area, va, i, p, n, before, fate, fed1, fed);
  }

  /** After round i of n: the next one may follow, or the call has ended. */
  ghost predicate RoundDone(s: Snapshot, s': Snapshot, root: nat, reserved: Reserved, area: set<nat>,
                            a: nat, i: nat, n: nat, fate: Fate, fed: bool) {
    if fate.Through? then Progress(s, s', root, reserved, area, a, i + 1, n, fed)
    else !fed && Zeroed(s, s', root, reserved, area, a, n, fate, false)
  }

  lemma RoundEnds(s: Snapshot, s1: Snapshot, s2: Snapshot, root: nat, reserved: Reserved, area: set<nat>,
                  va: Word, i: nat, p: nat, n: nat, fed: bool, fate: Fate, fed1: bool, fed2: bool)
    requires WholePages(va, n) && i < n && PagesFrom(va, n) <= area && p == PageOf(va) + i && fed2 == (fed && fed1 && fate.Through?)
    ensures
      Progress(s, s1, root, reserved, area, PageOf(va), i, n, fed) && Cleared(s1, s2, root, reserved, p, fate, fed1) ==>
        RoundDone(s, s2, root, reserved, area, PageOf(va), i, n, fate, fed2)
  {
    var a := PageOf(va);
    InArea(a, i, n, area);
    if Progress(s, s1, root, reserved, area, a, i, n, fed) && Cleared(s1, s2, root, reserved, p, fate, fed1) {
      if fate.Through? {
        RoundProgress(s, s1, s2, root, reserved, area, a, i, p, n, fed, fate, fed1);
      } else {
        RoundStops(s, s1, s2, root, reserved, area, a, i, p, n, fed, fate, fed1);
      }
    }
  }

  lemma ProgressStart(s: Snapshot, root: nat, reserved: Reserved, area: set<nat>, a: nat, n: nat)
    ensures Progress(s, s, root, reserved, area, a, 0, n, true)
  {
  }

  lemma ProgressDone(s: Snapshot, s': Snapshot, root: nat, reserved: Reserved, area: set<nat>, a: nat, n: nat, fed: bool)
    requires Safe(s', root) && Progress(s, s', root, reserved, area, a, n, n, fed)
    ensures Zeroed(s, s', root, reserved, area, a, n, Through, fed)
  {
  }

  lemma InArea(a: nat, i: nat, n: nat, area: set<nat>)
    requires Range(a, n) <= area && i < n
    ensures a + i in area
  {
    assert InRange(a + i, a, n) && a + i in Range(a, n);
  }

  /** A round that does not get through ends the call. */
  lemma RoundStops(s: Snapshot, s1: Snapshot, s2: Snapshot, root: nat, reserved: Reserved, area: set<nat>,
                   a: nat, i: nat, p: nat, n: nat, fed: bool, fate: Fate, fed1: bool)
    requires p == a + i && Progress(s, s1, root, reserved, area, a, i, n, fed) && Cleared(s1, s2, root, reserved, p, fate, fed1)
    requires !fate.Through? && i < n && a + n <= PAGES && p in area
    ensures Zeroed(s, s2, root, reserved, area, a, n, fate, false)
  {
    CarriesOn(s, s1, s2, root, a, i, p);
    assert Range(a, i + 1) <= Range(a, n);
    if fate.Strayed? && LowFor(PoolOf(s), Need(s, root, area, n)) {
      RoundNotAstray(s, s1, root, reserved, area, a, i, p, n, fed);
    }
    if !fate.Strayed? && fed {
      ShortOfFrames(s, s1, root, area, i, p, n);
    }
  }
}
