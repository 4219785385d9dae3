/** Memory behind user pages: byte access through the page tables, and the exclusive ownership of
    frames that SYS_MAP keeps (arch/x86_64/trap/trap.c). */
module UserMemory {
  import opened Options
  import opened Words
  import opened FrameAllocator
  import opened PageTable
  import opened Paging

  // ---- bytes ----

  /** Byte k of a frame. */
  function ByteOf(m: Ram, frame: nat, k: nat): Byte {
    GetByte(Entry(m, frame, k / 8), k % 8)
  }

  /** The byte at an address that a 4 KiB page maps. */
  function Load(m: Ram, root: nat, va: Word): Option<Byte> {
    match Translate(m, root, PageOf(va))
    case Page(f, _, _) => Some(ByteOf(m, f, va % 4096))
    case _ => None
  }

  ghost predicate ByteStored(m: Ram, m': Ram, f: nat, k: nat, b: Byte) {
    forall g: nat, j: nat | j < 4096 :: ByteOf(m', g, j) == if g == f && j == k then b else ByteOf(m, g, j)
  }

  lemma StoreIsByteStore(m: Ram, m': Ram, f: nat, k: nat, b: Byte)
    requires k < 4096 && Stored(m, m', f, k / 8, SetByte(Entry(m, f, k / 8), k % 8, b))
    ensures ByteStored(m, m', f, k, b)
  {
    forall g: nat, j: nat | j < 4096
      ensures ByteOf(m', g, j) == if g == f && j == k then b else ByteOf(m, g, j)
    {
      assert Entry(m', g, j / 8) == if g == f && j / 8 == k / 8 then SetByte(Entry(m, f, k / 8), k % 8, b) else Entry(m, g, j / 8);
      PutGetByte(Entry(m, f, k / 8), k % 8, b, j % 8);
    }
  }

  // ---- exclusive frames ----

  /** The frame of every mapped 4 KiB page is in RAM, is no page table and is not free. */
  ghost predicate Safe(s: Snapshot, root: nat) {
    forall p: nat | p < PAGES && Translate(s.m, root, p).Page? :: Owned(s, Translate(s.m, root, p).frame)
  }

  ghost predicate Owned(s: Snapshot, f: nat) {
    512 * f + 512 <= |s.m| && f !in s.nodes && f !in s.free
  }

  /** Moreover every mapped page has a frame of its own, not one reserved at start-up. */
  ghost predicate Exclusive(s: Snapshot, root: nat, reserved: set<nat>) {
    && Safe(s, root) && s.free !! reserved
    && (forall p: nat | p < PAGES && Translate(s.m, root, p).Page? :: Translate(s.m, root, p).frame !in reserved)
    && (forall p: nat, q: nat | p < PAGES && q < PAGES && p != q && Translate(s.m, root, p).Page? && Translate(s.m, root, q).Page? ::
          Translate(s.m, root, p).frame != Translate(s.m, root, q).frame)
  }

  /** No page but the touched ones changes translation. */
  ghost predicate KeepsTranslation(s: Snapshot, s': Snapshot, root: nat, touched: set<nat>) {
    forall q: nat | q < PAGES && q !in touched :: Translate(s'.m, root, q) == Translate(s.m, root, q)
  }

  /** No page but the touched ones changes translation or content. */
  ghost predicate KeepsOutside(s: Snapshot, s': Snapshot, root: nat, touched: set<nat>) {
    && KeepsTranslation(s, s', root, touched)
    && forall q: nat | q < PAGES && q !in touched && Translate(s.m, root, q).Page? ::
         SameBytes(s.m, s'.m, Translate(s.m, root, q).frame)
  }

  ghost predicate SameBytes(m: Ram, m': Ram, f: nat) {
    forall k: nat | k < 4096 :: ByteOf(m', f, k) == ByteOf(m, f, k)
  }

  /** s' maps page p to frame f. */
  ghost predicate MapsTo(s': Snapshot, root: nat, p: nat, f: nat) {
    Translate(s'.m, root, p).Page? && Translate(s'.m, root, p).frame == f
  }

  /** What is left of s when frame f has been handed out. */
  function TakeOne(s: Snapshot, f: nat): Snapshot {
    s.(free := s.free - {f}, hint := f + 1)
  }

  /** Mapping a page to a frame that is neither a table nor free keeps tables out of reach; so does a
      call that maps nothing. */
  lemma MapKeepsSafe(s: Snapshot, s': Snapshot, root: nat, p: nat, f: nat, flags: Word)
    requires Safe(s, root) && Owned(s, f) && f < 0x100_0000_0000 && p < PAGES
    requires s.nodes.Keys !! s.free && Grown(s, s')
    requires Mapped(s, s', root, p, f * 4096, flags) || SameView(s.m, s'.m, root)
    ensures Safe(s', root) && KeepsTranslation(s, s', root, {p})
    ensures Mapped(s, s', root, p, f * 4096, flags) ==> MapsTo(s', root, p, f)
  {
    assert FrameOf(f * 4096) == f by { FieldsOf(f, 0); }
    forall q: nat | q < PAGES && Translate(s'.m, root, q).Page?
      ensures Owned(s', Translate(s'.m, root, q).frame)
    {
      assert Translate(s'.m, root, q) == Translate(s.m, root, q) || Translate(s'.m, root, q).frame == f;
    }
  }

  /** A frame taken from the allocator and then mapped, or lost when the map fails, leaves every
      page with a frame of its own. */
  lemma MapKeepsExclusive(s: Snapshot, s': Snapshot, root: nat, reserved: set<nat>, p: nat, f: nat, flags: Word)
    requires Exclusive(s, root, reserved) && f in s.free && s.nodes.Keys !! s.free
    requires f < 0x100_0000_0000 && 512 * f + 512 <= |s.m| && p < PAGES
    requires Grown(TakeOne(s, f), s')
    requires Mapped(TakeOne(s, f), s', root, p, f * 4096, flags) || SameView(s.m, s'.m, root)
    ensures Exclusive(s', root, reserved) && KeepsOutside(s, s', root, {p})
    ensures Mapped(TakeOne(s, f), s', root, p, f * 4096, flags) ==> MapsTo(s', root, p, f)
  {
    MapKeepsSafe(TakeOne(s, f), s', root, p, f, flags);
    assert FrameOf(f * 4096) == f by { FieldsOf(f, 0); }
    forall q: nat | q < PAGES && Translate(s'.m, root, q).Page?
      ensures Translate(s'.m, root, q).frame !in reserved
      ensures q != p ==> Translate(s'.m, root, q) == Translate(s.m, root, q) && Translate(s'.m, root, q).frame != f
      ensures Translate(s'.m, root, q) == Translate(s.m, root, q) || (q == p && Translate(s'.m, root, q).frame == f)
    {
    }
    forall q: nat | q < PAGES && q != p && Translate(s.m, root, q).Page?
      ensures SameBytes(s.m, s'.m, Translate(s.m, root, q).frame)
    {
      assert Owned(s, Translate(s.m, root, q).frame);
    }
  }

  lemma SameViewKeeps(s: Snapshot, s': Snapshot, root: nat, reserved: set<nat>)
    requires SameView(s.m, s'.m, root) && |s'.m| == |s.m| && s'.nodes == s.nodes && s'.free == s.free
    ensures Safe(s, root) ==> Safe(s', root)
    ensures Exclusive(s, root, reserved) ==> Exclusive(s', root, reserved)
  {
  }

  lemma KeepsTrans(s: Snapshot, s1: Snapshot, s2: Snapshot, root: nat, t1: set<nat>, t2: set<nat>)
    ensures KeepsTranslation(s, s1, root, t1) && KeepsTranslation(s1, s2, root, t2) ==> KeepsTranslation(s, s2, root, t1 + t2)
    ensures KeepsOutside(s, s1, root, t1) && KeepsOutside(s1, s2, root, t2) ==> KeepsOutside(s, s2, root, t1 + t2)
  {
  }

  lemma PageOfAligned(va: Word)
    ensures PageOf(va / 4096 * 4096) == PageOf(va)
  {
    FrameAddress(va / 4096);
  }

  lemma FitsWord(addr: nat)
    requires addr % 4096 == 0 && addr / 4096 < 0x100_0000_0000
    ensures addr == addr / 4096 * 4096 && addr < TWO_64
  {
  }

  /** Frame f is the next one handed out. */
  ghost predicate Next(s: Snapshot, f: nat) {
    FirstFree(s.free, s.hint, |s.m| / 512, f)
  }

  /** A page can be given a fresh frame: there is one, and after it the page can be mapped. */
  ghost predicate MapRoom(s: Snapshot, root: nat, p: nat) {
    exists f: nat | Next(s, f) :: Mappable(TakeOne(s, f), root, p)
  }

  /** With a frame taken for the page, the map goes astray. */
  ghost predicate MapStrays(s: Snapshot, root: nat, p: nat) {
    exists f: nat | Next(s, f) :: Strays(TakeOne(s, f), root, p)
  }

  lemma NextOne(s: Snapshot, root: nat, p: nat, f: nat)
    requires Next(s, f)
    ensures MapRoom(s, root, p) <==> Mappable(TakeOne(s, f), root, p)
    ensures MapStrays(s, root, p) <==> Strays(TakeOne(s, f), root, p)
    ensures |TakeOne(s, f).free| == |s.free| - 1
  {
    forall g: nat | Next(s, g)
      ensures g == f
    {
      FirstUnique(s.free, s.hint, |s.m| / 512, f, g);
    }
  }

  /** In room counted in frames: one for the page and one for each missing table, those low. */
  lemma RoomCounted(s: Snapshot, root: nat, p: nat, f: nat)
    requires Next(s, f)
    ensures MapRoom(s, root, p) <==>
      && !Translate(s.m, root, p).LargePage? && 1 + Missing(s.m, root, 4, p) <= |s.free|
      && LowFor(PoolOf(TakeOne(s, f)), Missing(s.m, root, 4, p))
  {
    NextOne(s, root, p, f);
  }

  const USER_PAGE: Word := 1 + VM_WRITE + VM_USER

  /** SYS_MAP: a fresh frame at the page of `va`. */
  method SysMap(mmu: Mmu, va: Word, ghost reserved: set<nat>) returns (r: int)
    requires mmu.Valid() && Exclusive(mmu.Snap(), mmu.root, reserved)
    modifies mmu`nodes, mmu.ram, mmu.pmm, mmu.pmm.bitmap
    ensures mmu.Valid() && SysMapped(old(mmu.Snap()), mmu.Snap(), mmu.root, reserved, PageOf(va), r)
  {
    PageOfAligned(va);
    r := MapFresh(mmu, va / 4096 * 4096, PageOf(va), reserved);
  }

  /** A frame has been taken for page p and one for each table it lacked, and no table more was made. */
  ghost predicate TookFor(s: Snapshot, s': Snapshot, root: nat, p: nat) {
    && Supplied(s.m, s'.m, root, p) && Missing(s'.m, root, 4, p) == 0
    && exists f: nat | Next(s, f) :: LowTaken(PoolOf(TakeOne(s, f)), Missing(s.m, root, 4, p), PoolOf(s'))
  }

  /** Page p is mapped, and open to user code for reading and writing as far as its path allows. */
  ghost predicate UserPage(m: Ram, root: nat, p: nat) {
    var x, r := Translate(m, root, p), RightsOf(m, root, p);
    x.Page? && x.write == r.write && x.user == r.user
  }

  lemma UserPageGranted(s1: Snapshot, s': Snapshot, root: nat, p: nat, f: nat)
    requires p < PAGES && f < 0x100_0000_0000 && Mapped(s1, s', root, p, f * 4096, USER_PAGE)
    ensures UserPage(s'.m, root, p)
  {
    AsksForBoth();
  }

  lemma AsksForBoth()
    ensures USER_PAGE / VM_WRITE % 2 == 1 && USER_PAGE / VM_USER % 2 == 1
  {
  }

  /** What SYS_MAP of page p comes to: it succeeds exactly when there is room, and then the page
      has a frame that was free, open to user code as far as its path allows, and just that and the missing tables are taken; otherwise no
      translation changes, and the frame taken for the page is lost. */
  ghost predicate SysMapped(s: Snapshot, s': Snapshot, root: nat, reserved: set<nat>, p: nat, r: int) {
    && Exclusive(s', root, reserved) && KeepsOutside(s, s', root, {p})
    && (forall q: nat | q < PAGES :: RightsOf(s'.m, root, q) == RightsOf(s.m, root, q))
    && |s'.m| == |s.m| && s'.free <= s.free && FewerMissing(s.m, s'.m, root)
    && (r == 0 || r == -1 || r == STRAY) && (r == 0 <==> MapRoom(s, root, p)) && (r == STRAY <==> MapStrays(s, root, p))
    && (r == 0 ==> UserPage(s'.m, root, p) && exists f: nat | f in s.free :: MapsTo(s', root, p, f))
    && (r == 0 ==> TookFor(s, s', root, p) && |s'.free| == |s.free| - 1 - Missing(s.m, root, 4, p))
    && (r != 0 ==> SameView(s.m, s'.m, root))
    && (r != 0 && s.free != {} ==> exists f: nat | Next(s, f) :: Leaked(s', root, f))
    && (r == -1 && s.free != {} ==> if Translate(s.m, root, p).LargePage? then |s'.free| == |s.free| - 1 else s'.free == {})
    && (s.free == {} ==> r == -1 && s'.free == {})
  }

  /** Frame f is neither free nor a table nor mapped: nothing will ever use it again. */
  ghost predicate Leaked(s: Snapshot, root: nat, f: nat) {
    && f !in s.free && f !in s.nodes
    && forall p: nat | p < PAGES && Translate(s.m, root, p).Page? :: Translate(s.m, root, p).frame != f
  }

  lemma LeakedFrame(s: Snapshot, s': Snapshot, root: nat, f: nat)
    requires Safe(s, root) && s.nodes.Keys !! s.free && f in s.free
    requires Grown(TakeOne(s, f), s') && SameView(s.m, s'.m, root)
    ensures Leaked(s', root, f)
  {
    forall p: nat | p < PAGES && Translate(s'.m, root, p).Page?
      ensures Translate(s'.m, root, p).frame != f
    {
      assert Owned(s, Translate(s.m, root, p).frame);
    }
  }

  lemma LowMapped(s: Snapshot, s': Snapshot, root: nat, p: nat, pa: Word, flags: Word)
    requires Mapped(s, s', root, p, pa, flags)
    ensures |s'.free| == |s.free| - Missing(s.m, root, 4, p)
  {
    LowTakenRest(PoolOf(s), Missing(s.m, root, 4, p), PoolOf(s'), 0);
  }

  /** The frame for a page, or 0. */
  method TakeForPage(mmu: Mmu) returns (addr: Word)
    requires mmu.Valid()
    modifies mmu.pmm, mmu.pmm.bitmap
    ensures mmu.Valid() && addr == addr / 4096 * 4096 && addr / 4096 < 0x100_0000_0000
    ensures addr == 0 ==> mmu.Snap() == old(mmu.Snap()) && mmu.pmm.free == {} && Owned(mmu.Snap(), 0)
    ensures addr != 0 ==> Next(old(mmu.Snap()), addr / 4096) && mmu.Snap() == TakeOne(old(mmu.Snap()), addr / 4096)
    ensures addr != 0 ==> 512 * (addr / 4096) + 512 <= mmu.ram.Length
  {
    var a := mmu.pmm.AllocFrame();
    FitsWord(a);
    addr := a;
  }

  method MapFresh(mmu: Mmu, va: Word, ghost p: nat, ghost reserved: set<nat>) returns (r: int)
    requires mmu.Valid() && Exclusive(mmu.Snap(), mmu.root, reserved) && p == PageOf(va)
    modifies mmu`nodes, mmu.ram, mmu.pmm, mmu.pmm.bitmap
    ensures mmu.Valid() && SysMapped(old(mmu.Snap()), mmu.Snap(), mmu.root, reserved, p, r)
  {
    ghost var s := mmu.Snap();
    var addr := TakeForPage(mmu);
    if addr == 0 {
      return -1;
    }
    ghost var f := addr / 4096;
    NextOne(s, mmu.root, p, f);
    r := mmu.VmmMap(va, addr, USER_PAGE);
    FreshMapped(s, mmu.Snap(), mmu.root, reserved, p, f, r);
  }

  lemma FreshMapped(s: Snapshot, s': Snapshot, root: nat, reserved: set<nat>, p: nat, f: nat, r: int)
    requires Exclusive(s, root, reserved) && s.nodes.Keys !! s.free && Next(s, f)
    requires f < 0x100_0000_0000 && 512 * f + 512 <= |s.m| && p < PAGES
    requires Grown(TakeOne(s, f), s') && (r == 0 || r == -1 || r == STRAY)
    requires r == 0 <==> Mappable(TakeOne(s, f), root, p)
    requires r == STRAY <==> Strays(TakeOne(s, f), root, p)
    requires r == 0 ==> Mapped(TakeOne(s, f), s', root, p, f * 4096, USER_PAGE)
    requires r == -1 ==> Unchanged(TakeOne(s, f), s', root, p)
    requires r == STRAY ==> Lost(TakeOne(s, f), s', root, p)
    ensures SysMapped(s, s', root, reserved, p, r)
  {
    NextOne(s, root, p, f);
    MapKeepsExclusive(s, s', root, reserved, p, f, USER_PAGE);
    if r == 0 {
      LowMapped(TakeOne(s, f), s', root, p, f * 4096, USER_PAGE);
      SuppliedFewer(s.m, s'.m, root, p);
      UserPageGranted(TakeOne(s, f), s', root, p, f);
    } else {
      LeakedFrame(s, s', root, f);
    }
  }

  /** A byte store through the page tables, to byte k of page p; it fails, as a page fault, where
      no page is mapped. */
  method StoreByte(mmu: Mmu, va: Word, b: Byte, ghost p: nat, ghost k: nat) returns (ok: bool)
    requires mmu.Valid() && Safe(mmu.Snap(), mmu.root) && p == PageOf(va) && k == va % 4096
    requires !Translate(mmu.ram[..], mmu.root, p).LargePage?
    modifies mmu.ram
    ensures mmu.Valid() && Safe(mmu.Snap(), mmu.root)
    ensures SameView(old(mmu.ram[..]), mmu.ram[..], mmu.root) && SameMissing(old(mmu.ram[..]), mmu.ram[..], mmu.root)
    ensures ok <==> Translate(old(mmu.ram[..]), mmu.root, p).Page?
    ensures ok ==> ByteStored(old(mmu.ram[..]), mmu.ram[..], Translate(old(mmu.ram[..]), mmu.root, p).frame, k, b)
    ensures !ok ==> mmu.ram[..] == old(mmu.ram[..])
  {
    match Translate(mmu.ram[..], mmu.root, PageOf(va)) {
      case Page(f, _, _) =>
        ghost var m := mmu.ram[..];
        assert Owned(mmu.Snap(), f);
        StoreInFrame(mmu, f, va % 4096, b);
        SameViewKeeps(Snapshot(m, mmu.nodes, mmu.pmm.free, mmu.pmm.allocHint), mmu.Snap(), mmu.root, {});
        return true;
      case _ =>
        return false;
    }
  }

  method StoreInFrame(mmu: Mmu, f: nat, k: nat, b: Byte)
    requires mmu.Valid() && Owned(mmu.Snap(), f) && k < 4096
    modifies mmu.ram
    ensures mmu.Valid()
    ensures SameView(old(mmu.ram[..]), mmu.ram[..], mmu.root) && SameMissing(old(mmu.ram[..]), mmu.ram[..], mmu.root)
    ensures ByteStored(old(mmu.ram[..]), mmu.ram[..], f, k, b)
  {
    ghost var m := mmu.ram[..];
    assert mmu.ram[512 * f + k / 8] == Entry(m, f, k / 8);
    var w := SetByte(mmu.ram[512 * f + k / 8], k % 8, b);
    mmu.SetEntry(f, k / 8, w);
    DataKeepsView(m, mmu.ram[..], mmu.root, mmu.nodes, f, k / 8, w);
    StoreIsByteStore(m, mmu.ram[..], f, k, b);
  }
}
