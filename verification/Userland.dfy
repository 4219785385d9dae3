/** User memory from start-up on: the allocator and the tables are set up, the boot programs are
    loaded, and then any SYS_MAP calls follow, as programs and the pager make them. */
module Userland {
  import opened Words
  import opened FrameAllocator
  import opened PageTable
  import opened Paging
  import opened UserMemory
  import opened ZeroMaps
  import opened MapRuns
  import opened Loader

  // ---- what the boot programs need ----

  ghost function AllPages(images: seq<seq<Byte>>): set<nat>
    requires |images| == PROG_COUNT
  {
    PagesUpTo(images, PROG_COUNT)
  }

  predicate Small(images: seq<seq<Byte>>) {
    |images| == PROG_COUNT && forall x | x in images :: |x| <= IMG_BYTES
  }

  lemma {:induction false} PageOfSome(images: seq<seq<Byte>>, n: nat, p: nat)
    requires Small(images) && n <= PROG_COUNT && p in PagesUpTo(images, n)
    ensures exists i | 0 <= i < n :: p in ProgPages(ProgAt(images, i))
  {
    if p !in ProgPages(ProgAt(images, n - 1)) {
      PageOfSome(images, n - 1, p);
    }
  }

  /** The places of the tables that serve a page of program i. */
  lemma ProgPrefixes(images: seq<seq<Byte>>, i: nat, p: nat)
    requires Small(images) && i < PROG_COUNT && p in ProgPages(ProgAt(images, i))
    ensures 0x4_0000_0000 <= p < PAGES
    ensures Prefix(p, 3) == 128 && Prefix(p, 2) == 0x1_0000 && Prefix(p, 1) == 0x200_0000 + SLOTS[i] / 2
  {
    ProgPlaces(images, i);
    var d := p - 0x4_0000_0000 - SLOTS[i] * 256;
    assert 0 <= d < 128 && SLOTS[i] <= 13;
    assert p / 512 == 0x200_0000 + (SLOTS[i] * 256 + d) / 512;
    assert (SLOTS[i] * 256 + d) / 512 == SLOTS[i] / 2;
  }

  /** One table of level 3, one of level 2 and seven of level 1. */
  function BootPlaces(): set<(nat, nat)> {
    {(3, 128), (2, 0x1_0000), (1, 0x200_0000), (1, 0x200_0001), (1, 0x200_0002), (1, 0x200_0003),
     (1, 0x200_0004), (1, 0x200_0005), (1, 0x200_0006)}
  }

  ghost predicate AtBoot(m: Ram, root: nat) {
    && (forall p: nat | p < PAGES :: Translate(m, root, p) == BootMapping(p))
    && (forall p: nat | p < PAGES :: RightsOf(m, root, p) == BootRights(p))
    && (forall p: nat | p < PAGES :: Missing(m, root, 4, p) == BootMissing(p))
  }

  lemma PlaceLacking(m: Ram, root: nat, images: seq<seq<Byte>>, i: nat, k: nat)
    requires AtBoot(m, root) && Small(images) && i < PROG_COUNT && 1 <= k <= 3
    ensures (k, if k == 3 then 128 else if k == 2 then 0x1_0000 else 0x200_0000 + SLOTS[i] / 2) in Lacking(m, root, AllPages(images))
  {
    var p := ImagePage(ProgAt(images, i));
    assert p in ProgPages(ProgAt(images, i)) by { assert InRange(p, p, IMG_PAGES); }
    ProgPrefixes(images, i, p);
    HasAllPages(images, PROG_COUNT);
    assert Lacks(m, root, p, k);
  }

  lemma LackingKnown(m: Ram, root: nat, images: seq<seq<Byte>>)
    requires Small(images)
    ensures Lacking(m, root, AllPages(images)) <= BootPlaces()
  {
    forall x | x in Lacking(m, root, AllPages(images))
      ensures x in BootPlaces()
    {
      var p: nat, k: nat :| p in AllPages(images) && p < PAGES && k <= 3 && Lacks(m, root, p, k) && x == (k, Prefix(p, k));
      PlaceKnown(images, p, k);
    }
  }

  lemma PlaceKnown(images: seq<seq<Byte>>, p: nat, k: nat)
    requires Small(images) && p in AllPages(images) && 1 <= k <= 3
    ensures (k, Prefix(p, k)) in BootPlaces()
  {
    PageOfSome(images, PROG_COUNT, p);
    var i :| 0 <= i < PROG_COUNT && p in ProgPages(ProgAt(images, i));
    ProgPrefixes(images, i, p);
    SlotHalves(i);
    PlaceListed(SLOTS[i] / 2);
  }

  lemma SlotHalves(i: nat)
    requires i < PROG_COUNT
    ensures SLOTS[i] / 2 <= 6
  {
  }

  lemma PlaceListed(j: nat)
    requires j <= 6
    ensures (1, 0x200_0000 + j) in BootPlaces()
  {
  }

  /** After boot the programs lack nine tables: one program serves for each. */
  lemma NineTables(m: Ram, root: nat, images: seq<seq<Byte>>)
    requires AtBoot(m, root) && Small(images)
    ensures |Lacking(m, root, AllPages(images))| == 9
  {
    LackingKnown(m, root, images);
    forall x | x in BootPlaces()
      ensures x in Lacking(m, root, AllPages(images))
    {
      PlaceWanted(m, root, images, x);
    }
    NineOf(Lacking(m, root, AllPages(images)));
  }

  /** Every such table serves a page of some program. */
  lemma PlaceWanted(m: Ram, root: nat, images: seq<seq<Byte>>, x: (nat, nat))
    requires AtBoot(m, root) && Small(images) && x in BootPlaces()
    ensures x in Lacking(m, root, AllPages(images))
  {
    if x.0 > 1 {
      PlaceLacking(m, root, images, 0, x.0);
    } else {
      var j := x.1 - 0x200_0000;
      var holders := [0, 2, 4, 5, 7, 9, 10];
      assert SLOTS[holders[j]] / 2 == j;
      PlaceLacking(m, root, images, holders[j], 1);
    }
  }

  lemma NineOf(lack: set<(nat, nat)>)
    requires lack <= BootPlaces() <= lack
    ensures |lack| == 9
  {
    assert lack == BootPlaces();
  }

  /** The boot state meets what rootfs_load_all asks of memory. */
  lemma BootReady(s: Snapshot, root: nat, reserved: Reserved, images: seq<seq<Byte>>)
    requires AtBoot(s.m, root) && s.free !! reserved && Small(images)
    ensures Exclusive(s, root, reserved) && NoLargePages(s.m, root, AllPages(images)) && HasPages(AllPages(images), images)
  {
    forall p: nat | p in AllPages(images) && p < PAGES
      ensures !Translate(s.m, root, p).LargePage?
    {
      PageOfSome(images, PROG_COUNT, p);
      var i :| 0 <= i < PROG_COUNT && p in ProgPages(ProgAt(images, i));
      ProgPrefixes(images, i, p);
    }
    HasAllPages(images, PROG_COUNT);
  }

  /** Twelve programs of twenty pages, and nine tables. */
  const BOOT_FRAMES: nat := 249

  /** User code can read and write every page of the program. */
  ghost predicate Accessible(m: Ram, root: nat, pr: Prog)
    requires STK_BYTES <= pr.stackTop
  {
    forall p | p in ProgPages(pr) :: Translate(m, root, p).Page? && Translate(m, root, p).write && Translate(m, root, p).user
  }

  lemma LoadedAccessible(m: Ram, root: nat, images: seq<seq<Byte>>, i: nat)
    requires Small(images) && i < PROG_COUNT && Loaded(m, root, ProgAt(images, i))
    requires forall p: nat | p < PAGES :: RightsOf(m, root, p) == BootRights(p)
    ensures Accessible(m, root, ProgAt(images, i))
  {
    var pr := ProgAt(images, i);
    forall p | p in ProgPages(pr)
      ensures Translate(m, root, p).Page? && Translate(m, root, p).write && Translate(m, root, p).user
    {
      ProgPrefixes(images, i, p);
      assert InRange(p, ImagePage(pr), IMG_PAGES) || InRange(p, StackPage(pr), STK_PAGES);
      assert UserPage(m, root, p);
    }
  }

  /** The outcome of boot: all allocations succeed exactly if 249 frames are free, unless a table
      falls above the first GiB, which it does not if those frames are all below. */
  ghost predicate Booted(s: Snapshot, fate: Fate, fed: bool) {
    && (!fate.Strayed? ==> (fed <==> BOOT_FRAMES <= |s.free|))
    && (fate.Strayed? ==> !fed && !LowFor(PoolOf(s), BOOT_FRAMES))
  }

  lemma BootCounted(s: Snapshot, s': Snapshot, root: nat, reserved: Reserved, images: seq<seq<Byte>>, fate: Fate, fed: bool)
    requires AtBoot(s.m, root) && Small(images)
    requires LoadState(s, s', root, reserved, AllPages(images), images, PROG_COUNT, fate, fed)
    ensures Booted(s, fate, fed)
  {
    NineTables(s.m, root, images);
    if fed {
      NoneLackingNow(s'.m, root, images);
    }
  }

  lemma NoneLackingNow(m: Ram, root: nat, images: seq<seq<Byte>>)
    requires Small(images) && forall i | 0 <= i < PROG_COUNT :: NoTablesMissing(m, root, ProgPages(ProgAt(images, i)))
    ensures Lacking(m, root, AllPages(images)) == {}
  {
    forall p: nat | p in AllPages(images) && p < PAGES
      ensures Missing(m, root, 4, p) == 0
    {
      PageOfSome(images, PROG_COUNT, p);
    }
    NothingLacking(m, root, AllPages(images));
  }

  /** From the boot state. If every allocation of the loader succeeds, then after any SYS_MAP calls
      every mapped page has a frame of its own, and every program whose pages no call has named is
      loaded, and its pages are open to user code. */
  method BootAndRun(mmu: Mmu, images: seq<seq<Byte>>, vas: seq<Word>, ghost reserved: Reserved)
    returns (fate: Fate, fed: bool, rs: seq<int>)
    requires mmu.Valid() && Small(images) && AtBoot(mmu.ram[..], mmu.root) && mmu.pmm.free !! reserved
    modifies mmu`nodes, mmu.ram, mmu.pmm, mmu.pmm.bitmap
    ensures mmu.Valid() && Booted(old(mmu.Snap()), fate, fed) && |rs| <= |vas|
    ensures fed ==> Exclusive(mmu.Snap(), mmu.root, reserved) && ProgramsStand(mmu.ram[..], mmu.root, images, vas[..|rs|])
    ensures fed && |rs| < |vas| ==> STRAY in rs
    ensures fed ==> MappedOpen(mmu.ram[..], mmu.root, vas, rs)
    ensures fed && AllFreeLow(old(mmu.Snap())) ==> STRAY !in rs
  {
    ghost var s := mmu.Snap();
    BootReady(s, mmu.root, reserved, images);
    fate, fed := RootfsLoadAll(mmu, images, AllPages(images), reserved);
    ghost var s1 := mmu.Snap();
    BootCounted(s, s1, mmu.root, reserved, images, fate, fed);
    rs := [];
    if fed {
      rs := MapAll(mmu, vas, s1, reserved);
      StandAfter(s, s1, mmu.Snap(), mmu.root, reserved, images, vas[..|rs|]);
      BootOpens(s, s1, mmu.Snap(), mmu.root, vas, rs);
    }
  }

  /** The pages above 512 GiB that SYS_MAP calls have mapped can be read and written by user code. */
  ghost predicate MappedOpen(m: Ram, root: nat, vas: seq<Word>, rs: seq<int>) {
    forall j | 0 <= j < |rs| && j < |vas| && rs[j] == 0 && PageOf(vas[j]) >= 0x800_0000 ::
      var x := Translate(m, root, PageOf(vas[j])); x.Page? && x.write && x.user
  }

  lemma BootOpens(s: Snapshot, s1: Snapshot, s2: Snapshot, root: nat, vas: seq<Word>, rs: seq<int>)
    requires AtBoot(s.m, root) && SameRights(s.m, s1.m, root) && Tame(s1, s2, root) && GoodOpen(s2.m, root, vas, rs)
    ensures MappedOpen(s2.m, root, vas, rs)
  {
    forall j | 0 <= j < |rs| && j < |vas| && rs[j] == 0 && PageOf(vas[j]) >= 0x800_0000
      ensures var x := Translate(s2.m, root, PageOf(vas[j])); x.Page? && x.write && x.user
    {
      var p := PageOf(vas[j]);
      assert UserPage(s2.m, root, p) && RightsOf(s2.m, root, p) == BootRights(p);
    }
  }

  ghost predicate ProgramsStand(m: Ram, root: nat, images: seq<seq<Byte>>, vas: seq<Word>)
    requires |images| == PROG_COUNT
  {
    forall i | 0 <= i < PROG_COUNT && ProgPages(ProgAt(images, i)) !! PagesOf(vas) ::
      Loaded(m, root, ProgAt(images, i)) && Accessible(m, root, ProgAt(images, i))
  }

  lemma StandAfter(s: Snapshot, s1: Snapshot, s2: Snapshot, root: nat, reserved: Reserved, images: seq<seq<Byte>>, vas: seq<Word>)
    requires AtBoot(s.m, root) && Small(images) && ProgsLoaded(s, s1, root, reserved, AllPages(images), images, PROG_COUNT)
    requires SameRights(s.m, s1.m, root) && Served(s1, s2, root, reserved, vas)
    ensures ProgramsStand(s2.m, root, images, vas)
  {
    forall i | 0 <= i < PROG_COUNT && ProgPages(ProgAt(images, i)) !! PagesOf(vas)
      ensures Loaded(s2.m, root, ProgAt(images, i)) && Accessible(s2.m, root, ProgAt(images, i))
    {
      ProgPlaces(images, i);
      LoadedKept(s1, s2, root, ProgAt(images, i), PagesOf(vas));
      LoadedAccessible(s2.m, root, images, i);
    }
  }

  // ---- the whole start-up ----

  /** The frames below the end of the bitmap: low memory, the kernel with the boot tables, and the
      bitmap. */
  ghost function KernelFrames(kernelEnd: Word, total: nat): Reserved {
    set f: nat | f < total && f * 4096 < BitmapEnd(kernelEnd, total)
  }

  /** The frames that are free after pmm_init. */
  ghost function FreeAtStart(kernelEnd: Word, regions: seq<Region>, total: nat): set<nat> {
    set f: nat | f < total && Reported(f, regions, |regions|) && BitmapEnd(kernelEnd, total) <= f * 4096
  }

  /** A frame of the kernel image. */
  predicate InKernel(t: nat, kernelEnd: Word) {
    0 < t && t * 4096 + 4096 <= kernelEnd
  }

  lemma KernelNotFree(kernelEnd: Word, total: nat, ramTop: Word)
    requires kernelEnd + ramTop + 2 * 4096 < TWO_64 && total == ramTop / 4096
    ensures kernelEnd <= BitmapEnd(kernelEnd, total)
  {
    PageAlignUpExact(kernelEnd);
    PageAlignUpExact(PageAlignUp(kernelEnd) + (total + 7) / 8);
  }

  /** From the memory map on: the allocator is set up over the reported regions, the boot tables lie
      in the kernel image, and the programs are loaded into what is free. The kernel and its bitmap
      lie in the first GiB, where start-up code can reach them. */
  method StartUp(kernelEnd: Word, regions: seq<Region>, ramTop: Word, ram: array<Word>, pml4: nat, pdpt: nat, pd: nat,
                 images: seq<seq<Byte>>, vas: seq<Word>) returns (mmu: Mmu, fate: Fate, fed: bool, rs: seq<int>)
    requires kernelEnd + ramTop + 2 * 4096 < TWO_64 && forall r | r in regions :: NoWrap(r)
    requires ramTop / 4096 <= 0x100_0000_0000 && ram.Length == 512 * (ramTop / 4096)
    requires InKernel(pml4, kernelEnd) && InKernel(pdpt, kernelEnd) && InKernel(pd, kernelEnd)
    requires pml4 != pdpt && pml4 != pd && pdpt != pd && kernelEnd <= ramTop
    requires BitmapEnd(kernelEnd, ramTop / 4096) <= LOW * 4096
    requires ZeroTable(ram[..], pml4) && ZeroTable(ram[..], pdpt) && Small(images)
    modifies ram
    ensures mmu.Valid() && mmu.root == pml4 && mmu.ram == ram && |rs| <= |vas|
    ensures !fate.Strayed? ==> (fed <==> BOOT_FRAMES <= |FreeAtStart(kernelEnd, regions, ramTop / 4096)|)
    ensures ramTop <= LOW * 4096 ==> !fate.Strayed? && (fed ==> |rs| == |vas| && STRAY !in rs)
    ensures fed ==>
      && Exclusive(mmu.Snap(), mmu.root, KernelFrames(kernelEnd, ramTop / 4096))
      && ProgramsStand(mmu.ram[..], mmu.root, images, vas[..|rs|]) && MappedOpen(mmu.ram[..], mmu.root, vas, rs)
    ensures fed && |rs| < |vas| ==> STRAY in rs
  {
    var pmm := new Pmm.Init(kernelEnd, regions, ramTop);
    ghost var reserved := KernelFrames(kernelEnd, pmm.total);
    assert pmm.free == FreeAtStart(kernelEnd, regions, pmm.total);
    KernelNotFree(kernelEnd, pmm.total, ramTop);
    mmu := new Mmu.Boot(ram, pmm, pml4, pdpt, pd);
    ghost var s := mmu.Snap();
    if ramTop <= LOW * 4096 {
      AllLow(PoolOf(s), BOOT_FRAMES);
    }
    fate, fed, rs := BootAndRun(mmu, images, vas, reserved);
  }
}
