/** Loading the boot programs (kernel/proc.c): each gets a zeroed image region and a zeroed stack
    at its link address, and its flat binary is copied in through the page tables. */
module Loader {
  import opened Options
  import opened Words
  import opened FrameAllocator
  import opened PageTable
  import opened Paging
  import opened UserMemory
  import opened ZeroMaps

  const IMG_BYTES: nat := 0x10000
  const STK_BYTES: nat := 0x4000
  const STK_OFFSET: nat := 0x80000

  // ---- one program ----

  /** Byte k of page q. */
  function PageByte(m: Ram, root: nat, q: nat, k: nat): Option<Byte> {
    match Translate(m, root, q)
    case Page(f, _, _) => Some(ByteOf(m, f, k))
    case _ => None
  }

  /** Byte x of an image region of which the first i bytes are filled in. */
  function ImageByte(image: seq<Byte>, i: nat, x: int): Byte
    requires i <= |image|
  {
    if 0 <= x < i then image[x] else 0
  }

  /** The n pages from page a hold the first i bytes of the image, then zeros. */
  ghost predicate Holds(m: Ram, root: nat, a: nat, n: nat, image: seq<Byte>, i: nat)
    requires i <= |image|
  {
    forall q: nat, k: nat | InRange(q, a, n) && k < 4096 ::
      PageByte(m, root, q, k) == Some(ImageByte(image, i, (q - a) * 4096 + k))
  }

  /** What a region holds is what reading its addresses gives. */
  lemma HoldsMeansLoads(m: Ram, root: nat, va: Word, pages: nat, image: seq<Byte>, i: nat, x: nat)
    requires WholePages(va, pages) && x < pages * 4096 && i <= |image| && Holds(m, root, PageOf(va), pages, image, i)
    ensures va + x < TWO_64 && Load(m, root, va + x) == Some(if x < i then image[x] else 0)
  {
    RegionAddress(va, pages, x);
    var q := PageOf(va) + x / 4096;
    assert InRange(q, PageOf(va), pages);
    assert PageByte(m, root, q, x % 4096) == Some(ImageByte(image, i, (q - PageOf(va)) * 4096 + x % 4096));
  }

  lemma ZeroPagesHold(m: Ram, root: nat, a: nat, pages: nat, image: seq<Byte>)
    requires ZeroPages(m, root, a, pages)
    ensures Holds(m, root, a, pages, image, 0)
  {
    forall q: nat, k: nat | InRange(q, a, pages) && k < 4096
      ensures PageByte(m, root, q, k) == Some(0)
    {
      assert ZeroPage(m, root, q);
    }
  }

  /** Filling in byte i of the image, byte k of page p. */
  lemma CopyStep(s: Snapshot, m: Ram, root: nat, reserved: Reserved, a: nat, n: nat, image: seq<Byte>, i: nat, p: nat, k: nat)
    requires i < |image| && InRange(p, a, n) && k < 4096 && i == (p - a) * 4096 + k && a + n < PAGES && Exclusive(s, root, reserved)
    requires Holds(s.m, root, a, n, image, i) && SameView(s.m, m, root) && Translate(s.m, root, p).Page?
    requires ByteStored(s.m, m, Translate(s.m, root, p).frame, k, image[i])
    ensures Holds(m, root, a, n, image, i + 1)
  {
    forall q: nat, j: nat | InRange(q, a, n) && j < 4096
      ensures PageByte(m, root, q, j) == Some(ImageByte(image, i + 1, (q - a) * 4096 + j))
    {
      assert PageByte(s.m, root, q, j) == Some(ImageByte(image, i, (q - a) * 4096 + j));
      assert Translate(m, root, q) == Translate(s.m, root, q);
    }
  }

  lemma CopyKeeps(s: Snapshot, s1: Snapshot, s2: Snapshot, root: nat, reserved: Reserved, touched: set<nat>, p: nat, k: nat, b: Byte)
    requires KeepsOutside(s, s1, root, touched) && p in touched && p < PAGES && Exclusive(s1, root, reserved)
    requires Translate(s1.m, root, p).Page? && SameView(s1.m, s2.m, root)
    requires ByteStored(s1.m, s2.m, Translate(s1.m, root, p).frame, k, b)
    ensures KeepsOutside(s, s2, root, touched)
  {
    forall q: nat | q < PAGES && q !in touched && Translate(s.m, root, q).Page?
      ensures SameBytes(s.m, s2.m, Translate(s.m, root, q).frame)
    {
      assert SameBytes(s.m, s1.m, Translate(s.m, root, q).frame);
    }
  }

  /** Up to byte i the copy into region [a, a + n) has gone well: each page has a frame of its own, the
      region holds that much of the image, and nothing else has changed since s. */
  ghost predicate Copied(s: Snapshot, s': Snapshot, root: nat, reserved: Reserved, a: nat, n: nat, image: seq<Byte>, i: nat) {
    && i <= |image| && Exclusive(s', root, reserved) && Holds(s'.m, root, a, n, image, i)
    && KeepsOutside(s, s', root, Range(a, n))
  }

  /** The copy loop of load_one: byte i of the image goes to address base + i. It faults where no page
      is mapped; into a zeroed region it gets through, whole. */
  method CopyImage(mmu: Mmu, base: Word, image: seq<Byte>, pages: nat, ghost reserved: Reserved) returns (ok: bool)
    requires mmu.Valid() && Safe(mmu.Snap(), mmu.root)
    requires WholePages(base, pages) && PageOf(base) + pages < PAGES && |image| <= pages * 4096
    requires NoLargePages(mmu.ram[..], mmu.root, PagesFrom(base, pages))
    modifies mmu.ram
    ensures mmu.Valid() && Safe(mmu.Snap(), mmu.root) && SameTables(old(mmu.ram[..]), mmu.ram[..], mmu.root)
    ensures AllMapped(old(mmu.ram[..]), mmu.root, PageOf(base), pages) ==> ok
    ensures Copied(old(mmu.Snap()), old(mmu.Snap()), mmu.root, reserved, PageOf(base), pages, image, 0) ==>
      ok && Copied(old(mmu.Snap()), mmu.Snap(), mmu.root, reserved, PageOf(base), pages, image, |image|)
  {
    ghost var s, a := mmu.Snap(), PageOf(base);
    ghost var good := Copied(s, s, mmu.root, reserved, a, pages, image, 0);
    var i := 0;
    while i < |image|
      invariant 0 <= i <= |image| && mmu.Valid() && Safe(mmu.Snap(), mmu.root) && SameTables(s.m, mmu.ram[..], mmu.root)
      invariant good ==> Copied(s, mmu.Snap(), mmu.root, reserved, a, pages, image, i)
    {
      ok := CopyNext(mmu, base, image, i, good, s, pages, reserved);
      if !ok {
        return;
      }
      i := i + 1;
    }
    ok := true;
  }

  /** Byte i of the image. */
  method CopyNext(mmu: Mmu, base: Word, image: seq<Byte>, i: nat, ghost good: bool,
                  ghost s: Snapshot, ghost pages: nat, ghost reserved: Reserved) returns (ok: bool)
    requires mmu.Valid() && Safe(mmu.Snap(), mmu.root) && SameTables(s.m, mmu.ram[..], mmu.root)
    requires WholePages(base, pages) && PageOf(base) + pages < PAGES && i < |image| <= pages * 4096
    requires NoLargePages(s.m, mmu.root, PagesFrom(base, pages))
    requires good ==> Copied(s, mmu.Snap(), mmu.root, reserved, PageOf(base), pages, image, i)
    modifies mmu.ram
    ensures mmu.Valid() && Safe(mmu.Snap(), mmu.root) && SameTables(s.m, mmu.ram[..], mmu.root)
    ensures AllMapped(s.m, mmu.root, PageOf(base), pages) ==> ok
    ensures good ==> ok && Copied(s, mmu.Snap(), mmu.root, reserved, PageOf(base), pages, image, i + 1)
  {
    ghost var m := mmu.ram[..];
    CopyAddress(s.m, m, mmu.root, base, pages, i);
    ok := CopyByte(mmu, base + i, image, i, good, s, PageOf(base), pages, PageOf(base) + i / 4096, i % 4096, reserved);
    SameTablesTrans(s.m, m, mmu.ram[..], mmu.root);
  }

  lemma SameTablesTrans(m: Ram, m1: Ram, m2: Ram, root: nat)
    requires SameTables(m, m1, root) && SameTables(m1, m2, root)
    ensures SameTables(m, m2, root)
  {
  }

  lemma CopyAddress(m: Ram, m': Ram, root: nat, base: Word, pages: nat, i: nat)
    requires NoLargePages(m, root, PagesFrom(base, pages)) && SameTables(m, m', root) && WholePages(base, pages)
    requires i < pages * 4096 && PageOf(base) + pages < PAGES
    ensures base + i < TWO_64 && PageOf(base + i) == PageOf(base) + i / 4096 && (base + i) % 4096 == i % 4096
    ensures i == i / 4096 * 4096 + i % 4096 && InRange(PageOf(base) + i / 4096, PageOf(base), pages)
    ensures !Translate(m', root, PageOf(base) + i / 4096).LargePage?
  {
    RegionAddress(base, pages, i);
    InArea(PageOf(base), i / 4096, pages, PagesFrom(base, pages));
  }

  method CopyByte(mmu: Mmu, va: Word, image: seq<Byte>, i: nat, ghost good: bool,
                  ghost s: Snapshot, ghost a: nat, ghost n: nat, ghost p: nat, ghost k: nat, ghost reserved: Reserved)
    returns (ok: bool)
    requires mmu.Valid() && Safe(mmu.Snap(), mmu.root)
    requires p == PageOf(va) && k == va % 4096 && i == (p - a) * 4096 + k
    requires i < |image| && InRange(p, a, n) && a + n < PAGES && !Translate(mmu.ram[..], mmu.root, p).LargePage?
    requires good ==> Copied(s, mmu.Snap(), mmu.root, reserved, a, n, image, i)
    modifies mmu.ram
    ensures mmu.Valid() && Safe(mmu.Snap(), mmu.root) && SameTables(old(mmu.ram[..]), mmu.ram[..], mmu.root)
    ensures ok <==> Translate(old(mmu.ram[..]), mmu.root, p).Page?
    ensures good ==> ok && Copied(s, mmu.Snap(), mmu.root, reserved, a, n, image, i + 1)
  {
    ghost var s1 := mmu.Snap();
    ok := StoreByte(mmu, va, image[i], p, k);
    SameViewKeeps(s1, mmu.Snap(), mmu.root, reserved);
    if good {
      assert PageByte(s1.m, mmu.root, p, k).Some?;
      CopyStep(s1, mmu.ram[..], mmu.root, reserved, a, n, image, i, p, k);
      CopyKeeps(s, s1, mmu.Snap(), mmu.root, reserved, Range(a, n), p, k, image[i]);
    }
  }

  // ---- the boot programs ----

  const IMG_PAGES: nat := 16
  const STK_PAGES: nat := 4

  /** A binary and its link address, which is also its entry point. */
  datatype Prog = Prog(image: seq<Byte>, base: Word, stackTop: Word)

  /** An address range the loader can use: whole pages, the stack above the image. */
  ghost predicate Loadable(pr: Prog) {
    && |pr.image| <= IMG_BYTES && STK_BYTES <= pr.stackTop
    && WholePages(pr.base, IMG_PAGES) && WholePages(pr.stackTop - STK_BYTES, STK_PAGES)
    && PageOf(pr.base) + IMG_PAGES <= PageOf(pr.stackTop - STK_BYTES) && PageOf(pr.stackTop - STK_BYTES) + STK_PAGES < PAGES
  }

  function ImagePage(pr: Prog): nat { PageOf(pr.base) }

  function StackPage(pr: Prog): nat
    requires STK_BYTES <= pr.stackTop
  {
    PageOf(pr.stackTop - STK_BYTES)
  }

  function ProgPages(pr: Prog): set<nat>
    requires STK_BYTES <= pr.stackTop
  {
    Range(ImagePage(pr), IMG_PAGES) + Range(StackPage(pr), STK_PAGES)
  }

  /** The image region holds the binary followed by zeros, the stack is zero, and every page has the
      rights its path leaves, all of them above 512 GiB. */
  ghost predicate Loaded(m: Ram, root: nat, pr: Prog)
    requires STK_BYTES <= pr.stackTop
  {
    && Holds(m, root, ImagePage(pr), IMG_PAGES, pr.image, |pr.image|)
    && ZeroPages(m, root, StackPage(pr), STK_PAGES)
    && UserPages(m, root, ImagePage(pr), IMG_PAGES) && UserPages(m, root, StackPage(pr), STK_PAGES)
  }

  /** Reading a loaded program: its binary and then zeros at its base, and zeros in its stack. */
  lemma LoadedReads(m: Ram, root: nat, pr: Prog, x: nat)
    requires Loadable(pr) && Loaded(m, root, pr) && x < IMG_BYTES
    ensures pr.base + x < TWO_64 && Load(m, root, pr.base + x) == Some(if x < |pr.image| then pr.image[x] else 0)
    ensures x < STK_BYTES ==> pr.stackTop - 1 - x >= 0 && Load(m, root, pr.stackTop - 1 - x) == Some(0)
  {
    HoldsMeansLoads(m, root, pr.base, IMG_PAGES, pr.image, |pr.image|, x);
    if x < STK_BYTES {
      var bottom := pr.stackTop - STK_BYTES;
      ZeroPagesHold(m, root, StackPage(pr), STK_PAGES, []);
      HoldsMeansLoads(m, root, bottom, STK_PAGES, [], 0, STK_BYTES - 1 - x);
    }
  }

  ghost predicate SameRights(m: Ram, m': Ram, root: nat) {
    forall q: nat | q < PAGES :: RightsOf(m', root, q) == RightsOf(m, root, q)
  }

  /** Loading a program elsewhere does not disturb one that is loaded. */
  lemma LoadedKept(s: Snapshot, s': Snapshot, root: nat, pr: Prog, touched: set<nat>)
    requires Loadable(pr) && Loaded(s.m, root, pr) && KeepsOutside(s, s', root, touched) && touched !! ProgPages(pr)
    requires SameRights(s.m, s'.m, root)
    ensures Loaded(s'.m, root, pr)
  {
    forall q: nat, k: nat | InRange(q, ImagePage(pr), IMG_PAGES) && k < 4096
      ensures PageByte(s'.m, root, q, k) == PageByte(s.m, root, q, k)
    {
      assert q in ProgPages(pr);
      assert PageByte(s.m, root, q, k).Some?;
      assert SameBytes(s.m, s'.m, Translate(s.m, root, q).frame);
    }
    forall q: nat | InRange(q, StackPage(pr), STK_PAGES)
      ensures ZeroPage(s'.m, root, q)
    {
      assert q in ProgPages(pr);
      assert ZeroPage(s.m, root, q);
      assert SameBytes(s.m, s'.m, Translate(s.m, root, q).frame);
    }
    UserPagesKept(s, s', root, touched, ImagePage(pr), IMG_PAGES);
    UserPagesKept(s, s', root, touched, StackPage(pr), STK_PAGES);
  }

  lemma UserPagesKept(s: Snapshot, s': Snapshot, root: nat, touched: set<nat>, a: nat, n: nat)
    requires UserPages(s.m, root, a, n) && KeepsTranslation(s, s', root, touched) && SameRights(s.m, s'.m, root)
    requires touched !! Range(a, n) && a + n <= PAGES
    ensures UserPages(s'.m, root, a, n)
  {
    forall q: nat | InRange(q, a, n)
      ensures UserPage(s'.m, root, q)
    {
      assert UserPage(s.m, root, q) && q in Range(a, n);
    }
  }

  /** The pages that loading a program maps. */
  const PROG_PAGES: nat := 20

  /** What load_one comes to, counted over an area that contains the program. If every allocation and
      map succeeds, the program is loaded and nothing else has changed. */
  ghost predicate OneLoaded(s: Snapshot, s': Snapshot, root: nat, reserved: Reserved, area: set<nat>,
                            pr: Prog, fate: Fate, fed: bool)
    requires STK_BYTES <= pr.stackTop
  {
    && Safe(s', root) && KeepsTranslation(s, s', root, ProgPages(pr)) && Counted(s, s', root, area, PROG_PAGES, fate, fed)
    && (fed ==> NoTablesMissing(s'.m, root, ProgPages(pr)))
    && (fed && Exclusive(s, root, reserved) ==>
          Exclusive(s', root, reserved) && Loaded(s'.m, root, pr) && KeepsOutside(s, s', root, ProgPages(pr)))
  }

  ghost predicate NoTablesMissing(m: Ram, root: nat, pages: set<nat>) {
    forall p: nat | p in pages && p < PAGES :: Missing(m, root, 4, p) == 0
  }

  /** load_one. */
  method LoadOne(mmu: Mmu, pr: Prog, ghost area: set<nat>, ghost reserved: Reserved) returns (fate: Fate, fed: bool)
    requires mmu.Valid() && Safe(mmu.Snap(), mmu.root) && Loadable(pr) && ProgPages(pr) <= area
    requires NoLargePages(mmu.ram[..], mmu.root, ProgPages(pr))
    modifies mmu`nodes, mmu.ram, mmu.pmm, mmu.pmm.bitmap
    ensures mmu.Valid() && OneLoaded(old(mmu.Snap()), mmu.Snap(), mmu.root, reserved, area, pr, fate, fed)
  {
    ghost var s := mmu.Snap();
    fate, fed := MapZeroed(mmu, pr.base, IMG_PAGES, area, reserved);
    ghost var s1 := mmu.Snap();
    var fed1 := fed;
    if fate != Through {
      ImageStops(s, s1, mmu.root, reserved, area, pr, fate, fed);
      return;
    }
    StackReady(s, s1, mmu.root, pr);
    var fed2;
    fate, fed2 := MapZeroed(mmu, pr.stackTop - STK_BYTES, STK_PAGES, area, reserved);
    ghost var s2 := mmu.Snap();
    fed := fed1 && fed2;
    RegionsDone(s, s1, s2, mmu.root, reserved, area, pr, fate, fed1, fed2);
    if fate != Through {
      return;
    }
    CopyReady(s, s2, mmu.root, reserved, pr);
    var ok := CopyImage(mmu, pr.base, pr.image, IMG_PAGES, reserved);
    CopyDone(s, s2, mmu.Snap(), mmu.root, reserved, area, pr, fed);
  }

  /** Both regions are zeroed, or the code has stopped. */
  ghost predicate Prepared(s: Snapshot, s2: Snapshot, root: nat, reserved: Reserved, area: set<nat>,
                           pr: Prog, fate: Fate, fed: bool)
    requires STK_BYTES <= pr.stackTop
  {
    && Safe(s2, root) && KeepsTranslation(s, s2, root, ProgPages(pr)) && Counted(s, s2, root, area, PROG_PAGES, fate, fed)
    && (fed ==> NoTablesMissing(s2.m, root, ProgPages(pr)))
    && (fate.Through? ==> AllMapped(s2.m, root, ImagePage(pr), IMG_PAGES))
    && (fed && Exclusive(s, root, reserved) ==> BothZero(s, s2, root, reserved, pr))
  }

  ghost predicate BothZero(s: Snapshot, s2: Snapshot, root: nat, reserved: Reserved, pr: Prog)
    requires STK_BYTES <= pr.stackTop
  {
    && Exclusive(s2, root, reserved) && KeepsOutside(s, s2, root, ProgPages(pr))
    && ZeroPages(s2.m, root, ImagePage(pr), IMG_PAGES) && ZeroPages(s2.m, root, StackPage(pr), STK_PAGES)
    && UserPages(s2.m, root, ImagePage(pr), IMG_PAGES) && UserPages(s2.m, root, StackPage(pr), STK_PAGES)
  }

  lemma ImageStops(s: Snapshot, s1: Snapshot, root: nat, reserved: Reserved, area: set<nat>, pr: Prog, fate: Fate, fed: bool)
    requires Loadable(pr) && Zeroed(s, s1, root, reserved, area, ImagePage(pr), IMG_PAGES, fate, fed) && !fate.Through?
    ensures OneLoaded(s, s1, root, reserved, area, pr, fate, fed)
  {
    var n, more := Need(s, root, area, IMG_PAGES), Need(s, root, area, PROG_PAGES);
    if LowFor(PoolOf(s), more) {
      LowForFewer(PoolOf(s), more, n);
    }
  }

  lemma StackReady(s: Snapshot, s1: Snapshot, root: nat, pr: Prog)
    requires Loadable(pr) && NoLargePages(s.m, root, ProgPages(pr)) && Tame(s, s1, root)
    ensures NoLargePages(s1.m, root, PagesFrom(pr.stackTop - STK_BYTES, STK_PAGES))
    ensures PagesFrom(pr.stackTop - STK_BYTES, STK_PAGES) <= ProgPages(pr)
  {
  }

  lemma RegionsDone(s: Snapshot, s1: Snapshot, s2: Snapshot, root: nat, reserved: Reserved, area: set<nat>, pr: Prog,
                    fate: Fate, fed1: bool, fed2: bool)
    requires Loadable(pr) && Zeroed(s, s1, root, reserved, area, ImagePage(pr), IMG_PAGES, Through, fed1)
    requires Zeroed(s1, s2, root, reserved, area, StackPage(pr), STK_PAGES, fate, fed2)
    ensures Prepared(s, s2, root, reserved, area, pr, fate, fed1 && fed2)
    ensures !fate.Through? ==> OneLoaded(s, s2, root, reserved, area, pr, fate, fed1 && fed2)
  {
    CountedMore(s, s1, s2, root, area, IMG_PAGES, fed1, STK_PAGES, PROG_PAGES, fate, fed2);
    KeepsTrans(s, s1, s2, root, Range(ImagePage(pr), IMG_PAGES), Range(StackPage(pr), STK_PAGES));
    ImageStaysMapped(s1, s2, root, pr);
    if fed1 && fed2 {
      RegionsComplete(s1, s2, root, pr);
      if Exclusive(s, root, reserved) {
        RegionsZero(s, s1, s2, root, reserved, pr);
      }
    }
  }

  lemma ImageStaysMapped(s1: Snapshot, s2: Snapshot, root: nat, pr: Prog)
    requires Loadable(pr) && AllMapped(s1.m, root, ImagePage(pr), IMG_PAGES)
    requires KeepsTranslation(s1, s2, root, Range(StackPage(pr), STK_PAGES))
    ensures AllMapped(s2.m, root, ImagePage(pr), IMG_PAGES)
  {
    forall q: nat | InRange(q, ImagePage(pr), IMG_PAGES)
      ensures Translate(s2.m, root, q).Page?
    {
      assert q !in Range(StackPage(pr), STK_PAGES);
    }
  }

  lemma RegionsComplete(s1: Snapshot, s2: Snapshot, root: nat, pr: Prog)
    requires Loadable(pr) && NoneMissing(s1.m, root, ImagePage(pr), IMG_PAGES) && Tame(s1, s2, root)
    requires NoneMissing(s2.m, root, StackPage(pr), STK_PAGES)
    ensures NoTablesMissing(s2.m, root, ProgPages(pr))
  {
    forall p: nat | p in ProgPages(pr) && p < PAGES
      ensures Missing(s2.m, root, 4, p) == 0
    {
      assert InRange(p, ImagePage(pr), IMG_PAGES) || InRange(p, StackPage(pr), STK_PAGES);
    }
  }

  lemma RegionsZero(s: Snapshot, s1: Snapshot, s2: Snapshot, root: nat, reserved: Reserved, pr: Prog)
    requires Loadable(pr) && ZeroMapped(s, s1, root, reserved, ImagePage(pr), IMG_PAGES) && Tame(s1, s2, root)
    requires ZeroMapped(s1, s2, root, reserved, StackPage(pr), STK_PAGES)
    ensures BothZero(s, s2, root, reserved, pr)
  {
    KeepsTrans(s, s1, s2, root, Range(ImagePage(pr), IMG_PAGES), Range(StackPage(pr), STK_PAGES));
    forall q: nat | InRange(q, ImagePage(pr), IMG_PAGES)
      ensures ZeroPage(s2.m, root, q)
    {
      assert ZeroPage(s1.m, root, q);
      assert q !in Range(StackPage(pr), STK_PAGES);
      assert SameBytes(s1.m, s2.m, Translate(s1.m, root, q).frame);
    }
    UserPagesKept(s1, s2, root, Range(StackPage(pr), STK_PAGES), ImagePage(pr), IMG_PAGES);
  }

  lemma CopyReady(s: Snapshot, s2: Snapshot, root: nat, reserved: Reserved, pr: Prog)
    requires Loadable(pr) && NoLargePages(s.m, root, ProgPages(pr)) && Tame(s, s2, root)
    ensures NoLargePages(s2.m, root, PagesFrom(pr.base, IMG_PAGES))
    ensures BothZero(s, s2, root, reserved, pr) ==> Copied(s2, s2, root, reserved, ImagePage(pr), IMG_PAGES, pr.image, 0)
  {
    if BothZero(s, s2, root, reserved, pr) {
      ZeroPagesHold(s2.m, root, ImagePage(pr), IMG_PAGES, pr.image);
    }
  }

  lemma CopyDone(s: Snapshot, s2: Snapshot, s3: Snapshot, root: nat, reserved: Reserved, area: set<nat>, pr: Prog, fed: bool)
    requires Loadable(pr) && Prepared(s, s2, root, reserved, area, pr, Through, fed) && SameTables(s2.m, s3.m, root)
    requires Safe(s3, root) && |s3.m| == |s2.m| && s3.free == s2.free && s3.hint == s2.hint
    requires BothZero(s, s2, root, reserved, pr) ==> Copied(s2, s3, root, reserved, ImagePage(pr), IMG_PAGES, pr.image, |pr.image|)
    ensures OneLoaded(s, s3, root, reserved, area, pr, Through, fed)
  {
    CountedSame(s, s2, s3, root, area, PROG_PAGES, Through, fed);
    if fed && Exclusive(s, root, reserved) {
      ImageCopied(s, s2, s3, root, reserved, pr);
    }
  }

  lemma ImageCopied(s: Snapshot, s2: Snapshot, s3: Snapshot, root: nat, reserved: Reserved, pr: Prog)
    requires Loadable(pr) && BothZero(s, s2, root, reserved, pr) && SameTables(s2.m, s3.m, root)
    requires Copied(s2, s3, root, reserved, ImagePage(pr), IMG_PAGES, pr.image, |pr.image|)
    ensures Loaded(s3.m, root, pr) && KeepsOutside(s, s3, root, ProgPages(pr))
  {
    KeepsTrans(s, s2, s3, root, ProgPages(pr), Range(ImagePage(pr), IMG_PAGES));
    assert ProgPages(pr) + Range(ImagePage(pr), IMG_PAGES) == ProgPages(pr);
    forall q: nat | InRange(q, StackPage(pr), STK_PAGES)
      ensures ZeroPage(s3.m, root, q)
    {
      assert ZeroPage(s2.m, root, q);
      assert q !in Range(ImagePage(pr), IMG_PAGES);
      assert SameBytes(s2.m, s3.m, Translate(s2.m, root, q).frame);
    }
    forall q: nat | q < PAGES && UserPage(s2.m, root, q)
      ensures UserPage(s3.m, root, q)
    {
    }
    forall q: nat | InRange(q, ImagePage(pr), IMG_PAGES) || InRange(q, StackPage(pr), STK_PAGES)
      ensures UserPage(s3.m, root, q)
    {
      assert UserPage(s2.m, root, q);
    }
  }

  /** The link addresses are a MiB apart; this is the MiB of each program, in the order of the
      program numbers (Makefile). */
  const SLOTS: seq<nat> := [0, 1, 2, 3, 5, 6, 7, 8, 9, 10, 12, 13]
  const PROG_COUNT: nat := 12

  function ProgBase(i: nat): Word
    requires i < PROG_COUNT
  {
    0x4000_0000_0000 + SLOTS[i] * 0x10_0000
  }

  function ProgAt(images: seq<seq<Byte>>, i: nat): Prog
    requires i < PROG_COUNT == |images|
  {
    Prog(images[i], ProgBase(i), ProgBase(i) + STK_OFFSET)
  }

  lemma ProgPlaces(images: seq<seq<Byte>>, i: nat)
    requires i < PROG_COUNT == |images| && |images[i]| <= IMG_BYTES
    ensures Loadable(ProgAt(images, i))
    ensures ImagePage(ProgAt(images, i)) == 0x4_0000_0000 + SLOTS[i] * 256
    ensures StackPage(ProgAt(images, i)) == 0x4_0000_0000 + SLOTS[i] * 256 + 124
  {
    assert SLOTS[i] <= 13;
    assert ProgBase(i) / 4096 == 0x4_0000_0000 + SLOTS[i] * 256;
    assert (ProgBase(i) + STK_OFFSET - STK_BYTES) / 4096 == 0x4_0000_0000 + SLOTS[i] * 256 + 124;
  }

  lemma ProgsApart(images: seq<seq<Byte>>, i: nat, j: nat)
    requires i < j < PROG_COUNT == |images| && |images[i]| <= IMG_BYTES && |images[j]| <= IMG_BYTES
    ensures ProgPages(ProgAt(images, i)) !! ProgPages(ProgAt(images, j))
  {
    ProgPlaces(images, i);
    ProgPlaces(images, j);
    assert SLOTS[i] < SLOTS[j];
  }

  ghost function PagesUpTo(images: seq<seq<Byte>>, n: nat): set<nat>
    requires n <= PROG_COUNT == |images|
  {
    if n == 0 then {} else PagesUpTo(images, n - 1) + ProgPages(ProgAt(images, n - 1))
  }

  /** The area contains the pages of every program. */
  ghost predicate HasPages(area: set<nat>, images: seq<seq<Byte>>)
    requires |images| == PROG_COUNT
  {
    forall i | 0 <= i < PROG_COUNT :: ProgPages(ProgAt(images, i)) <= area
  }

  lemma {:induction false} HasAllPages(images: seq<seq<Byte>>, n: nat)
    requires n <= PROG_COUNT == |images|
    ensures forall i | 0 <= i < n :: ProgPages(ProgAt(images, i)) <= PagesUpTo(images, n)
  {
    if n == 0 {
    } else {
      HasAllPages(images, n - 1);
    }
  }

  /** What rootfs_load_all comes to after n programs, counted over an area that contains them all. If
      every allocation and map succeeds, every program is loaded, each one whole after all the later
      ones, and nothing else in memory has changed. */
  ghost predicate LoadedUpTo(s: Snapshot, s': Snapshot, root: nat, reserved: Reserved, area: set<nat>,
                             images: seq<seq<Byte>>, n: nat, fate: Fate, fed: bool)
    requires n <= PROG_COUNT == |images|
  {
    && Safe(s', root) && Counted(s, s', root, area, PROG_PAGES * n, fate, fed)
    && (fed ==> forall i | 0 <= i < n :: NoTablesMissing(s'.m, root, ProgPages(ProgAt(images, i))))
    && (fed && Exclusive(s, root, reserved) ==> ProgsLoaded(s, s', root, reserved, area, images, n))
  }

  ghost predicate ProgsLoaded(s: Snapshot, s': Snapshot, root: nat, reserved: Reserved, area: set<nat>, images: seq<seq<Byte>>, n: nat)
    requires n <= PROG_COUNT == |images|
  {
    && Exclusive(s', root, reserved) && KeepsOutside(s, s', root, area)
    && forall i | 0 <= i < n :: Loaded(s'.m, root, ProgAt(images, i))
  }

  /** n programs are done, or the code has stopped before all were. */
  ghost predicate LoadState(s: Snapshot, s': Snapshot, root: nat, reserved: Reserved, area: set<nat>,
                            images: seq<seq<Byte>>, n: nat, fate: Fate, fed: bool)
    requires n <= PROG_COUNT == |images|
  {
    if fate.Through? then LoadedUpTo(s, s', root, reserved, area, images, n, fate, fed)
    else !fed && Counted(s, s', root, area, PROG_PAGES * PROG_COUNT, fate, fed)
  }

  method RootfsLoadAll(mmu: Mmu, images: seq<seq<Byte>>, ghost area: set<nat>, ghost reserved: Reserved)
    returns (fate: Fate, fed: bool)
    requires mmu.Valid() && Safe(mmu.Snap(), mmu.root)
    requires |images| == PROG_COUNT && forall x | x in images :: |x| <= IMG_BYTES
    requires HasPages(area, images) && NoLargePages(mmu.ram[..], mmu.root, area)
    modifies mmu`nodes, mmu.ram, mmu.pmm, mmu.pmm.bitmap
    ensures mmu.Valid()
    ensures LoadState(old(mmu.Snap()), mmu.Snap(), mmu.root, reserved, area, images, PROG_COUNT, fate, fed)
  {
    NothingLoaded(mmu.Snap(), mmu.root, reserved, area, images);
    fate, fed := LoadEach(mmu, images, mmu.Snap(), area, reserved);
  }

  /** The loop of rootfs_load_all; s is the state before it. */
  method LoadEach(mmu: Mmu, images: seq<seq<Byte>>, ghost s: Snapshot, ghost area: set<nat>, ghost reserved: Reserved)
    returns (fate: Fate, fed: bool)
    requires mmu.Valid() && |images| == PROG_COUNT && forall x | x in images :: |x| <= IMG_BYTES
    requires HasPages(area, images) && NoLargePages(s.m, mmu.root, area)
    requires LoadState(s, mmu.Snap(), mmu.root, reserved, area, images, 0, Through, true)
    modifies mmu`nodes, mmu.ram, mmu.pmm, mmu.pmm.bitmap
    ensures mmu.Valid() && LoadState(s, mmu.Snap(), mmu.root, reserved, area, images, PROG_COUNT, fate, fed)
  {
    fate, fed := Through, true;
    var i := 0;
    while i < PROG_COUNT && fate == Through
      invariant 0 <= i <= PROG_COUNT && mmu.Valid() && LoadState(s, mmu.Snap(), mmu.root, reserved, area, images, i, fate, fed)
    {
      fate, fed := LoadNext(mmu, images, i, fed, s, area, reserved);
      i := i + 1;
    }
  }

  method LoadNext(mmu: Mmu, images: seq<seq<Byte>>, i: nat, before: bool, ghost s: Snapshot,
                  ghost area: set<nat>, ghost reserved: Reserved) returns (fate: Fate, fed: bool)
    requires mmu.Valid() && i < PROG_COUNT == |images| && forall x | x in images :: |x| <= IMG_BYTES
    requires HasPages(area, images) && NoLargePages(s.m, mmu.root, area)
    requires LoadState(s, mmu.Snap(), mmu.root, reserved, area, images, i, Through, before)
    modifies mmu`nodes, mmu.ram, mmu.pmm, mmu.pmm.bitmap
    ensures mmu.Valid()
    ensures LoadState(s, mmu.Snap(), mmu.root, reserved, area, images, i + 1, fate, fed)
  {
    ghost var s1 := mmu.Snap();
    NextProg(s, s1, mmu.root, area, images, i);
    var fed2;
    fate, fed2 := LoadOne(mmu, ProgAt(images, i), area, reserved);
    ProgCounted(s, s1, mmu.Snap(), mmu.root, reserved, area, images, i, before, fate, fed2);
    fed := before && fed2;
    if fate == Through {
      ProgDone(s, s1, mmu.Snap(), mmu.root, reserved, area, images, i, before, fed2);
    }
  }

  lemma NothingLoaded(s: Snapshot, root: nat, reserved: Reserved, area: set<nat>, images: seq<seq<Byte>>)
    requires Safe(s, root) && |images| == PROG_COUNT
    ensures LoadedUpTo(s, s, root, reserved, area, images, 0, Through, true)
  {
  }

  lemma NextProg(s: Snapshot, s1: Snapshot, root: nat, area: set<nat>, images: seq<seq<Byte>>, i: nat)
    requires i < PROG_COUNT == |images| && forall x | x in images :: |x| <= IMG_BYTES
    requires HasPages(area, images) && NoLargePages(s.m, root, area) && Tame(s, s1, root)
    ensures Loadable(ProgAt(images, i)) && ProgPages(ProgAt(images, i)) <= area
    ensures NoLargePages(s1.m, root, ProgPages(ProgAt(images, i)))
  {
    ProgPlaces(images, i);
  }

  /** The count after one more program, whether or not the code gets through it. */
  lemma ProgCounted(s: Snapshot, s1: Snapshot, s2: Snapshot, root: nat, reserved: Reserved, area: set<nat>,
                    images: seq<seq<Byte>>, i: nat, fed1: bool, fate: Fate, fed2: bool)
    requires i < PROG_COUNT == |images| && |images[i]| <= IMG_BYTES && Loadable(ProgAt(images, i))
    requires LoadedUpTo(s, s1, root, reserved, area, images, i, Through, fed1)
    requires OneLoaded(s1, s2, root, reserved, area, ProgAt(images, i), fate, fed2)
    ensures Counted(s, s2, root, area, PROG_PAGES * (i + 1), fate, fed1 && fed2)
    ensures !fate.Through? ==> !fed2 && Counted(s, s2, root, area, PROG_PAGES * PROG_COUNT, fate, fed1 && fed2)
  {
    assert PROG_PAGES * i + PROG_PAGES == PROG_PAGES * (i + 1);
    CountedMore(s, s1, s2, root, area, PROG_PAGES * i, fed1, PROG_PAGES, PROG_PAGES * (i + 1), fate, fed2);
    if !fate.Through? {
      CountedFewer(s, s2, root, area, PROG_PAGES * (i + 1), PROG_PAGES * PROG_COUNT, fate);
    }
  }

  lemma ProgDone(s: Snapshot, s1: Snapshot, s2: Snapshot, root: nat, reserved: Reserved, area: set<nat>,
                 images: seq<seq<Byte>>, i: nat, fed1: bool, fed2: bool)
    requires i < PROG_COUNT == |images| && forall x | x in images :: |x| <= IMG_BYTES
    requires LoadedUpTo(s, s1, root, reserved, area, images, i, Through, fed1) && Loadable(ProgAt(images, i))
    requires OneLoaded(s1, s2, root, reserved, area, ProgAt(images, i), Through, fed2)
    requires Counted(s, s2, root, area, PROG_PAGES * (i + 1), Through, fed1 && fed2)
    requires ProgPages(ProgAt(images, i)) <= area
    ensures LoadedUpTo(s, s2, root, reserved, area, images, i + 1, Through, fed1 && fed2)
  {
    if fed1 && fed2 && Exclusive(s, root, reserved) {
      forall j | 0 <= j < i
        ensures Loaded(s2.m, root, ProgAt(images, j))
      {
        ProgPlaces(images, j);
        ProgsApart(images, j, i);
        LoadedKept(s1, s2, root, ProgAt(images, j), ProgPages(ProgAt(images, i)));
      }
      KeepsTrans(s, s1, s2, root, area, ProgPages(ProgAt(images, i)));
      assert area + ProgPages(ProgAt(images, i)) == area;
    }
  }
}
