/** Runs of SYS_MAP calls (arch/x86_64/trap/trap.c): whose frames the pages have, which calls succeed
    and how many frames they take. */
module MapRuns {
  import opened Words
  import opened FrameAllocator
  import opened PageTable
  import opened Paging
  import opened UserMemory
  import opened ZeroMaps

  function PagesOf(vas: seq<Word>): set<nat> {
    set i | 0 <= i < |vas| :: PageOf(vas[i])
  }

  /** After SYS_MAP calls for these addresses each page has a frame of its own, and no page but theirs
      has changed. */
  ghost predicate Served(s: Snapshot, s': Snapshot, root: nat, reserved: Reserved, vas: seq<Word>) {
    && Exclusive(s', root, reserved) && KeepsOutside(s, s', root, PagesOf(vas)) && Tame(s, s', root)
  }

  ghost predicate AllFreeLow(s: Snapshot) {
    forall f: nat | f in s.free :: f < LOW
  }

  predicate AllGood(rs: seq<int>) {
    forall j | 0 <= j < |rs| :: rs[j] == 0
  }

  /** How a call that returned r has ended. */
  function FateOf(r: int): Fate {
    if r == STRAY then Strayed else Through
  }

  /** How the last of some calls has ended; only the last may have gone astray. */
  function LastFate(rs: seq<int>): Fate {
    if rs == [] then Through else FateOf(rs[|rs| - 1])
  }

  predicate LastStraysOnly(rs: seq<int>) {
    forall j | 0 <= j < |rs| - 1 :: rs[j] != STRAY
  }

  // ---- what the calls come to ----

  /** The call for page p has succeeded: no large page was there, and now its tables are. */
  ghost predicate Done(s: Snapshot, s': Snapshot, root: nat, p: nat) {
    !Translate(s.m, root, p).LargePage? && Missing(s'.m, root, 4, p) == 0
  }

  /** What the calls for some addresses, whose pages lie in the area, have come to: all of them good
      or not, and how the last one ended. */
  ghost predicate Ran(s: Snapshot, s': Snapshot, root: nat, reserved: Reserved, area: set<nat>, vas: seq<Word>,
                      good: bool, fate: Fate) {
    && Served(s, s', root, reserved, vas)
    && (good ==> forall j | 0 <= j < |vas| :: Done(s, s', root, PageOf(vas[j])))
    && (AllFreeLow(s) ==> !fate.Strayed?)
    && (NoLargePages(s.m, root, area) ==> Counted(s, s', root, area, |vas|, fate, good))
  }

  /** The pages of the calls that succeeded are open to user code as far as their paths allow. */
  ghost predicate GoodOpen(m: Ram, root: nat, vas: seq<Word>, rs: seq<int>) {
    forall j | 0 <= j < |rs| && j < |vas| && rs[j] == 0 :: UserPage(m, root, PageOf(vas[j]))
  }

  /** What results of calls for the first of these addresses say of all of them. No large page can be
      mapped over; otherwise all succeed exactly when there are frames for the pages and the tables
      they lack, and then take just those, unless one goes astray; and none does if all free frames,
      or those that are needed, lie in the first GiB. */
  ghost predicate Decided(s: Snapshot, s': Snapshot, root: nat, vas: seq<Word>, rs: seq<int>) {
    var area := PagesOf(vas);
    var need := Need(s, root, area, |vas|);
    && (STRAY !in rs ==> |rs| == |vas| && (AllGood(rs) <==> NoLargePages(s.m, root, area) && need <= |s.free|))
    && (STRAY !in rs && AllGood(rs) ==> |s'.free| == |s.free| - need)
    && (STRAY in rs ==> !AllFreeLow(s) && (NoLargePages(s.m, root, area) ==> !LowFor(PoolOf(s), need)))
  }

  // ---- one call ----

  lemma CallTame(s: Snapshot, s': Snapshot, root: nat, reserved: Reserved, p: nat, r: int)
    requires p < PAGES && SysMapped(s, s', root, reserved, p, r)
    ensures Tame(s, s', root) && (r == 0 ==> Done(s, s', root, p))
  {
    if r == 0 {
      GoodCall(s, s', root, reserved, p);
    }
  }

  lemma GoodCall(s: Snapshot, s': Snapshot, root: nat, reserved: Reserved, p: nat)
    requires p < PAGES && SysMapped(s, s', root, reserved, p, 0)
    ensures Done(s, s', root, p) && Translate(s'.m, root, p).Page?
  {
    var f: nat :| Next(s, f) && Mappable(TakeOne(s, f), root, p);
    var g: nat :| g in s.free && MapsTo(s', root, p, g);
  }

  /** A call that fails without going astray, at a page that is not a large one, is short of frames. */
  lemma CallShort(s: Snapshot, s': Snapshot, root: nat, reserved: Reserved, area: set<nat>, p: nat)
    requires p in area && p < PAGES && SysMapped(s, s', root, reserved, p, -1) && !Translate(s.m, root, p).LargePage?
    ensures |s.free| < Need(s, root, area, 1) && s'.free == {}
  {
    if s.free != {} {
      var f: nat :| Next(s, f) && Leaked(s', root, f);
      NextOne(s, root, p, f);
      RoomCounted(s, root, p, f);
      PathLackWithin(s.m, root, p, area);
    }
  }

  lemma CallCounted(s: Snapshot, s': Snapshot, root: nat, reserved: Reserved, area: set<nat>, p: nat, r: int)
    requires p in area && p < PAGES && SysMapped(s, s', root, reserved, p, r) && !Translate(s.m, root, p).LargePage?
    ensures Counted(s, s', root, area, 1, FateOf(r), r == 0)
  {
    CallTame(s, s', root, reserved, p, r);
    if r == 0 {
      UsedSpent(s, s', root, area, p);
    } else if r == -1 {
      CallShort(s, s', root, reserved, area, p);
    } else if LowFor(PoolOf(s), Need(s, root, area, 1)) {
      NotAstray(s, root, area, p, 1);
    }
  }

  /** With all free frames low no call goes astray. */
  lemma CallLow(s: Snapshot, s': Snapshot, root: nat, reserved: Reserved, p: nat, r: int)
    requires SysMapped(s, s', root, reserved, p, r) && AllFreeLow(s)
    ensures r != STRAY
  {
    if r == STRAY {
      var f: nat :| Next(s, f) && Strays(TakeOne(s, f), root, p);
      LowMachine(TakeOne(s, f), root, p);
    }
  }

  // ---- one call after others ----

  lemma PagesOfNext(vas: seq<Word>, va: Word)
    ensures PagesOf(vas + [va]) == PagesOf(vas) + {PageOf(va)}
  {
    var more := vas + [va];
    assert forall j | 0 <= j < |vas| :: more[j] == vas[j];
    assert more[|vas|] == va;
    forall p | p in PagesOf(vas) + {PageOf(va)}
      ensures p in PagesOf(more)
    {
      if p in PagesOf(vas) {
        var j :| 0 <= j < |vas| && p == PageOf(vas[j]);
        assert p == PageOf(more[j]);
      }
    }
  }

  lemma ServedMore(s: Snapshot, s1: Snapshot, s2: Snapshot, root: nat, reserved: Reserved, vas: seq<Word>, va: Word, p: nat, r: int)
    requires p == PageOf(va) && Served(s, s1, root, reserved, vas) && SysMapped(s1, s2, root, reserved, p, r)
    ensures Served(s, s2, root, reserved, vas + [va])
  {
    KeepsTrans(s, s1, s2, root, PagesOf(vas), {p});
    PagesOfNext(vas, va);
    CallTame(s1, s2, root, reserved, p, r);
    TameMore(s, s1, s2, root);
  }

  lemma DoneMore(s: Snapshot, s1: Snapshot, s2: Snapshot, root: nat, reserved: Reserved, vas: seq<Word>, va: Word, p: nat)
    requires p == PageOf(va) && Tame(s, s1, root) && SysMapped(s1, s2, root, reserved, p, 0)
    requires forall j | 0 <= j < |vas| :: Done(s, s1, root, PageOf(vas[j]))
    ensures forall j | 0 <= j <= |vas| :: Done(s, s2, root, PageOf((vas + [va])[j]))
  {
    CallTame(s1, s2, root, reserved, p, 0);
    forall j | 0 <= j <= |vas|
      ensures Done(s, s2, root, PageOf((vas + [va])[j]))
    {
      if j < |vas| {
        assert Done(s, s1, root, PageOf(vas[j]));
      }
    }
  }

  lemma CountedNext(s: Snapshot, s1: Snapshot, s2: Snapshot, root: nat, reserved: Reserved, area: set<nat>,
                    n: nat, m: nat, good: bool, p: nat, r: int)
    requires m == n + 1 && p in area && p < PAGES && NoLargePages(s.m, root, area)
    requires Counted(s, s1, root, area, n, Through, good) && SysMapped(s1, s2, root, reserved, p, r)
    ensures Counted(s, s2, root, area, m, FateOf(r), good && r == 0)
  {
    CallCounted(s1, s2, root, reserved, area, p, r);
    CountedMore(s, s1, s2, root, area, n, good, 1, m, FateOf(r), r == 0);
  }

  lemma RanMore(s: Snapshot, s1: Snapshot, s2: Snapshot, root: nat, reserved: Reserved, area: set<nat>, vas: seq<Word>,
                good: bool, va: Word, p: nat, r: int, more: seq<Word>, better: bool)
    requires p == PageOf(va) && p in area && Ran(s, s1, root, reserved, area, vas, good, Through)
    requires SysMapped(s1, s2, root, reserved, p, r) && more == vas + [va] && better == (good && r == 0)
    ensures Ran(s, s2, root, reserved, area, more, better, FateOf(r))
  {
    ServedMore(s, s1, s2, root, reserved, vas, va, p, r);
    if good && r == 0 {
      DoneMore(s, s1, s2, root, reserved, vas, va, p);
    }
    if AllFreeLow(s) {
      CallLow(s1, s2, root, reserved, p, r);
    }
    if NoLargePages(s.m, root, area) {
      CountedNext(s, s1, s2, root, reserved, area, |vas|, |more|, good, p, r);
    }
  }

  // ---- runs ----

  /** Calls for the first of these addresses have had these results. */
  ghost predicate RanWith(s: Snapshot, s': Snapshot, root: nat, reserved: Reserved, vas: seq<Word>, rs: seq<int>) {
    && |rs| <= |vas| && LastStraysOnly(rs) && GoodOpen(s'.m, root, vas, rs)
    && Ran(s, s', root, reserved, PagesOf(vas), vas[..|rs|], AllGood(rs), LastFate(rs))
  }

  lemma NoneRan(s: Snapshot, root: nat, reserved: Reserved, vas: seq<Word>)
    requires Exclusive(s, root, reserved)
    ensures RanWith(s, s, root, reserved, vas, [])
  {
  }

  lemma RanWithMore(s: Snapshot, s1: Snapshot, s2: Snapshot, root: nat, reserved: Reserved, vas: seq<Word>, rs: seq<int>, r: int)
    requires RanWith(s, s1, root, reserved, vas, rs) && |rs| < |vas| && LastFate(rs).Through?
    requires SysMapped(s1, s2, root, reserved, PageOf(vas[|rs|]), r)
    ensures RanWith(s, s2, root, reserved, vas, rs + [r])
  {
    var va, rs' := vas[|rs|], rs + [r];
    var p, more := PageOf(va), vas[..|rs'|];
    NextInList(vas, |rs|, |rs'|);
    ResultsMore(rs, r);
    RanMore(s, s1, s2, root, reserved, PagesOf(vas), vas[..|rs|], AllGood(rs), va, p, r, more, AllGood(rs'));
    GoodOpenMore(s1, s2, root, reserved, vas, rs, p, r, rs');
  }

  lemma GoodOpenMore(s1: Snapshot, s2: Snapshot, root: nat, reserved: Reserved, vas: seq<Word>, rs: seq<int>,
                     p: nat, r: int, more: seq<int>)
    requires |rs| < |vas| && p == PageOf(vas[|rs|]) && more == rs + [r]
    requires GoodOpen(s1.m, root, vas, rs) && SysMapped(s1, s2, root, reserved, p, r)
    ensures GoodOpen(s2.m, root, vas, more)
  {
    forall j | 0 <= j < |more| && more[j] == 0
      ensures UserPage(s2.m, root, PageOf(vas[j]))
    {
      if j < |rs| {
        OpenStays(s1, s2, root, reserved, p, r, PageOf(vas[j]));
      }
    }
  }

  /** A page that is open stays so when any page is mapped, itself included. */
  lemma OpenStays(s1: Snapshot, s2: Snapshot, root: nat, reserved: Reserved, p: nat, r: int, q: nat)
    requires q < PAGES && UserPage(s1.m, root, q) && SysMapped(s1, s2, root, reserved, p, r)
    ensures UserPage(s2.m, root, q)
  {
  }

  lemma NextInList(vas: seq<Word>, i: nat, j: nat)
    requires i < |vas| && j == i + 1
    ensures vas[..j] == vas[..i] + [vas[i]] && PageOf(vas[i]) in PagesOf(vas)
  {
  }

  lemma ResultsMore(rs: seq<int>, r: int)
    ensures AllGood(rs + [r]) == (AllGood(rs) && r == 0) && LastFate(rs + [r]) == FateOf(r)
    ensures LastStraysOnly(rs) && LastFate(rs).Through? ==> LastStraysOnly(rs + [r])
  {
    assert (rs + [r])[|rs|] == r;
    assert forall j | 0 <= j < |rs| :: (rs + [r])[j] == rs[j];
  }

  lemma RunDecides(s: Snapshot, s': Snapshot, root: nat, reserved: Reserved, vas: seq<Word>, rs: seq<int>)
    requires RanWith(s, s', root, reserved, vas, rs) && (|rs| < |vas| ==> LastFate(rs).Strayed?)
    ensures Decided(s, s', root, vas, rs)
  {
    var area := PagesOf(vas);
    if LastFate(rs).Strayed? {
      assert STRAY == rs[|rs| - 1];
      StrayDecides(s, s', root, area, |rs|, |vas|, AllGood(rs));
    } else {
      assert vas[..|rs|] == vas && STRAY !in rs;
      if AllGood(rs) {
        AllDone(s, s', root, vas);
      }
    }
  }

  lemma StrayDecides(s: Snapshot, s': Snapshot, root: nat, area: set<nat>, n: nat, more: nat, good: bool)
    requires n <= more && (NoLargePages(s.m, root, area) ==> Counted(s, s', root, area, n, Strayed, good))
    ensures NoLargePages(s.m, root, area) ==> !LowFor(PoolOf(s), Need(s, root, area, more))
  {
    if NoLargePages(s.m, root, area) && LowFor(PoolOf(s), Need(s, root, area, more)) {
      LowForFewer(PoolOf(s), Need(s, root, area, more), Need(s, root, area, n));
    }
  }

  lemma AllDone(s: Snapshot, s': Snapshot, root: nat, vas: seq<Word>)
    requires forall j | 0 <= j < |vas| :: Done(s, s', root, PageOf(vas[j]))
    ensures NoLargePages(s.m, root, PagesOf(vas)) && Lacking(s'.m, root, PagesOf(vas)) == {}
  {
    forall p: nat | p in PagesOf(vas) && p < PAGES
      ensures Done(s, s', root, p)
    {
      var j :| 0 <= j < |vas| && p == PageOf(vas[j]);
      assert Done(s, s', root, PageOf(vas[j]));
    }
    NothingLacking(s'.m, root, PagesOf(vas));
  }

  /** SYS_MAP calls at any addresses, with or without frames left, up to one that goes astray. */
  method MapAll(mmu: Mmu, vas: seq<Word>, ghost s: Snapshot, ghost reserved: Reserved) returns (rs: seq<int>)
    requires mmu.Valid() && s == mmu.Snap() && Exclusive(s, mmu.root, reserved)
    modifies mmu`nodes, mmu.ram, mmu.pmm, mmu.pmm.bitmap
    ensures mmu.Valid() && |rs| <= |vas| && Served(s, mmu.Snap(), mmu.root, reserved, vas[..|rs|])
    ensures Decided(s, mmu.Snap(), mmu.root, vas, rs) && GoodOpen(mmu.ram[..], mmu.root, vas, rs)
  {
    rs := [];
    NoneRan(s, mmu.root, reserved, vas);
    while |rs| < |vas| && (rs == [] || rs[|rs| - 1] != STRAY)
      invariant mmu.Valid() && RanWith(s, mmu.Snap(), mmu.root, reserved, vas, rs)
      decreases |vas| - |rs|
    {
      var r := MapNext(mmu, vas, rs, s, reserved);
      rs := rs + [r];
    }
    RunDecides(s, mmu.Snap(), mmu.root, reserved, vas, rs);
  }

  method MapNext(mmu: Mmu, vas: seq<Word>, rs: seq<int>, ghost s: Snapshot, ghost reserved: Reserved) returns (r: int)
    requires mmu.Valid() && RanWith(s, mmu.Snap(), mmu.root, reserved, vas, rs)
    requires |rs| < |vas| && LastFate(rs).Through?
    modifies mmu`nodes, mmu.ram, mmu.pmm, mmu.pmm.bitmap
    ensures mmu.Valid() && RanWith(s, mmu.Snap(), mmu.root, reserved, vas, rs + [r])
  {
    ghost var s1 := mmu.Snap();
    r := SysMap(mmu, vas[|rs|], reserved);
    RanWithMore(s, s1, mmu.Snap(), mmu.root, reserved, vas, rs, r);
  }
}
