/** Whole runs of maps and unmaps refine a flat table from pages to mappings, in which the last
    successful operation on a page wins; the boot identity map outlives every run. */
module PagingRuns {
  import opened Words
  import opened FrameAllocator
  import opened PageTable
  import opened Paging

  datatype Op = Map(va: Word, pa: Word, flags: Word) | Unmap(va: Word)

  /** The flat table's entry for page p after a run, given what each operation returned. */
  function Flat(start: Mapping, path: Rights, ops: seq<Op>, rs: seq<int>, p: nat): Mapping
    requires |ops| == |rs|
  {
    if ops == [] then start else
      var n := |ops| - 1;
      var before := Flat(start, path, ops[..n], rs[..n], p);
      match ops[n]
      case Map(va, pa, flags) => if PageOf(va) == p && rs[n] == 0 then Granted(pa, flags, path) else before
      case Unmap(va) => if PageOf(va) == p && before.Page? then Unmapped else before
  }

  /** m' is what a run leaves of m. A map that succeeds found no large page in its way. */
  ghost predicate RunOf(m: Ram, m': Ram, root: nat, ops: seq<Op>, rs: seq<int>)
    requires |ops| == |rs|
  {
    && (forall p: nat | p < PAGES ::
          Translate(m', root, p) == Flat(Translate(m, root, p), RightsOf(m, root, p), ops, rs, p))
    && (forall p: nat | p < PAGES :: RightsOf(m', root, p) == RightsOf(m, root, p))
    && forall k: nat | k < |ops| && ops[k].Map? && rs[k] == 0 :: FoundNoLargePage(m, root, ops, rs, k)
  }

  ghost predicate FoundNoLargePage(m: Ram, root: nat, ops: seq<Op>, rs: seq<int>, k: nat)
    requires |ops| == |rs| && k < |ops|
  {
    var p := PageOf(ops[k].va);
    !Flat(Translate(m, root, p), RightsOf(m, root, p), ops[..k], rs[..k], p).LargePage?
  }

  /** m' is what one operation leaves of m. */
  ghost predicate StepOf(m: Ram, m': Ram, root: nat, op: Op, r: int) {
    var p := PageOf(op.va);
    && (forall q: nat | q < PAGES && q != p :: Translate(m', root, q) == Translate(m, root, q))
    && (forall q: nat | q < PAGES :: RightsOf(m', root, q) == RightsOf(m, root, q))
    && match op
       case Map(va, pa, flags) =>
         && (r == 0 ==> Translate(m', root, p) == Granted(pa, flags, RightsOf(m, root, p)) && !Translate(m, root, p).LargePage?)
         && (r != 0 ==> Translate(m', root, p) == Translate(m, root, p))
       case Unmap(va) =>
         Translate(m', root, p) == if Translate(m, root, p).Page? then Unmapped else Translate(m, root, p)
  }

  lemma RunStep(m: Ram, m1: Ram, m2: Ram, root: nat, ops: seq<Op>, rs: seq<int>, op: Op, r: int)
    requires |ops| == |rs| && RunOf(m, m1, root, ops, rs) && StepOf(m1, m2, root, op, r)
    ensures RunOf(m, m2, root, ops + [op], rs + [r])
  {
    var ops', rs', n := ops + [op], rs + [r], |ops|;
    assert ops'[..n] == ops && rs'[..n] == rs;
    forall k: nat | k < |ops'| && ops'[k].Map? && rs'[k] == 0
      ensures FoundNoLargePage(m, root, ops', rs', k)
    {
      if k < n {
        assert FoundNoLargePage(m, root, ops, rs, k);
        assert ops'[..k] == ops[..k] && rs'[..k] == rs[..k];
      }
    }
  }

  method Step(mmu: Mmu, op: Op) returns (r: int)
    requires mmu.Valid()
    modifies mmu`nodes, mmu.ram, mmu.pmm, mmu.pmm.bitmap
    ensures mmu.Valid() && StepOf(old(mmu.ram[..]), mmu.ram[..], mmu.root, op, r) && mmu.pmm.free <= old(mmu.pmm.free)
    ensures r == STRAY ==> exists f: nat | f in old(mmu.pmm.free) :: f >= LOW
  {
    match op {
      case Map(va, pa, flags) =>
        r := mmu.VmmMap(va, pa, flags);
      case Unmap(va) =>
        mmu.VmmUnmap(va);
        r := 0;
    }
  }

  /** The operations one after the other, up to one that goes astray: a map that would make a table
      of a frame above the first GiB. None does if the free frames all lie in the first GiB. */
  method Run(mmu: Mmu, ops: seq<Op>) returns (rs: seq<int>)
    requires mmu.Valid()
    modifies mmu`nodes, mmu.ram, mmu.pmm, mmu.pmm.bitmap
    ensures mmu.Valid() && |rs| <= |ops| && RunOf(old(mmu.ram[..]), mmu.ram[..], mmu.root, ops[..|rs|], rs)
    ensures forall k | 0 <= k < |rs| && rs[k] == STRAY :: k == |rs| - 1
    ensures |rs| < |ops| ==> rs != [] && rs[|rs| - 1] == STRAY
    ensures (forall f: nat | f in old(mmu.pmm.free) :: f < LOW) ==> |rs| == |ops| && STRAY !in rs
  {
    ghost var m := mmu.ram[..];
    ghost var free := mmu.pmm.free;
    rs := [];
    var i := 0;
    assert ops[..0] == [];
    while i < |ops|
      invariant 0 <= i <= |ops| && |rs| == i && mmu.Valid() && mmu.pmm.free <= free
      invariant RunOf(m, mmu.ram[..], mmu.root, ops[..i], rs) && STRAY !in rs
    {
      ghost var s := mmu.Snap();
      var r := Step(mmu, ops[i]);
      RunStep(m, s.m, mmu.ram[..], mmu.root, ops[..i], rs, ops[i], r);
      assert ops[..i] + [ops[i]] == ops[..i + 1];
      rs, i := rs + [r], i + 1;
      if r == STRAY {
        return;
      }
    }
    assert ops[..|ops|] == ops;
  }

  /** A large page is still there, unchanged, after any run. */
  lemma {:induction false} LargePageStays(m: Ram, root: nat, ops: seq<Op>, rs: seq<int>, p: nat)
    requires |ops| == |rs| && Translate(m, root, p).LargePage?
    requires forall k: nat | k < |ops| && ops[k].Map? && rs[k] == 0 :: FoundNoLargePage(m, root, ops, rs, k)
    ensures Flat(Translate(m, root, p), RightsOf(m, root, p), ops, rs, p) == Translate(m, root, p)
  {
    if ops == [] {
    } else {
      var n := |ops| - 1;
      forall k: nat | k < n && ops[..n][k].Map? && rs[..n][k] == 0
        ensures FoundNoLargePage(m, root, ops[..n], rs[..n], k)
      {
        assert FoundNoLargePage(m, root, ops, rs, k);
        assert ops[..n][..k] == ops[..k] && rs[..n][..k] == rs[..k];
      }
      LargePageStays(m, root, ops[..n], rs[..n], p);
      if ops[n].Map? && rs[n] == 0 {
        assert FoundNoLargePage(m, root, ops, rs, n);
      }
    }
  }

  /** No run of maps and unmaps from the boot state changes the identity map of the first GiB. */
  lemma IdentityMapStays(m: Ram, m': Ram, root: nat, ops: seq<Op>, rs: seq<int>, p: nat)
    requires |ops| == |rs| && RunOf(m, m', root, ops, rs) && p < 0x4_0000
    requires forall q: nat | q < PAGES :: Translate(m, root, q) == BootMapping(q)
    ensures Translate(m', root, p) == BootMapping(p)
  {
    LargePageStays(m, root, ops, rs, p);
  }

  /** From the boot state, a page is a user page after a run only if it was mapped with VM_USER
      and lies at or above 512 GiB, whatever was asked for. */
  lemma {:induction false} UserPagesAreHigh(ops: seq<Op>, rs: seq<int>, p: nat)
    requires |ops| == |rs| && p < 0x800_0000
    ensures var x := Flat(BootMapping(p), BootRights(p), ops, rs, p); x.Page? ==> !x.user
  {
    if ops == [] {
    } else {
      UserPagesAreHigh(ops[..|ops| - 1], rs[..|ops| - 1], p);
    }
  }

  /** Requested rights are granted in full exactly above 512 GiB or when no user access is asked. */
  lemma GrantedFromBoot(va: Word, pa: Word, flags: Word)
    ensures Granted(pa, flags, BootRights(PageOf(va))) == Granted(pa, flags, Rights(true, true)) <==>
      PageOf(va) >= 0x800_0000 || flags / VM_USER % 2 == 0
  {
  }
}
