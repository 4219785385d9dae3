/** The physical frame allocator (kernel/vm.c): a bitmap with one bit per frame, set when the
    frame is in use, searched cyclically from a moving hint. It refines a set of free frames. */
module FrameAllocator {
  import opened Words

  /** A region of usable RAM as firmware reports it. */
  datatype Region = Region(base: Word, len: Word)

  /** The first usable physical address past every region fits in 64 bits, and so does the
      rounding of the region's base. */
  ghost predicate NoWrap(r: Region) {
    r.base + 4095 < TWO_64 && r.base + r.len < TWO_64
  }

  /** Frame f lies wholly inside region r. */
  ghost predicate Inside(f: nat, r: Region) {
    r.base <= f * 4096 && (f + 1) * 4096 <= r.base + r.len
  }

  /** Frame f lies wholly inside one of the first n regions. */
  ghost predicate Reported(f: nat, regions: seq<Region>, n: nat)
    requires n <= |regions|
  {
    exists k | 0 <= k < n :: Inside(f, regions[k])
  }

  // ---- bits of a byte ----

  function Mask(k: nat): bv8
    requires k < 8
  {
    match k
    case 0 => 1
    case 1 => 2
    case 2 => 4
    case 3 => 8
    case 4 => 16
    case 5 => 32
    case 6 => 64
    case 7 => 128
  }

  predicate TestBit(b: bv8, k: nat)
    requires k < 8
  {
    b & Mask(k) != 0
  }

  lemma OrKeeps(x: bv8, m: bv8, n: bv8)
    ensures m & n == 0 ==> (x | m) & n == x & n
    ensures (x | m) & m == m
  {
  }

  lemma AndNotKeeps(x: bv8, m: bv8, n: bv8)
    ensures m & n == 0 ==> (x & !m) & n == x & n
    ensures (x & !m) & m == 0
  {
  }

  lemma MasksDisjoint(i: nat, j: nat)
    requires i < 8 && j < 8
    ensures Mask(i) != 0
    ensures i != j ==> Mask(i) & Mask(j) == 0
  {
  }

  lemma SetOneBit(b: bv8, i: nat, j: nat)
    requires i < 8 && j < 8
    ensures TestBit(b | Mask(i), j) == (i == j || TestBit(b, j))
  {
    MasksDisjoint(i, j);
    OrKeeps(b, Mask(i), Mask(j));
  }

  lemma ClearOneBit(b: bv8, i: nat, j: nat)
    requires i < 8 && j < 8
    ensures TestBit(b & !Mask(i), j) == (i != j && TestBit(b, j))
  {
    MasksDisjoint(i, j);
    AndNotKeeps(b, Mask(i), Mask(j));
  }

  lemma AllOnes(k: nat)
    requires k < 8
    ensures TestBit(0xFF, k)
  {
  }

  // ---- the bitmap as a set of free frames ----

  predicate Used(bm: seq<bv8>, f: nat)
    requires f / 8 < |bm|
  {
    TestBit(bm[f / 8], f % 8)
  }

  /** `free` is the set of frames whose bit is clear, and the bits past the last frame are set.
      The triggers keep single bits out of reasoning about the set. */
  ghost predicate FreeBits(bm: seq<bv8>, total: nat, free: set<nat>) {
    && total <= 8 * |bm|
    && (forall f | f in free :: f < total)
    && (forall f: nat {:trigger Used(bm, f)} | f < total :: f in free <==> !Used(bm, f))
    && (forall f: nat {:trigger Used(bm, f)} | total <= f < 8 * |bm| :: Used(bm, f))
  }

  function SetBit(bm: seq<bv8>, f: nat): seq<bv8>
    requires f / 8 < |bm|
  {
    bm[f / 8 := bm[f / 8] | Mask(f % 8)]
  }

  function ClearBit(bm: seq<bv8>, f: nat): seq<bv8>
    requires f / 8 < |bm|
  {
    bm[f / 8 := bm[f / 8] & !Mask(f % 8)]
  }

  lemma SetBitUsed(bm: seq<bv8>, f: nat)
    requires f / 8 < |bm|
    ensures forall g: nat | g / 8 < |bm| :: Used(SetBit(bm, f), g) == (g == f || Used(bm, g))
  {
    forall g: nat | g / 8 < |bm|
      ensures Used(SetBit(bm, f), g) == (g == f || Used(bm, g))
    {
      SetOneBit(bm[f / 8], f % 8, g % 8);
    }
  }

  lemma ClearBitUsed(bm: seq<bv8>, f: nat)
    requires f / 8 < |bm|
    ensures forall g: nat | g / 8 < |bm| :: Used(ClearBit(bm, f), g) == (g != f && Used(bm, g))
  {
    forall g: nat | g / 8 < |bm|
      ensures Used(ClearBit(bm, f), g) == (g != f && Used(bm, g))
    {
      ClearOneBit(bm[f / 8], f % 8, g % 8);
    }
  }

  lemma FreeAfterSet(bm: seq<bv8>, f: nat, total: nat, free: set<nat>)
    requires f < total && FreeBits(bm, total, free)
    ensures FreeBits(SetBit(bm, f), total, free - {f})
    ensures f in free <==> !Used(bm, f)
  {
    SetBitUsed(bm, f);
  }

  lemma FreeAfterClear(bm: seq<bv8>, f: nat, total: nat, free: set<nat>)
    requires f < total && FreeBits(bm, total, free)
    ensures FreeBits(ClearBit(bm, f), total, free + {f})
    ensures f in free <==> !Used(bm, f)
  {
    ClearBitUsed(bm, f);
  }

  // ---- cyclic order ----

  /** The frame the search that starts at `hint` examines at its i-th step. */
  function Probe(hint: nat, i: nat, total: nat): (f: nat)
    requires total > 0
    ensures f < total
  {
    (hint + i) % total
  }

  /** How many frames that search examines before it reaches f. */
  function Distance(hint: nat, f: nat, total: nat): nat
    requires f < total
  {
    var h := hint % total;
    if h <= f then f - h else f - h + total
  }

  lemma {:induction false} MultipleAtLeast(n: nat, d: int)
    requires d >= 1
    ensures n * d >= n
    decreases d
  {
    if d == 1 {
    } else {
      MultipleAtLeast(n, d - 1);
      assert n * d == n * (d - 1) + n;
    }
  }

  lemma QuotientUnique(n: nat, q: int, q': int, r: int, r': int)
    requires 0 <= r < n && 0 <= r' < n && n * q + r == n * q' + r'
    ensures q == q' && r == r'
  {
    var d := q - q';
    assert n * d == n * q - n * q';
    if d >= 1 {
      MultipleAtLeast(n, d);
    } else if d <= -1 {
      assert n * -d == -(n * d);
      MultipleAtLeast(n, -d);
    }
  }

  lemma ProbeIs(hint: nat, i: nat, total: nat)
    requires i < total
    ensures Probe(hint, i, total) == if hint % total + i < total then hint % total + i else hint % total + i - total
  {
    var q, h := hint / total, hint % total;
    var s := hint + i;
    assert hint == total * q + h;
    if h + i < total {
      QuotientUnique(total, s / total, q, s % total, h + i);
    } else {
      assert s == total * (q + 1) + (h + i - total);
      QuotientUnique(total, s / total, q + 1, s % total, h + i - total);
    }
  }

  /** The search meets every frame once, at the step its distance names. */
  lemma ProbeDistance(hint: nat, total: nat)
    ensures forall f: nat | f < total :: Distance(hint, f, total) < total && Probe(hint, Distance(hint, f, total), total) == f
    ensures forall i: nat | i < total :: Distance(hint, Probe(hint, i, total), total) == i
  {
    forall f: nat | f < total
      ensures Distance(hint, f, total) < total && Probe(hint, Distance(hint, f, total), total) == f
    {
      assert 0 <= hint % total < total;
      ProbeIs(hint, Distance(hint, f, total), total);
    }
    forall i: nat | i < total
      ensures Distance(hint, Probe(hint, i, total), total) == i
    {
      ProbeIs(hint, i, total);
    }
  }

  /** f is the free frame that the search starting at `hint` meets first. */
  ghost predicate FirstFree(free: set<nat>, hint: nat, total: nat, f: nat) {
    && f in free && f < total
    && forall g: nat {:trigger Distance(hint, g, total)} | g in free && g < total :: Distance(hint, f, total) <= Distance(hint, g, total)
  }

  lemma FirstProbe(bm: seq<bv8>, free: set<nat>, hint: nat, total: nat, i: nat)
    requires i < total && FreeBits(bm, total, free)
    requires forall j | 0 <= j < i :: Used(bm, Probe(hint, j, total))
    requires !Used(bm, Probe(hint, i, total))
    ensures FirstFree(free, hint, total, Probe(hint, i, total))
  {
    ProbeDistance(hint, total);
    forall g | g in free
      ensures i <= Distance(hint, g, total)
    {
      assert Probe(hint, Distance(hint, g, total), total) == g;
      assert !Used(bm, g);
    }
  }

  lemma NoneFree(bm: seq<bv8>, free: set<nat>, hint: nat, total: nat)
    requires FreeBits(bm, total, free)
    requires forall j | 0 <= j < total :: Used(bm, Probe(hint, j, total))
    ensures free == {}
  {
    ProbeDistance(hint, total);
    forall f: nat | f < total
      ensures f !in free
    {
      assert Used(bm, Probe(hint, Distance(hint, f, total), total));
    }
  }

  /** At most one frame is first: distances differ. */
  lemma FirstUnique(free: set<nat>, hint: nat, total: nat, f: nat, g: nat)
    requires FirstFree(free, hint, total, f) && FirstFree(free, hint, total, g)
    ensures f == g
  {
    assert Distance(hint, f, total) == Distance(hint, g, total);
    ProbeDistance(hint, total);
    assert Probe(hint, Distance(hint, f, total), total) == f;
  }

  // ---- the first GiB ----

  /** The frames of the first GiB, which start-up code maps at their own addresses. */
  const LOW: nat := 0x4_0000

  /** What decides which frames are handed out next: the free frames, the hint and the number of
      frames. */
  datatype Pool = Pool(free: set<nat>, hint: nat, total: nat)

  /** Frame f is the one handed out next, and p' is the allocator after that. */
  ghost predicate HandsOut(p: Pool, f: nat, p': Pool) {
    FirstFree(p.free, p.hint, p.total, f) && p' == Pool(p.free - {f}, f + 1, p.total)
  }

  lemma HandsOutOne(p: Pool, f: nat, p1: Pool, g: nat, p2: Pool)
    requires HandsOut(p, f, p1) && HandsOut(p, g, p2)
    ensures f == g && p1 == p2
  {
    FirstUnique(p.free, p.hint, p.total, f, g);
  }

  /** The next n frames that the allocator will hand out, or all if they are fewer, lie in the first
      GiB. */
  ghost predicate LowFor(p: Pool, n: nat)
    decreases n
  {
    n == 0 || forall f: nat, p1 | HandsOut(p, f, p1) :: f < LOW && LowFor(p1, n - 1)
  }

  /** Handing out k frames, all of the first GiB, leads from p to p'. */
  ghost predicate LowTaken(p: Pool, k: nat, p': Pool)
    decreases k
  {
    if k == 0 then p' == p
    else exists f: nat, p1 | HandsOut(p, f, p1) :: f < LOW && LowTaken(p1, k - 1, p')
  }

  /** On a machine whose free frames are all in the first GiB the condition always holds. */
  lemma {:induction false} AllLow(p: Pool, n: nat)
    requires forall f: nat | f in p.free :: f < LOW
    ensures LowFor(p, n)
    decreases n
  {
    if n == 0 {
    } else {
      forall f: nat, p1 | HandsOut(p, f, p1)
        ensures f < LOW && LowFor(p1, n - 1)
      {
        AllLow(p1, n - 1);
      }
    }
  }

  lemma LowOne(p: Pool, f: nat, p1: Pool, n: nat)
    requires HandsOut(p, f, p1)
    ensures LowFor(p, n + 1) <==> f < LOW && LowFor(p1, n)
    ensures f < LOW ==> LowTaken(p, 1, p1)
    ensures p1.free <= p.free && |p1.free| == |p.free| - 1
  {
    forall g: nat, p2 | HandsOut(p, g, p2)
      ensures g == f && p2 == p1
    {
      HandsOutOne(p, f, p1, g, p2);
    }
    assert LowTaken(p1, 0, p1);
  }

  /** After k frames, what the next n must satisfy is what k + n had to. */
  lemma {:induction false} LowTakenRest(p: Pool, k: nat, p': Pool, n: nat)
    requires LowTaken(p, k, p')
    ensures LowFor(p, k + n) <==> LowFor(p', n)
    ensures p'.free <= p.free && |p'.free| == |p.free| - k && p'.total == p.total
    decreases k
  {
    if k == 0 {
    } else {
      var f: nat, p1 :| HandsOut(p, f, p1) && f < LOW && LowTaken(p1, k - 1, p');
      LowTakenRest(p1, k - 1, p', n);
      LowOne(p, f, p1, k - 1 + n);
    }
  }

  lemma {:induction false} LowTakenMore(p: Pool, j: nat, p1: Pool, k: nat, p2: Pool)
    requires LowTaken(p, j, p1) && LowTaken(p1, k, p2)
    ensures LowTaken(p, j + k, p2)
    decreases j
  {
    if j == 0 {
    } else {
      var f: nat, p0 :| HandsOut(p, f, p0) && f < LOW && LowTaken(p0, j - 1, p1);
      LowTakenMore(p0, j - 1, p1, k, p2);
    }
  }

  /** Fewer frames are low if more are. */
  lemma {:induction false} LowForFewer(p: Pool, n: nat, k: nat)
    requires k <= n && LowFor(p, n)
    ensures LowFor(p, k)
    decreases n
  {
    if k == 0 {
    } else {
      forall f: nat, p1 | HandsOut(p, f, p1)
        ensures f < LOW && LowFor(p1, k - 1)
      {
        LowForFewer(p1, n - 1, k - 1);
      }
    }
  }

  lemma FrameAddress(f: nat)
    ensures f * 4096 % 4096 == 0 && f * 4096 / 4096 == f
  {
  }

  class Pmm {
    const bitmap: array<bv8>
    const total: nat
    var freeFrames: nat
    var allocHint: nat

    /** The abstract state: the frames that may be handed out. */
    ghost var free: set<nat>

    ghost predicate Valid()
      reads this, bitmap
    {
      bitmap.Length == (total + 7) / 8 && freeFrames == |free| && FreeBits(bitmap[..], total, free)
    }

    ghost function Now(): Pool
      reads this
    {
      Pool(free, allocHint, total)
    }

    method BmSet(f: nat)
      requires f / 8 < bitmap.Length
      modifies bitmap
      ensures bitmap[..] == SetBit(old(bitmap[..]), f)
    {
      bitmap[f / 8] := bitmap[f / 8] | Mask(f % 8);
    }

    method BmClear(f: nat)
      requires f / 8 < bitmap.Length
      modifies bitmap
      ensures bitmap[..] == ClearBit(old(bitmap[..]), f)
    {
      bitmap[f / 8] := bitmap[f / 8] & !Mask(f % 8);
    }

    predicate BmTest(f: nat)
      reads bitmap
      requires f / 8 < bitmap.Length
      ensures BmTest(f) == Used(bitmap[..], f)
    {
      TestBit(bitmap[f / 8], f % 8)
    }

    method MarkUsed(f: nat)
      requires Valid()
      modifies this`freeFrames, this`free, bitmap
      ensures Valid() && free == old(free) - {f}
    {
      if f < total && !BmTest(f) {
        FreeAfterSet(bitmap[..], f, total, free);
        BmSet(f);
        free, freeFrames := free - {f}, freeFrames - 1;
      }
    }

    method MarkFree(f: nat)
      requires Valid()
      modifies this`freeFrames, this`free, bitmap
      ensures Valid() && free == old(free) + (if f < total then {f} else {})
    {
      if f < total && BmTest(f) {
        FreeAfterClear(bitmap[..], f, total, free);
        BmClear(f);
        free, freeFrames := free + {f}, freeFrames + 1;
      }
    }

    /** Start-up. `kernelEnd` is the end of the kernel image, where the bitmap is placed. */
    constructor Init(kernelEnd: Word, regions: seq<Region>, ramTop: Word)
      requires kernelEnd + ramTop + 2 * 4096 < TWO_64
      requires forall r | r in regions :: NoWrap(r)
      ensures Valid() && fresh(bitmap) && total == ramTop / 4096
      ensures forall f: nat :: f in free <==> f < total && Reported(f, regions, |regions|) && BitmapEnd(kernelEnd, total) <= f * 4096
      ensures allocHint == BitmapEnd(kernelEnd, total) / 4096
    {
      total := ramTop / 4096;
      freeFrames := 0;
      allocHint := 0;
      free := {};
      bitmap := new bv8[(ramTop / 4096 + 7) / 8];
      new;
      var i := 0;
      while i < bitmap.Length
        invariant 0 <= i <= bitmap.Length
        invariant forall k | 0 <= k < i :: bitmap[k] == 0xFF
        invariant freeFrames == 0 && free == {}
      {
        bitmap[i] := 0xFF;
        i := i + 1;
      }
      forall f: nat | f / 8 < bitmap.Length
        ensures Used(bitmap[..], f)
      {
        AllOnes(f % 8);
      }
      FreeReported(regions);
      var reservedTop := PageAlignUp(kernelEnd) + bitmap.Length;
      var reservedFrames := PageAlignUp(reservedTop) / 4096;
      ReserveBelow(reservedFrames);
      allocHint := reservedFrames;
    }

    /** Frees every frame some region reports. */
    method FreeReported(regions: seq<Region>)
      requires Valid() && free == {}
      requires forall r | r in regions :: NoWrap(r)
      modifies this`freeFrames, this`free, bitmap
      ensures Valid()
      ensures forall f: nat :: f in free <==> f < total && Reported(f, regions, |regions|)
    {
      var r := 0;
      while r < |regions|
        invariant 0 <= r <= |regions| && Valid()
        invariant forall f: nat :: f in free <==> f < total && Reported(f, regions, r)
      {
        FreeRegion(regions[r]);
        r := r + 1;
      }
    }

    /** Takes the first n frames out of the free set. */
    method ReserveBelow(n: nat)
      requires Valid()
      modifies this`freeFrames, this`free, bitmap
      ensures Valid()
      ensures forall g: nat :: g in free <==> g in old(free) && n <= g
    {
      var f := 0;
      while f < n
        invariant 0 <= f <= n && Valid()
        invariant forall g: nat :: g in free <==> g in old(free) && f <= g
      {
        MarkUsed(f);
        f := f + 1;
      }
    }

    /** Frees the frames that lie wholly inside one region. */
    method FreeRegion(r: Region)
      requires Valid() && NoWrap(r)
      modifies this`freeFrames, this`free, bitmap
      ensures Valid()
      ensures forall g: nat :: g in free <==> g in old(free) || (g < total && Inside(g, r))
    {
      PageAlignUpExact(r.base);
      var start := PageAlignUp(r.base) / 4096;
      var stop := (r.base + r.len) / 4096;
      assert forall g: nat :: start <= g < stop <==> Inside(g, r);
      var f := start;
      while f < stop
        invariant start <= f && (f == start || f <= stop) && Valid()
        invariant forall g: nat :: g in free <==> g in old(free) || (g < total && start <= g < f)
      {
        MarkFree(f);
        f := f + 1;
      }
      forall g: nat
        ensures g in free <==> g in old(free) || (g < total && Inside(g, r))
      {
        assert start <= g < stop <==> Inside(g, r);
      }
    }

    /** Hands out the first free frame the cyclic search meets, as its physical address; 0 when
        every frame is in use. */
    method AllocFrame() returns (addr: nat)
      requires Valid()
      modifies this`freeFrames, this`allocHint, this`free, bitmap
      ensures Valid()
      ensures old(free) == {} ==> addr == 0 && free == {} && allocHint == old(allocHint)
      ensures old(free) != {} ==> addr % 4096 == 0 && FirstFree(old(free), old(allocHint), total, addr / 4096)
      ensures old(free) != {} ==> free == old(free) - {addr / 4096} && allocHint == addr / 4096 + 1
      ensures 0 !in old(free) ==> (addr == 0 <==> old(free) == {})
      ensures if old(free) == {} then Now() == old(Now()) else HandsOut(old(Now()), addr / 4096, Now())
    {
      var i := 0;
      while i < total
        invariant 0 <= i <= total
        invariant forall j | 0 <= j < i :: Used(bitmap[..], Probe(allocHint, j, total))
      {
        var f := Probe(allocHint, i, total);
        if !BmTest(f) {
          FirstProbe(bitmap[..], free, allocHint, total, i);
          TakeFrame(f);
          FrameAddress(f);
          return f * 4096;
        }
        i := i + 1;
      }
      NoneFree(bitmap[..], free, allocHint, total);
      return 0;
    }

    /** The bookkeeping of a successful search. */
    method TakeFrame(f: nat)
      requires Valid() && f in free
      modifies this`freeFrames, this`allocHint, this`free, bitmap
      ensures Valid() && free == old(free) - {f} && allocHint == f + 1
    {
      FreeAfterSet(bitmap[..], f, total, free);
      BmSet(f);
      free, freeFrames := free - {f}, freeFrames - 1;
      allocHint := f + 1;
    }

    /** Returning a frame that is already free, or that is past the end of RAM, does nothing. */
    method FreeFrame(frame: nat)
      requires Valid()
      modifies this`freeFrames, this`free, bitmap
      ensures Valid() && free == old(free) + (if frame / 4096 < total then {frame / 4096} else {})
    {
      MarkFree(frame / 4096);
    }
  }

  /** The page-aligned end of the bitmap, which starts at the first page after the kernel. */
  function BitmapEnd(kernelEnd: Word, total: nat): nat {
    PageAlignUp(PageAlignUp(kernelEnd) + (total + 7) / 8)
  }
}
