/** The filesystem server (servers/fs_server/main.c) in place: header and bounce sectors, a table of
    eight handles, and the loops that fill them. */
module FsServer {
  import opened Words
  import opened Ustar

  const HANDLES: nat := 8

  datatype Entry = Entry(extent: Extent, used: bool)

  /** The first free handle, or the number of handles. */
  function FreeHandle(ftab: seq<Entry>): (i: nat)
    ensures i <= |ftab| && (i < |ftab| ==> !ftab[i].used)
    ensures forall j | 0 <= j < i :: ftab[j].used
    decreases |ftab|
  {
    if ftab == [] || !ftab[0].used then 0
    else
      var i := FreeHandle(ftab[1..]);
      assert forall j | 0 < j < i + 1 :: ftab[j] == ftab[1..][j - 1];
      1 + i
  }

  /** What an open returns, and the table it leaves. */
  datatype Opening = Opening(handle: int, ftab: seq<Entry>)

  function Opened(disk: Disk, ftab: seq<Entry>, path: Text): (r: Opening)
    ensures |r.ftab| == |ftab| && -1 <= r.handle < |ftab|
  {
    var found := Find(disk, 0, path);
    var i := FreeHandle(ftab);
    if found.None? || i == |ftab| then Opening(-1, ftab) else Opening(i, ftab[i := Entry(found.value, true)])
  }

  /** An open succeeds exactly when the archive has a file of that name and a handle is free, and
      the handle is then for the first such file. */
  lemma OpenSucceeds(disk: Disk, files: seq<File>, ftab: seq<Entry>, path: Text)
    requires AllStorable(files) && Encodes(disk, 0, files)
    ensures var Opening(h, ftab') := Opened(disk, ftab, path); var i := FirstNamed(files, path);
      && (h >= 0 <==> i < |files| && exists k | 0 <= k < |ftab| :: !ftab[k].used)
      && (h >= 0 ==> !ftab[h].used && HandleFor(disk, ftab'[h], files[i].content))
      && forall k | 0 <= k < |ftab| && k != h :: ftab'[k] == ftab[k]
  {
    FindInverts(disk, 0, files, path);
    var k := FreeHandle(ftab);
    if k < |ftab| {
      assert !ftab[k].used;
    }
  }

  // ---- headers without an end ----

  /** Comparing a header's name with the path runs past the header's sector: the path agrees with it
      to its end, and no zero byte stops it. */
  predicate ComparesPast(h: Sector, path: Text) {
    |path| >= SECTOR && h == path[..SECTOR]
  }

  /** The walk for a path comes to such a header before it finds the path. */
  predicate WalksPast(disk: Disk, lba: nat, path: Text)
    decreases |disk| - lba
  {
    && !EndsAt(disk, lba)
    && (ComparesPast(disk[lba], path) || (CStr(disk[lba]) != path && WalksPast(disk, NextHeader(disk, lba), path)))
  }

  lemma {:induction false} ShortPathsStay(disk: Disk, lba: nat, path: Text)
    requires |path| < SECTOR
    ensures !WalksPast(disk, lba, path)
    decreases |disk| - lba
  {
    if EndsAt(disk, lba) {
      return;
    }
    ShortPathsStay(disk, NextHeader(disk, lba), path);
  }

  /** On an archive the walk for a path of any length stays inside the headers. */
  lemma {:induction false} ArchivesStay(disk: Disk, lba: nat, files: seq<File>, path: Text)
    requires AllStorable(files) && Encodes(disk, lba, files) && NoZero(path)
    ensures !WalksPast(disk, lba, path)
    decreases |files|
  {
    if files == [] {
      return;
    }
    var n := |files[0].name|;
    assert Storable(files[0]) && disk[lba][n] == 0;
    assert |path| >= SECTOR ==> path[..SECTOR][n] != 0;
    ArchivesStay(disk, lba + 1 + Sectors(|files[0].content|), files[1..], path);
  }

  /** Listing a name after `out` bytes runs past the header's sector: no zero byte stops it, and there
      is room for a whole sector. */
  predicate NamesPast(h: Sector, out: nat, max: nat) {
    NoZero(h) && out + SECTOR + 1 < max
  }

  predicate ListsPast(disk: Disk, lba: nat, out: Text, max: nat)
    decreases |disk| - lba
  {
    && !EndsAt(disk, lba)
    && (NamesPast(disk[lba], |out|, max) || ListsPast(disk, NextHeader(disk, lba), Listed(out, CStr(disk[lba]), max), max))
  }

  lemma {:induction false} ArchivesListed(disk: Disk, lba: nat, files: seq<File>, out: Text, max: nat)
    requires AllStorable(files) && Encodes(disk, lba, files)
    ensures !ListsPast(disk, lba, out, max)
    decreases |files|
  {
    if files == [] {
      return;
    }
    assert Storable(files[0]) && disk[lba][|files[0].name|] == 0;
    ArchivesListed(disk, lba + 1 + Sectors(|files[0].content|), files[1..], Listed(out, CStr(disk[lba]), max), max);
  }

  /** How a listing ends: well, in a read past a header, or in a write past the buffer. */
  datatype Ending = Well | ReadsPast | WritesPast

  predicate HandleFor(disk: Disk, e: Entry, content: Text) {
    e.used && e.extent.size == |content| && DataAt(disk, e.extent.lba, content)
  }

  function Min(a: nat, b: nat): nat {
    if a <= b then a else b
  }

  /** Byte j that a read of n bytes leaves in the caller's buffer. Where the disk ends short, a
      whole sector leaves the buffer as it was, and the last part comes from the bounce sector as
      it was. */
  function ReadByte(disk: Disk, lba: nat, n: nat, was: Text, bounced: Sector, j: nat): Byte
    requires j < n <= |was|
  {
    if lba + j / 512 < |disk| then disk[lba + j / 512][j % 512]
    else if j / 512 < n / 512 then was[j]
    else bounced[j % 512]
  }

  /** Byte j of whole sectors read into a buffer. */
  function FullByte(disk: Disk, lba: nat, was: Text, j: nat): Byte
    requires j < |was|
  {
    if lba + j / 512 < |disk| then disk[lba + j / 512][j % 512] else was[j]
  }

  lemma FullByteIn(disk: Disk, lba: nat, was: Text, i: nat, j: nat)
    requires i * 512 <= j < (i + 1) * 512 && j < |was|
    ensures FullByte(disk, lba, was, j) == if lba + i < |disk| then disk[lba + i][j - i * 512] else was[j]
  {
    assert j / 512 == i && j % 512 == j - i * 512;
  }

  // ---- listings ----

  const LF: Byte := 0x0A

  /** A name and a line end are added, as far as there is room before the last byte of `max`. */
  function Listed(out: Text, name: Text, max: nat): Text {
    var room := if |out| + 2 < max then max - 2 - |out| else 0;
    var out1 := out + name[..Min(|name|, room)];
    if |out1| + 1 < max then out1 + [LF] else out1
  }

  function Listing(disk: Disk, lba: nat, out: Text, max: nat): Text
    decreases |disk| - lba
  {
    if EndsAt(disk, lba) then out
    else Listing(disk, NextHeader(disk, lba), Listed(out, CStr(disk[lba]), max), max)
  }

  /** The names of the files, a line each. */
  function Names(files: seq<File>): Text {
    if files == [] then [] else files[0].name + [LF] + Names(files[1..])
  }

  lemma {:induction false} ListingFits(disk: Disk, lba: nat, out: Text, max: nat)
    requires |out| < max
    ensures |out| <= |Listing(disk, lba, out, max)| < max && out <= Listing(disk, lba, out, max)
    decreases |disk| - lba
  {
    if EndsAt(disk, lba) {
    } else {
      ListingFits(disk, NextHeader(disk, lba), Listed(out, CStr(disk[lba]), max), max);
    }
  }

  lemma ListedFits(out: Text, name: Text, max: nat)
    requires |out| + |name| + 1 < max
    ensures Listed(out, name, max) == out + name + [LF]
  {
    assert name[..|name|] == name;
  }

  lemma HeaderName(h: Sector, f: File)
    requires IsHeader(h, f) && Storable(f)
    ensures CStr(h) == f.name && h[0] != 0
  {
    CStrIs(h, f.name);
    assert h[0] == f.name[0];
  }

  lemma ListingNext(disk: Disk, lba: nat, f: File, out: Text, max: nat, next: nat, out2: Text)
    requires lba < |disk| && IsHeader(disk[lba], f) && Storable(f) && |out| + |f.name| + 1 < max
    requires next == lba + 1 + Sectors(|f.content|) && out2 == out + f.name + [LF]
    ensures Listing(disk, lba, out, max) == Listing(disk, next, out2, max)
  {
    HeaderName(disk[lba], f);
    ListedFits(out, f.name, max);
  }

  /** The same, after what has been listed so far. */
  function NamesAfter(out: Text, files: seq<File>): (t: Text)
    ensures |t| >= |out|
    decreases |files|
  {
    if files == [] then out else NamesAfter(out + files[0].name + [LF], files[1..])
  }

  lemma {:induction false} NamesAfterIs(out: Text, files: seq<File>)
    ensures NamesAfter(out, files) == out + Names(files)
    decreases |files|
  {
    if files == [] {
      assert out + [] == out;
    } else {
      var name, rest := files[0].name, files[1..];
      NamesAfterIs(out + name + [LF], rest);
      assert (out + name + [LF]) + Names(rest) == out + (name + [LF] + Names(rest));
    }
  }

  /** What an archive with files starts with. */
  lemma FirstEncoded(disk: Disk, lba: nat, files: seq<File>, next: nat)
    requires AllStorable(files) && Encodes(disk, lba, files) && files != []
    requires next == lba + 1 + Sectors(|files[0].content|)
    ensures lba < |disk| && IsHeader(disk[lba], files[0]) && Storable(files[0]) && AllStorable(files[1..])
    ensures Encodes(disk, next, files[1..])
  {
  }

  lemma NamesNext(out: Text, files: seq<File>, out2: Text)
    requires files != [] && out2 == out + files[0].name + [LF]
    ensures NamesAfter(out, files) == NamesAfter(out2, files[1..]) && |out| + |files[0].name| + 1 <= |NamesAfter(out, files)|
  {
  }

  lemma {:induction false} ListsAfter(disk: Disk, lba: nat, files: seq<File>, out: Text, max: nat)
    requires AllStorable(files) && Encodes(disk, lba, files) && |NamesAfter(out, files)| < max
    ensures Listing(disk, lba, out, max) == NamesAfter(out, files)
    decreases |files|
  {
    if files == [] {
    } else {
      var f, rest := files[0], files[1..];
      var out2, next := out + f.name + [LF], lba + 1 + Sectors(|f.content|);
      NamesNext(out, files, out2);
      FirstEncoded(disk, lba, files, next);
      ListingNext(disk, lba, f, out, max, next, out2);
      ListsAfter(disk, next, rest, out2, max);
    }
  }

  lemma {:induction false} ListsSome(disk: Disk, lba: nat, files: seq<File>, out: Text, max: nat, k: nat)
    requires AllStorable(files) && Encodes(disk, lba, files) && k <= |files| && |out + Names(files[..k])| < max
    ensures out + Names(files[..k]) <= Listing(disk, lba, out, max)
    decreases k
  {
    if k == 0 {
      assert files[..0] == [] && out + [] == out;
      ListingFits(disk, lba, out, max);
    } else {
      var f, next := files[0], lba + 1 + Sectors(|files[0].content|);
      var out2 := out + f.name + [LF];
      assert files[..k][0] == f && files[..k][1..] == files[1..][..k - 1];
      assert out + Names(files[..k]) == out2 + Names(files[1..][..k - 1]);
      FirstEncoded(disk, lba, files, next);
      ListingNext(disk, lba, f, out, max, next, out2);
      ListsSome(disk, next, files[1..], out2, max, k - 1);
    }
  }

  /** A listing starts with as many names as there is room for. */
  lemma ListsFirst(disk: Disk, files: seq<File>, max: nat, k: nat)
    requires AllStorable(files) && Encodes(disk, 0, files) && k <= |files| && |Names(files[..k])| < max
    ensures Names(files[..k]) <= Listing(disk, 0, [], max)
  {
    assert [] + Names(files[..k]) == Names(files[..k]);
    ListsSome(disk, 0, files, [], max, k);
  }

  /** A listing with room for all names is all names. */
  lemma ListsNames(disk: Disk, files: seq<File>, max: nat)
    requires AllStorable(files) && Encodes(disk, 0, files) && |Names(files)| < max
    ensures Listing(disk, 0, [], max) == Names(files)
  {
    NamesAfterIs([], files);
    assert [] + Names(files) == Names(files);
    ListsAfter(disk, 0, files, [], max);
  }

  class Server {
    const disk: Disk
    const hdr: array<Byte>
    const bounce: array<Byte>
    const ftab: array<Entry>

    ghost predicate Valid()
      reads this
    {
      hdr.Length == SECTOR && bounce.Length == SECTOR && ftab.Length == HANDLES && hdr != bounce
    }

    constructor (d: Disk)
      ensures Valid() && disk == d && fresh(hdr) && fresh(bounce) && fresh(ftab)
      ensures forall i | 0 <= i < HANDLES :: !ftab[i].used
    {
      disk := d;
      hdr := new Byte[SECTOR];
      bounce := new Byte[SECTOR];
      ftab := new Entry[HANDLES](i => Entry(Extent(0, 0), false));
    }

    /** Reads a sector into a buffer at an offset, by way of the block driver. */
    method BlkRead(lba: nat, buf: array<Byte>, at: nat) returns (err: int)
      requires at + SECTOR <= buf.Length
      modifies buf
      ensures err == 0 <==> lba < |disk|
      ensures buf[..at] == old(buf[..at]) && buf[at + SECTOR..] == old(buf[at + SECTOR..])
      ensures buf[at..at + SECTOR] == if lba < |disk| then disk[lba] else old(buf[at..at + SECTOR])
    {
      if lba >= |disk| {
        return -1;
      }
      var i := 0;
      while i < SECTOR
        invariant i <= SECTOR
        invariant forall k | 0 <= k < buf.Length && !(at <= k < at + i) :: buf[k] == old(buf[k])
        invariant forall k | 0 <= k < i :: buf[at + k] == disk[lba][k]
      {
        buf[at + i] := disk[lba][i];
        i := i + 1;
      }
      err := 0;
    }

    method ParseOctal(p: array<Byte>, at: nat, n: nat) returns (v: nat)
      requires at + n <= p.Length
      ensures v == Octal(0, p[at..at + n])
    {
      v := 0;
      var i := 0;
      while i < n && 0x30 <= p[at + i] <= 0x37
        invariant i <= n && Octal(v, p[at + i..at + n]) == Octal(0, p[at..at + n])
      {
        assert p[at + i..at + n][1..] == p[at + i + 1..at + n];
        v := v * 8 + (p[at + i] - 0x30);
        i := i + 1;
      }
    }

    /** Compares the string at the start of the header sector with a path, ended by a zero byte;
        `past` if the comparison leaves the sector. */
    method NameEq(path: Text) returns (eq: bool, past: bool)
      requires Valid() && NoZero(path)
      ensures past <==> ComparesPast(hdr[..], path)
      ensures !past ==> (eq <==> CStr(hdr[..]) == path)
    {
      var i := 0;
      while i < SECTOR && hdr[i] != 0 && i < |path| && hdr[i] == path[i]
        invariant i <= SECTOR && i <= |path| && hdr[..i] == path[..i]
      {
        i := i + 1;
      }
      if i == SECTOR {
        assert hdr[..i] == hdr[..];
        return false, true;
      }
      NameDiffers(hdr[..], path, i);
      eq, past := hdr[i] == (if i < |path| then path[i] else 0), false;
    }

    /** Reads the header at lba, unless the archive ends there. */
    method ReadHeader(lba: nat) returns (more: bool)
      requires Valid()
      modifies hdr
      ensures more <==> !EndsAt(disk, lba)
      ensures more ==> hdr[..] == disk[lba]
    {
      var err := BlkRead(lba, hdr, 0);
      assert hdr[..] == hdr[0..SECTOR];
      more := err == 0 && hdr[0] != 0;
    }

    lemma HeaderSize(lba: nat)
      requires Valid() && lba < |disk| && hdr[..] == disk[lba]
      ensures Octal(0, hdr[SIZE_AT..SIZE_AT + SIZE_LEN]) == SizeOf(disk[lba])
    {
      assert hdr[SIZE_AT..SIZE_AT + SIZE_LEN] == hdr[..][SIZE_AT..SIZE_AT + SIZE_LEN];
    }

    method FsOpen(path: Text) returns (h: int, past: bool)
      requires Valid() && NoZero(path)
      modifies hdr, ftab
      ensures past <==> WalksPast(disk, 0, path)
      ensures !past ==> Opening(h, ftab[..]) == Opened(disk, old(ftab[..]), path)
    {
      var lba := 0;
      while true
        invariant Find(disk, 0, path) == Find(disk, lba, path)
        invariant WalksPast(disk, 0, path) <==> WalksPast(disk, lba, path)
        invariant ftab[..] == old(ftab[..])
        decreases |disk| - lba
      {
        var more := ReadHeader(lba);
        if !more {
          return -1, false;
        }
        var size := ParseOctal(hdr, SIZE_AT, SIZE_LEN);
        HeaderSize(lba);
        var dataLba := lba + 1;
        var eq, out := NameEq(path);
        if out {
          return -1, true;
        }
        if eq {
          h := TakeHandle(Extent(dataLba, size));
          return h, false;
        }
        lba := dataLba + (size + 511) / 512;
      }
    }

    method TakeHandle(e: Extent) returns (h: int)
      requires Valid()
      modifies ftab
      ensures var i := FreeHandle(old(ftab[..]));
        if i < HANDLES then h == i && ftab[..] == old(ftab[..])[i := Entry(e, true)]
        else h == -1 && ftab[..] == old(ftab[..])
    {
      var i := 0;
      while i < HANDLES
        invariant i <= HANDLES && ftab[..] == old(ftab[..])
        invariant forall j | 0 <= j < i :: ftab[j].used
      {
        if !ftab[i].used {
          ftab[i] := Entry(e, true);
          return i;
        }
        i := i + 1;
      }
      h := -1;
    }

    /** Reads whole sectors, each straight into the buffer. */
    method ReadFull(lba: nat, full: nat, buf: array<Byte>)
      requires full * 512 <= buf.Length
      modifies buf
      ensures forall j | 0 <= j < full * 512 :: buf[j] == FullByte(disk, lba, old(buf[..]), j)
      ensures forall j | full * 512 <= j < buf.Length :: buf[j] == old(buf[j])
    {
      ghost var first := buf[..];
      var i := 0;
      while i < full
        invariant i <= full
        invariant forall j | 0 <= j < i * 512 :: buf[j] == FullByte(disk, lba, first, j)
        invariant forall j | i * 512 <= j < buf.Length :: buf[j] == first[j]
      {
        ghost var was := buf[..];
        var _ := BlkRead(lba + i, buf, i * 512);
        forall j | 0 <= j < (i + 1) * 512
          ensures buf[j] == FullByte(disk, lba, first, j)
        {
          OneSector(was, buf[..], i * 512, j);
          if j >= i * 512 {
            FullByteIn(disk, lba, first, i, j);
          }
        }
        forall j | (i + 1) * 512 <= j < buf.Length
          ensures buf[j] == first[j]
        {
          OneSector(was, buf[..], i * 512, j);
        }
        i := i + 1;
      }
    }

    /** Reads the last part of a sector by way of the bounce sector. */
    method ReadPart(lba: nat, at: nat, rem: nat, buf: array<Byte>)
      requires Valid() && rem < 512 && at + rem <= buf.Length && buf != bounce
      modifies buf, bounce
      ensures forall j | 0 <= j < rem :: buf[at + j] == if lba < |disk| then disk[lba][j] else old(bounce[j])
      ensures forall j | 0 <= j < buf.Length && !(at <= j < at + rem) :: buf[j] == old(buf[j])
    {
      var _ := BlkRead(lba, bounce, 0);
      ghost var b := bounce[..];
      assert b == bounce[0..SECTOR];
      assert old(bounce[0..SECTOR]) == old(bounce[..]);
      assert forall j | 0 <= j < SECTOR :: b[j] == if lba < |disk| then disk[lba][j] else old(bounce[..])[j];
      var j := 0;
      while j < rem
        modifies buf
        invariant j <= rem
        invariant forall k | 0 <= k < j :: buf[at + k] == b[k]
        invariant forall k | 0 <= k < buf.Length && !(at <= k < at + j) :: buf[k] == old(buf[k])
      {
        buf[at + j] := bounce[j];
        j := j + 1;
      }
    }

    method FsRead(h: int, buf: array<Byte>, max: nat) returns (n: int)
      requires Valid() && buf != bounce && buf != hdr
      requires 0 <= h < HANDLES && ftab[h].used ==> Min(ftab[h].extent.size, max) <= buf.Length
      modifies buf, bounce
      ensures if 0 <= h < HANDLES && ftab[h].used then
          var e := ftab[h].extent;
          && n == Min(e.size, max)
          && (forall j: nat | j < n :: buf[j] == ReadByte(disk, e.lba, n, old(buf[..]), old(bounce[..]), j))
          && buf[n..] == old(buf[n..])
        else n == -1 && buf[..] == old(buf[..])
    {
      if h < 0 || h >= HANDLES || !ftab[h].used {
        return -1;
      }
      var lba, size := ftab[h].extent.lba, ftab[h].extent.size;
      if size > max {
        size := max;
      }
      var full := size / 512;
      var rem := size - full * 512;
      ReadFull(lba, full, buf);
      if rem > 0 {
        ReadPart(lba + full, full * 512, rem, buf);
      }
      n := size;
    }

    /** Adds the name in the header sector to a listing of `out` bytes; `past` if it reads on behind
        the sector. */
    method ListName(buf: array<Byte>, out: nat, max: nat) returns (end: nat, past: bool)
      requires Valid() && Limited(out, max) && max <= buf.Length && buf != hdr
      modifies buf
      ensures past <==> NamesPast(hdr[..], out, max)
      ensures Limited(end, max) && (!past ==> buf[..end] == Listed(old(buf[..out]), CStr(hdr[..]), max))
    {
      ghost var was, name := buf[..out], CStr(hdr[..]);
      end := out;
      var i := 0;
      while i < SECTOR && hdr[i] != 0 && end + 2 < max
        invariant i <= |name| && end == out + i && Limited(end, max) && (i > 0 ==> end + 1 < max)
        invariant buf[..end] == was + name[..i]
      {
        CStrReaches(hdr[..], i);
        buf[end] := hdr[i];
        assert buf[..end + 1] == buf[..end] + [name[i]];
        end := end + 1;
        i := i + 1;
      }
      NamesPastAt(hdr[..], out, max, i);
      if i == SECTOR {
        return end, true;
      }
      if hdr[i] == 0 {
        CStrStops(hdr[..], i);
      }
      past := false;
      if end + 1 < max {
        buf[end] := LF;
        end := end + 1;
      }
    }

    /** One round: the entry at lba, unless the archive ends there. */
    method ListEntry(lba: nat, buf: array<Byte>, out: nat, max: nat) returns (more: bool, next: nat, end: nat, past: bool)
      requires Valid() && Limited(out, max) && max <= buf.Length && buf != hdr
      modifies hdr, buf
      ensures more <==> !EndsAt(disk, lba)
      ensures !more ==> end == out && buf[..] == old(buf[..])
      ensures more ==>
        && next == NextHeader(disk, lba) && (past <==> NamesPast(disk[lba], out, max))
        && Limited(end, max) && (!past ==> buf[..end] == Listed(old(buf[..out]), CStr(disk[lba]), max))
    {
      more := ReadHeader(lba);
      if !more {
        return false, lba, out, false;
      }
      var size := ParseOctal(hdr, SIZE_AT, SIZE_LEN);
      HeaderSize(lba);
      end, past := ListName(buf, out, max);
      next := lba + 1 + (size + 511) / 512;
    }

    /** MSG_LIST into a buffer of `max` bytes; a zero byte ends the list, and has no room in an empty
        buffer. */
    method FsList(buf: array<Byte>, max: nat) returns (n: nat, end: Ending)
      requires Valid() && max <= buf.Length && buf != hdr
      modifies hdr, buf
      ensures end.ReadsPast? <==> ListsPast(disk, 0, [], max)
      ensures end.WritesPast? <==> max == 0
      ensures end.Well? ==> n < max && buf[..n] == Listing(disk, 0, [], max) && buf[n] == 0
    {
      NothingPast(disk, 0);
      var lba := 0;
      n := 0;
      while true
        invariant Limited(n, max) && LeadsTo(disk, 0, [], lba, buf[..n], max)
        decreases |disk| - lba
      {
        LeadsOn(disk, 0, [], lba, buf[..n], max);
        var more, next, m, out := ListEntry(lba, buf, n, max);
        n := m;
        if !more {
          break;
        }
        if out {
          return n, ReadsPast;
        }
        lba := next;
      }
      if n >= max {
        return n, WritesPast;
      }
      buf[n] := 0;
      end := Well;
    }

    /** A client that opens a path and reads the file into a buffer of `max` bytes, from an archive
        that holds these files: it gets a handle exactly if a file has that name and a handle is
        free, and then the first `max` bytes of the first such file. */
    method OpenAndRead(path: Text, buf: array<Byte>, max: nat, ghost files: seq<File>) returns (h: int, n: int)
      requires Valid() && NoZero(path) && max <= buf.Length && buf != hdr && buf != bounce
      requires AllStorable(files) && Encodes(disk, 0, files)
      modifies hdr, bounce, ftab, buf
      ensures var i := FirstNamed(files, path);
        && (h >= 0 <==> i < |files| && exists k | 0 <= k < HANDLES :: !old(ftab[..])[k].used)
        && if h >= 0 then n == Min(|files[i].content|, max) && buf[..n] == files[i].content[..n] else n == -1
    {
      ghost var i := FirstNamed(files, path);
      OpenSucceeds(disk, files, ftab[..], path);
      ArchivesStay(disk, 0, files, path);
      var past;
      h, past := FsOpen(path);
      n := -1;
      if h >= 0 {
        ghost var e, content, was, bounced := ftab[h], files[i].content, buf[..], bounce[..];
        assert e == ftab[..][h];
        n := FsRead(h, buf, max);
        forall j: nat | j < n
          ensures buf[j] == content[j]
        {
          ReadsContent(disk, e, content, n, was, bounced, j);
        }
      }
    }

    method Close(h: int)
      requires Valid()
      modifies ftab
      ensures ftab[..] == if 0 <= h < HANDLES then old(ftab[..])[h := old(ftab[..])[h].(used := false)] else old(ftab[..])
    {
      if 0 <= h < HANDLES {
        ftab[h] := ftab[h].(used := false);
      }
    }
  }

  /** A listing of n bytes leaves room for its terminator, if there is any. */
  predicate Limited(n: nat, max: nat) {
    n < max || n == max == 0
  }

  /** A listing that has come to lba with `out` goes on as the one from lba0 and `out0` does. */
  ghost predicate LeadsTo(disk: Disk, lba0: nat, out0: Text, lba: nat, out: Text, max: nat) {
    && Listing(disk, lba0, out0, max) == Listing(disk, lba, out, max)
    && (ListsPast(disk, lba0, out0, max) <==> ListsPast(disk, lba, out, max))
  }

  lemma LeadsOn(disk: Disk, lba0: nat, out0: Text, lba: nat, out: Text, max: nat)
    requires LeadsTo(disk, lba0, out0, lba, out, max)
    ensures EndsAt(disk, lba) ==> Listing(disk, lba0, out0, max) == out && !ListsPast(disk, lba0, out0, max)
    ensures !EndsAt(disk, lba) ==>
      && (NamesPast(disk[lba], |out|, max) ==> ListsPast(disk, lba0, out0, max))
      && (!NamesPast(disk[lba], |out|, max) ==>
            LeadsTo(disk, lba0, out0, NextHeader(disk, lba), Listed(out, CStr(disk[lba]), max), max))
  {
  }

  /** Nothing runs past a header when there is no room for a sector. */
  lemma {:induction false} NothingPast(disk: Disk, lba: nat)
    ensures !ListsPast(disk, lba, [], 0)
    decreases |disk| - lba
  {
    if EndsAt(disk, lba) {
      return;
    }
    assert Listed([], CStr(disk[lba]), 0) == [];
    NothingPast(disk, NextHeader(disk, lba));
  }

  /** The loop over a name stops at i: at the sector's end exactly if it would run past it. */
  lemma NamesPastAt(h: Sector, out: nat, max: nat, i: nat)
    requires i <= SECTOR && i <= |CStr(h)| && (i > 0 ==> out + i + 1 < max)
    requires i == SECTOR || h[i] == 0 || out + i + 2 >= max
    ensures i == SECTOR <==> NamesPast(h, out, max)
  {
    if i == SECTOR {
      assert CStr(h) == h;
    }
  }

  /** Two strings that agree up to i are equal exactly if they agree at i too, where each of them may
      end. */
  lemma NameDiffers(s: Sector, t: Text, i: nat)
    requires NoZero(t) && i <= |t| && i < SECTOR && s[..i] == t[..i]
    requires s[i] == 0 || i == |t| || s[i] != t[i]
    ensures !ComparesPast(s, t)
    ensures s[i] == (if i < |t| then t[i] else 0) <==> CStr(s) == t
  {
    var c := CStr(s);
    assert |c| >= i by {
      assert c == s[..|c|];
    }
    assert |t| >= SECTOR ==> t[..SECTOR][i] == t[i];
    if s[i] == 0 && i == |t| {
      CStrIs(s, t);
    }
  }

  lemma CStrReaches(s: Text, i: nat)
    requires i < |s| && i <= |CStr(s)| && s[i] != 0
    ensures i < |CStr(s)| && CStr(s)[i] == s[i]
  {
  }

  lemma CStrStops(s: Text, i: nat)
    requires i <= |CStr(s)| && (i == |s| || s[i] == 0)
    ensures i == |CStr(s)|
  {
    var c := CStr(s);
    assert c == s[..|c|];
  }

  lemma OneSector(was: Text, now: Text, at: nat, j: nat)
    requires |was| == |now| && at + SECTOR <= |was| && j < |was|
    requires now[..at] == was[..at] && now[at + SECTOR..] == was[at + SECTOR..]
    ensures now[j] == if at <= j < at + SECTOR then now[at..at + SECTOR][j - at] else was[j]
  {
    if j < at {
      assert now[..at][j] == was[..at][j];
    } else if j >= at + SECTOR {
      assert now[at + SECTOR..][j - at - SECTOR] == was[at + SECTOR..][j - at - SECTOR];
    }
  }

  /** Reading a handle that is for some content gives the content's first bytes. */
  lemma ReadsContent(disk: Disk, e: Entry, content: Text, n: nat, was: Text, bounced: Sector, j: nat)
    requires HandleFor(disk, e, content) && j < n <= |content| && n <= |was|
    ensures ReadByte(disk, e.extent.lba, n, was, bounced, j) == content[j]
  {
    assert disk[e.extent.lba + j / 512][j % 512] == content[j];
  }
}
