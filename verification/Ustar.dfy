/** The archive on the disk (servers/fs_server/main.c): the walk over the headers of a ustar archive,
    as the "ustar Interchange Format" of the pax utility in IEEE Std 1003.1 lays them out, and an
    archive writer that it inverts. */
module Ustar {
  import opened Options
  import opened Words

  const SECTOR: nat := 512
  const SIZE_AT: nat := 124
  const SIZE_LEN: nat := 12

  type Text = seq<Byte>
  type Sector = s: seq<Byte> | |s| == 512 witness seq(512, i => 0)

  /** A disk is a finite sequence of sectors; reading past its end fails. */
  type Disk = seq<Sector>

  // ---- octal numbers ----

  predicate OctalDigit(b: Byte) {
    0x30 <= b <= 0x37
  }

  /** The number that the leading octal digits of s continue from v. */
  function Octal(v: nat, s: Text): nat
    decreases |s|
  {
    if s == [] || !OctalDigit(s[0]) then v else Octal(8 * v + (s[0] - 0x30), s[1..])
  }

  function Pow8(n: nat): nat {
    if n == 0 then 1 else 8 * Pow8(n - 1)
  }

  /** v in n octal digits. */
  function Digits(v: nat, n: nat): (s: Text)
    ensures |s| == n
  {
    if n == 0 then [] else Digits(v / 8, n - 1) + [0x30 + v % 8]
  }

  lemma {:induction false} OctalAppend(v: nat, s: Text, t: Text)
    requires forall i | 0 <= i < |s| :: OctalDigit(s[i])
    ensures Octal(v, s + t) == Octal(Octal(v, s), t)
    decreases |s|
  {
    if s == [] {
      assert s + t == t;
    } else {
      assert (s + t)[1..] == s[1..] + t;
      OctalAppend(8 * v + (s[0] - 0x30), s[1..], t);
    }
  }

  lemma {:induction false} DigitsRead(v: nat, n: nat)
    requires v < Pow8(n)
    ensures Octal(0, Digits(v, n)) == v
    ensures forall i | 0 <= i < n :: OctalDigit(Digits(v, n)[i])
  {
    if n == 0 {
    } else {
      DigitsRead(v / 8, n - 1);
      OctalAppend(0, Digits(v / 8, n - 1), [0x30 + v % 8]);
      assert [0x30 + v % 8][1..] == [];
    }
  }

  /** A number field: its digits, then a byte that is none. */
  lemma FieldRead(v: nat, n: nat, end: Byte)
    requires v < Pow8(n) && !OctalDigit(end)
    ensures Octal(0, Digits(v, n) + [end]) == v
  {
    DigitsRead(v, n);
    OctalAppend(0, Digits(v, n), [end]);
  }

  // ---- strings ----

  /** The bytes before the first zero byte. */
  function CStr(s: Text): (t: Text)
    ensures |t| <= |s| && t == s[..|t|] && (|t| < |s| ==> s[|t|] == 0)
    ensures forall i | 0 <= i < |t| :: t[i] != 0
    decreases |s|
  {
    if s == [] || s[0] == 0 then []
    else
      var t := CStr(s[1..]);
      assert s[1..][..|t|] == s[1..1 + |t|];
      [s[0]] + t
  }

  predicate NoZero(t: Text) {
    forall i | 0 <= i < |t| :: t[i] != 0
  }

  lemma {:induction false} CStrIs(s: Text, t: Text)
    requires |t| < |s| && s[..|t|] == t && s[|t|] == 0 && NoZero(t)
    ensures CStr(s) == t
    decreases |t|
  {
    if t == [] {
      return;
    }
    assert s[0] == t[0];
    assert s[1..][..|t| - 1] == t[1..];
    CStrIs(s[1..], t[1..]);
  }

  // ---- the walk ----

  /** Where the data of an entry is. */
  datatype Extent = Extent(lba: nat, size: nat)

  function SizeOf(h: Sector): nat {
    Octal(0, h[SIZE_AT..SIZE_AT + SIZE_LEN])
  }

  function Sectors(size: nat): nat {
    (size + 511) / 512
  }

  /** A header that cannot be read or starts with a zero byte ends the archive. */
  predicate EndsAt(disk: Disk, lba: nat) {
    lba >= |disk| || disk[lba][0] == 0
  }

  function NextHeader(disk: Disk, lba: nat): (n: nat)
    requires lba < |disk|
    ensures n > lba
  {
    lba + 1 + Sectors(SizeOf(disk[lba]))
  }

  /** The first entry from the header at lba on whose name is the path. */
  function Find(disk: Disk, lba: nat, path: Text): Option<Extent>
    decreases |disk| - lba
  {
    if EndsAt(disk, lba) then None
    else if CStr(disk[lba]) == path then Some(Extent(lba + 1, SizeOf(disk[lba])))
    else Find(disk, NextHeader(disk, lba), path)
  }

  // ---- archives ----

  datatype File = File(name: Text, content: Text)

  /** What the format stores of a file without a prefix: a name of one to ninety-nine bytes, and a
      size of eleven octal digits. */
  predicate Storable(f: File) {
    0 < |f.name| < 100 && NoZero(f.name) && |f.content| < Pow8(11)
  }

  predicate AllStorable(files: seq<File>) {
    forall i | 0 <= i < |files| :: Storable(files[i])
  }

  /** A header for the file, whatever its other fields say. */
  predicate IsHeader(h: Sector, f: File) {
    && |f.name| < 100 && h[..|f.name|] == f.name && h[|f.name|] == 0
    && SizeOf(h) == |f.content|
  }

  /** The content stands in the sectors from lba on. */
  predicate DataAt(disk: Disk, lba: nat, content: Text) {
    && lba + Sectors(|content|) <= |disk|
    && forall j | 0 <= j < |content| :: disk[lba + j / 512][j % 512] == content[j]
  }

  /** From sector lba on, the disk holds these files and then the end of the archive. */
  predicate Encodes(disk: Disk, lba: nat, files: seq<File>)
    decreases |files|
  {
    if files == [] then EndsAt(disk, lba)
    else
      && lba < |disk| && IsHeader(disk[lba], files[0]) && DataAt(disk, lba + 1, files[0].content)
      && Encodes(disk, lba + 1 + Sectors(|files[0].content|), files[1..])
  }

  /** The first file of that name, or the number of files. */
  function FirstNamed(files: seq<File>, path: Text): (i: nat)
    ensures i <= |files| && (i < |files| ==> files[i].name == path)
    ensures forall j | 0 <= j < i :: files[j].name != path
    decreases |files|
  {
    if files == [] || files[0].name == path then 0
    else
      var i := FirstNamed(files[1..], path);
      assert forall j | 0 < j < i + 1 :: files[j] == files[1..][j - 1];
      1 + i
  }

  /** The walk finds a path exactly if a file of the archive has that name, and then the content of
      the first such file. */
  lemma {:induction false} FindInverts(disk: Disk, lba: nat, files: seq<File>, path: Text)
    requires AllStorable(files) && Encodes(disk, lba, files)
    ensures var i := FirstNamed(files, path); var r := Find(disk, lba, path);
      if i < |files| then r.Some? && r.value.size == |files[i].content| && DataAt(disk, r.value.lba, files[i].content)
      else r.None?
    decreases |files|
  {
    if files == [] {
    } else {
      var f := files[0];
      assert Storable(f);
      CStrIs(disk[lba], f.name);
      assert disk[lba][0] == f.name[0];
      if f.name != path {
        FindInverts(disk, lba + 1 + Sectors(|f.content|), files[1..], path);
      }
    }
  }

  // ---- a writer ----

  function Zeros(k: nat): (t: Text)
    ensures |t| == k
  {
    seq(k, i => 0)
  }

  function Padded(t: Text, n: nat): (p: Text)
    requires |t| <= n
    ensures |p| == n && p[..|t|] == t
  {
    t + Zeros(n - |t|)
  }

  function Sum(t: Text): nat {
    if t == [] then 0 else t[0] + Sum(t[1..])
  }

  /** The fields before the checksum: name, mode, user, group, size and time. */
  function Front(f: File): (t: Text)
    requires Storable(f)
    ensures |t| == 148
  {
    Padded(f.name, 100) + Digits(0x1A4, 7) + [0] + Digits(0, 7) + [0] + Digits(0, 7) + [0] +
    Digits(|f.content|, 11) + [0] + Digits(0, 11) + [0]
  }

  /** The fields after it: a regular file, no link, the magic and version, and no names or prefix. */
  function Back(): (t: Text)
    ensures |t| == 356
  {
    [0x30] + Zeros(100) + [0x75, 0x73, 0x74, 0x61, 0x72, 0] + [0x30, 0x30] + Zeros(247)
  }

  /** The checksum is taken with blanks in its own place. */
  function Header(f: File): (h: Sector)
    requires Storable(f)
  {
    var sum := Sum(Front(f)) + 8 * 0x20 + Sum(Back());
    Front(f) + Digits(sum, 6) + [0, 0x20] + Back()
  }

  lemma HeaderIs(f: File)
    requires Storable(f)
    ensures IsHeader(Header(f), f)
  {
    var h := Header(f);
    assert h[..100] == Front(f)[..100] == Padded(f.name, 100);
    assert h[..|f.name|] == f.name;
    assert h[|f.name|] == Padded(f.name, 100)[|f.name|] == 0;
    SizeField(f);
    FieldRead(|f.content|, 11, 0);
  }

  lemma SizeField(f: File)
    requires Storable(f)
    ensures Header(f)[SIZE_AT..SIZE_AT + SIZE_LEN] == Digits(|f.content|, 11) + [0]
  {
    var a := Padded(f.name, 100) + Digits(0x1A4, 7) + [0] + Digits(0, 7) + [0] + Digits(0, 7) + [0];
    var b := Digits(|f.content|, 11) + [0];
    var c := Digits(0, 11) + [0];
    assert Front(f) == a + b + c;
    assert |a| == SIZE_AT && |b| == SIZE_LEN;
    assert Header(f)[SIZE_AT..SIZE_AT + SIZE_LEN] == Front(f)[SIZE_AT..SIZE_AT + SIZE_LEN] == b;
  }

  /** A file's content, cut into sectors, the last one filled up with zeros. */
  function Cut(content: Text): (d: Disk)
    ensures |d| == Sectors(|content|)
    decreases |content|
  {
    if content == [] then []
    else if |content| <= 512 then [Padded(content, 512)]
    else [content[..512]] + Cut(content[512..])
  }

  lemma {:induction false} CutHolds(content: Text, j: nat)
    requires j < |content|
    ensures Cut(content)[j / 512][j % 512] == content[j]
    decreases |content|
  {
    if |content| <= 512 {
      assert Padded(content, 512)[..|content|][j] == content[j];
    } else if j >= 512 {
      CutHolds(content[512..], j - 512);
    }
  }

  /** Headers for the files, whatever their other fields say. */
  predicate HeadersFor(headers: seq<Sector>, files: seq<File>) {
    |headers| == |files| && forall i | 0 <= i < |files| :: IsHeader(headers[i], files[i])
  }

  /** An archive: each file's header and content, then two empty sectors. */
  function Written(headers: seq<Sector>, files: seq<File>): Disk
    requires |headers| == |files|
    decreases |files|
  {
    if files == [] then [Zeros(512), Zeros(512)]
    else [headers[0]] + Cut(files[0].content) + Written(headers[1..], files[1..])
  }

  /** A file's header and content, in the middle of a disk. */
  lemma FilePlaced(disk: Disk, before: Disk, h: Sector, f: File, rest: Disk)
    requires IsHeader(h, f) && disk == before + [h] + Cut(f.content) + rest
    ensures |before| < |disk| && IsHeader(disk[|before|], f) && DataAt(disk, |before| + 1, f.content)
  {
    var c := Cut(f.content);
    assert disk[|before|] == h;
    assert forall k | 0 <= k < |c| :: disk[|before| + 1 + k] == c[k];
    forall j | 0 <= j < |f.content|
      ensures disk[|before| + 1 + j / 512][j % 512] == f.content[j]
    {
      CutHolds(f.content, j);
      assert disk[|before| + 1 + j / 512] == c[j / 512];
    }
  }

  lemma Regroup(before: Disk, a: Disk, b: Disk, c: Disk, after: Disk)
    ensures before + (a + b + c) + after == before + a + b + (c + after)
    ensures before + (a + b + c) + after == (before + a + b) + c + after
  {
  }

  lemma EncodesMore(disk: Disk, lba: nat, files: seq<File>)
    requires files != [] && lba < |disk| && IsHeader(disk[lba], files[0]) && DataAt(disk, lba + 1, files[0].content)
    requires Encodes(disk, lba + 1 + Sectors(|files[0].content|), files[1..])
    ensures Encodes(disk, lba, files)
  {
  }

  lemma {:induction false} WrittenEncodes(disk: Disk, before: Disk, headers: seq<Sector>, files: seq<File>, after: Disk)
    requires HeadersFor(headers, files) && disk == before + Written(headers, files) + after
    ensures Encodes(disk, |before|, files)
    decreases |files|
  {
    if files == [] {
      assert disk[|before|] == Zeros(512);
    } else {
      var h, f := headers[0], files[0];
      var more := Written(headers[1..], files[1..]);
      Regroup(before, [h], Cut(f.content), more, after);
      FilePlaced(disk, before, h, f, more + after);
      WrittenEncodes(disk, before + [h] + Cut(f.content), headers[1..], files[1..], after);
      EncodesMore(disk, |before|, files);
    }
  }

  /** Finding a file in a written archive, with anything after it on the disk. */
  lemma WrittenFound(headers: seq<Sector>, files: seq<File>, after: Disk, path: Text)
    requires AllStorable(files) && HeadersFor(headers, files)
    ensures var disk := Written(headers, files) + after; Found(disk, files, path)
  {
    var disk := Written(headers, files) + after;
    assert [] + Written(headers, files) + after == disk;
    WrittenEncodes(disk, [], headers, files, after);
    FindInverts(disk, 0, files, path);
  }

  /** The walk from the start of the disk finds the path exactly if a file has that name, and then
      the content of the first such file. */
  predicate Found(disk: Disk, files: seq<File>, path: Text) {
    var i, r := FirstNamed(files, path), Find(disk, 0, path);
    if i < |files| then r.Some? && r.value.size == |files[i].content| && DataAt(disk, r.value.lba, files[i].content)
    else r.None?
  }

  /** The writer of this format. */
  function Archive(files: seq<File>): Disk
    requires AllStorable(files)
  {
    Written(seq(|files|, i requires 0 <= i < |files| => Header(files[i])), files)
  }

  lemma RoundTrip(files: seq<File>, after: Disk, path: Text)
    requires AllStorable(files)
    ensures Found(Archive(files) + after, files, path)
  {
    var headers := seq(|files|, i requires 0 <= i < |files| => Header(files[i]));
    forall i | 0 <= i < |files|
      ensures IsHeader(headers[i], files[i])
    {
      HeaderIs(files[i]);
    }
    WrittenFound(headers, files, after, path);
  }
}
