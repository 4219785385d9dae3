/** Runs of requests to the filesystem server (servers/fs_server/main.c): the service loop, and what a
    client's handle reads whatever other requests come between. */
module FsRuns {
  import opened Words
  import opened Ustar
  import opened FsServer

  /** A request, with its limit: MSG_OPEN, MSG_FREAD, MSG_LIST and MSG_CLOSE. */
  datatype Request = Open(path: Text) | Read(h: int, limit: nat) | List(limit: nat) | Close(h: int)

  type Handles = t: seq<Entry> | |t| == HANDLES witness seq(HANDLES, i => Entry(Extent(0, 0), false))

  predicate PathOk(r: Request) {
    r.Open? ==> NoZero(r.path)
  }

  /** How many bytes the client's buffer has for the answer. */
  function LimitOf(r: Request): nat {
    if r.Read? || r.List? then r.limit else 0
  }

  predicate InUse(ftab: Handles, h: int) {
    0 <= h < HANDLES && ftab[h].used
  }

  /** The limit that a read goes by: one of 0 is taken for the size of handle 0. */
  function LimitUsed(ftab: Handles, limit: nat): nat {
    if limit != 0 then limit else ftab[0].extent.size
  }

  /** A read writes outside the client's buffer: the buffer is empty, and neither the file of the
      handle nor that of handle 0 is. */
  predicate ReadOverruns(ftab: Handles, h: int, limit: nat) {
    InUse(ftab, h) && limit == 0 && ftab[h].extent.size > 0 && ftab[0].extent.size > 0
  }

  /** The request makes the server read past a header or write outside the client's buffer; the model
      goes no further. */
  predicate Ends(disk: Disk, ftab: Handles, r: Request) {
    match r
    case Open(path) => WalksPast(disk, 0, path)
    case Read(h, limit) => ReadOverruns(ftab, h, limit)
    case List(limit) => limit == 0 || ListsPast(disk, 0, [], limit)
    case Close(_) => false
  }

  /** The handles after a request. */
  function After(disk: Disk, ftab: Handles, r: Request): Handles {
    match r
    case Open(path) => Opened(disk, ftab, path).ftab
    case Close(h) => if 0 <= h < HANDLES then ftab[h := ftab[h].(used := false)] else ftab
    case _ => ftab
  }

  /** A handle in use stays as it is exactly until it is closed, and then it is free. */
  lemma HandleStays(disk: Disk, ftab: Handles, r: Request, h: nat)
    requires InUse(ftab, h)
    ensures After(disk, ftab, r)[h] == ftab[h] <==> r != Close(h)
    ensures r == Close(h) ==> !InUse(After(disk, ftab, r), h)
  {
  }

  function AfterAll(disk: Disk, ftab: Handles, rs: seq<Request>): Handles
    decreases |rs|
  {
    if rs == [] then ftab else AfterAll(disk, After(disk, ftab, rs[0]), rs[1..])
  }

  predicate EndsIn(disk: Disk, ftab: Handles, rs: seq<Request>)
    decreases |rs|
  {
    rs != [] && (Ends(disk, ftab, rs[0]) || EndsIn(disk, After(disk, ftab, rs[0]), rs[1..]))
  }

  lemma {:induction false} HandleKept(disk: Disk, ftab: Handles, rs: seq<Request>, h: nat)
    requires InUse(ftab, h) && Close(h) !in rs
    ensures AfterAll(disk, ftab, rs)[h] == ftab[h]
    decreases |rs|
  {
    if rs == [] {
    } else {
      HandleStays(disk, ftab, rs[0], h);
      HandleKept(disk, After(disk, ftab, rs[0]), rs[1..], h);
    }
  }

  /** A request with room for an answer. */
  predicate HasRoom(r: Request) {
    PathOk(r) && (r.Read? || r.List? ==> r.limit > 0)
  }

  /** On an archive no run of requests with room for their answers makes the server read or write
      where it should not. */
  lemma {:induction false} ArchiveServes(disk: Disk, ftab: Handles, files: seq<File>, rs: seq<Request>)
    requires AllStorable(files) && Encodes(disk, 0, files) && forall r | r in rs :: HasRoom(r)
    ensures !EndsIn(disk, ftab, rs)
    decreases |rs|
  {
    if rs == [] {
    } else {
      assert HasRoom(rs[0]);
      match rs[0] {
        case Open(path) => ArchivesStay(disk, 0, files, path);
        case List(limit) => ArchivesListed(disk, 0, files, [], limit);
        case _ =>
      }
      ArchiveServes(disk, After(disk, ftab, rs[0]), files, rs[1..]);
    }
  }

  lemma {:induction false} RunsOn(disk: Disk, ftab: Handles, rs: seq<Request>, r: Request)
    ensures AfterAll(disk, ftab, rs + [r]) == After(disk, AfterAll(disk, ftab, rs), r)
    ensures EndsIn(disk, ftab, rs + [r]) <==> EndsIn(disk, ftab, rs) || Ends(disk, AfterAll(disk, ftab, rs), r)
    decreases |rs|
  {
    if rs == [] {
      assert (rs + [r])[0] == r && (rs + [r])[1..] == [];
    } else {
      assert (rs + [r])[0] == rs[0] && (rs + [r])[1..] == rs[1..] + [r];
      RunsOn(disk, After(disk, ftab, rs[0]), rs[1..], r);
    }
  }

  /** The run ends in its first i requests only if it ends at all. */
  lemma {:induction false} EndsEarlier(disk: Disk, ftab: Handles, rs: seq<Request>, i: nat)
    requires i <= |rs| && EndsIn(disk, ftab, rs[..i])
    ensures EndsIn(disk, ftab, rs)
    decreases |rs|
  {
    if i == 0 || Ends(disk, ftab, rs[0]) {
    } else {
      assert rs[..i][0] == rs[0] && rs[..i][1..] == rs[1..][..i - 1];
      EndsEarlier(disk, After(disk, ftab, rs[0]), rs[1..], i - 1);
    }
  }

  // ---- the service loop ----

  /** MSG_FREAD: the first bytes of the file of a handle, up to the limit. */
  method ServeRead(fs: Server, h: int, buf: array<Byte>, limit: nat) returns (n: int, over: bool)
    requires fs.Valid() && buf != fs.bounce && buf != fs.hdr && limit <= buf.Length
    modifies buf, fs.bounce
    ensures over <==> ReadOverruns(fs.ftab[..], h, limit)
    ensures !over ==>
      if InUse(fs.ftab[..], h) then
        var e := fs.ftab[h].extent;
        && n == Min(e.size, limit)
        && forall j: nat | j < n :: buf[j] == ReadByte(fs.disk, e.lba, n, old(buf[..]), old(fs.bounce[..]), j)
      else n == -1 && buf[..] == old(buf[..])
  {
    var max := if limit != 0 then limit else fs.ftab[0].extent.size;
    if 0 <= h < HANDLES && fs.ftab[h].used && Min(fs.ftab[h].extent.size, max) > limit {
      return 0, true;
    }
    n := fs.FsRead(h, buf, max);
    over := false;
  }

  /** One request; what it returns to the client is left out but for a handle. */
  method Serve(fs: Server, r: Request, buf: array<Byte>) returns (reply: int, over: bool)
    requires fs.Valid() && PathOk(r) && buf != fs.bounce && buf != fs.hdr && LimitOf(r) <= buf.Length
    modifies buf, fs.hdr, fs.bounce, fs.ftab
    ensures over <==> Ends(fs.disk, old(fs.ftab[..]), r)
    ensures !over ==> fs.ftab[..] == After(fs.disk, old(fs.ftab[..]), r)
    ensures !over && r.Open? ==> reply == Opened(fs.disk, old(fs.ftab[..]), r.path).handle
  {
    match r
    case Open(path) =>
      reply, over := fs.FsOpen(path);
    case Read(h, limit) =>
      reply, over := ServeRead(fs, h, buf, limit);
    case List(limit) =>
      var end;
      reply, end := fs.FsList(buf, limit);
      over := !end.Well?;
    case Close(h) =>
      fs.Close(h);
      reply, over := 0, false;
  }

  /** The buffers of some requests, apart from the server's own. */
  ghost predicate Buffers(fs: Server, rs: seq<Request>, bufs: seq<array<Byte>>) {
    && |bufs| == |rs|
    && forall i | 0 <= i < |rs| ::
      PathOk(rs[i]) && bufs[i] != fs.bounce && bufs[i] != fs.hdr && LimitOf(rs[i]) <= bufs[i].Length
  }

  /** The loop over the requests of any clients. */
  method ServeAll(fs: Server, rs: seq<Request>, bufs: seq<array<Byte>>) returns (over: bool)
    requires fs.Valid() && Buffers(fs, rs, bufs)
    modifies fs.hdr, fs.bounce, fs.ftab, bufs
    ensures over <==> EndsIn(fs.disk, old(fs.ftab[..]), rs)
    ensures !over ==> fs.ftab[..] == AfterAll(fs.disk, old(fs.ftab[..]), rs)
  {
    ghost var was := fs.ftab[..];
    var i := 0;
    assert rs[..0] == [];
    while i < |rs|
      invariant 0 <= i <= |rs| && !EndsIn(fs.disk, was, rs[..i]) && fs.ftab[..] == AfterAll(fs.disk, was, rs[..i])
    {
      RunsOn(fs.disk, was, rs[..i], rs[i]);
      assert rs[..i] + [rs[i]] == rs[..i + 1];
      var _, out := Serve(fs, rs[i], bufs[i]);
      if out {
        EndsEarlier(fs.disk, was, rs, i + 1);
        return true;
      }
      i := i + 1;
    }
    assert rs[..i] == rs;
    over := false;
  }

  /** A client that opens a path, and reads from the handle after any requests of others, none of
      which closes it: it gets the first bytes of the file it opened. If the other requests have room
      for their answers, and the read has, nothing goes wrong. */
  method OpenThenRead(fs: Server, path: Text, rs: seq<Request>, bufs: seq<array<Byte>>, buf: array<Byte>, limit: nat,
                      ghost files: seq<File>) returns (h: int, n: int, over: bool)
    requires fs.Valid() && NoZero(path) && Buffers(fs, rs, bufs)
    requires buf != fs.bounce && buf != fs.hdr && limit <= buf.Length
    requires AllStorable(files) && Encodes(fs.disk, 0, files)
    modifies fs.hdr, fs.bounce, fs.ftab, bufs, buf
    ensures var i := FirstNamed(files, path);
      && (h >= 0 <==> i < |files| && exists k | 0 <= k < HANDLES :: !old(fs.ftab[..])[k].used)
      && (h >= 0 && !over && Close(h) !in rs ==>
            n == Min(|files[i].content|, limit) && buf[..n] == files[i].content[..n])
    ensures (forall r | r in rs :: HasRoom(r)) && limit > 0 ==> !over
  {
    ghost var i := FirstNamed(files, path);
    OpenSucceeds(fs.disk, files, fs.ftab[..], path);
    ArchivesStay(fs.disk, 0, files, path);
    h, over := fs.FsOpen(path);
    n := -1;
    if h < 0 {
      return;
    }
    ghost var ftab := fs.ftab[..];
    if forall r | r in rs :: HasRoom(r) {
      ArchiveServes(fs.disk, ftab, files, rs);
    }
    over := ServeAll(fs, rs, bufs);
    if over {
      return;
    }
    ghost var was, bounced, ftab' := buf[..], fs.bounce[..], fs.ftab[..];
    n, over := ServeRead(fs, h, buf, limit);
    if !over && Close(h) !in rs {
      HandleKept(fs.disk, ftab, rs, h);
      assert ftab'[h] == ftab[h];
      ReadAll(fs.disk, ftab[h], files[i].content, n, was, bounced, buf[..]);
    }
  }

  lemma ReadAll(disk: Disk, e: Entry, content: Text, n: nat, was: Text, bounced: Sector, now: Text)
    requires HandleFor(disk, e, content) && n <= |content| && n <= |was| == |now|
    requires forall j: nat | j < n :: now[j] == ReadByte(disk, e.extent.lba, n, was, bounced, j)
    ensures now[..n] == content[..n]
  {
    forall j: nat | j < n
      ensures now[j] == content[j]
    {
      ReadsContent(disk, e, content, n, was, bounced, j);
    }
  }
}
