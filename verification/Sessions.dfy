/** From mkfs to the first boot, and from any crash to the next one. */
module Sessions {
  import opened Words
  import opened Bio
  import opened LogFormat
  import opened FsFormat
  import opened Ownership
  import opened Content
  import opened LogMachine
  import opened FileWrite
  import opened CrashSafety
  import opened FileSafety
  import LogRuns
  import Mkfs
  import Fs
  import L = Log

  /** The constants of param.h, for a disk of this size. */
  function Params(l: Layout, disksize: nat): LogRuns.Config {
    LogRuns.Config(l, disksize, L.MAXOPBLOCKS, L.LOGSIZE)
  }

  /** The kernel comes up on a disk as a run left it, and looks at inode `i`: the file system is what recovery made
      of that disk, and at rest if that is sound. */
  method StartUp(disk: Disk, nbuf: nat, l: Layout, sb: Superblock, i: nat, ghost img: Image,
                 ghost run0: seq<LogRuns.State>, ghost steps0: seq<LogRuns.Step>)
    returns (m: Machine, fs: Fs.Fs, ip: Fs.Inode)
    requires LogRuns.IsRun(Params(l, |disk.blocks|), img, run0, steps0) && run0[|run0| - 1].disk == disk.blocks
    requires nbuf > 1 && LogBefore(l, sb) && sb.OK() && |disk.blocks| == sb.size && i < sb.ninodes
    modifies disk
    ensures fresh(m) && fresh(m.log) && fresh(m.log.bc) && fresh(m.log.bc.bufs) && fresh(m.log.bc.head)
    ensures m.log.bc.disk == disk && m.log.l == l && |m.log.bc.bufs| == nbuf && fresh(fs) && fresh(ip)
    ensures m.img == img && run0 <= m.run && fs.past == []
    ensures HeaderOK(l, old(disk.blocks)) && |Recovered(l, old(disk.blocks))| == sb.size
    ensures fs.sb == sb && fs.ViewOf(ip) == Mkfs.At(sb, Recovered(l, old(disk.blocks)), i)
    ensures UpToDate(fs.ViewOf(ip))
    ensures Sound(sb, Recovered(l, old(disk.blocks))) && ip.size <= MAXBYTES ==> AtRest(m, fs, ip)
  {
    hide LogRuns.IsRun, Recovered, HeaderOK, RecoveryWrites, Along, Bcache.Holders, Sound, GetInode, Machine.Inv;
    ghost var x := disk.blocks;
    m := Boot(disk, nbuf, l, Params(l, |disk.blocks|), img, run0, steps0);
    RecoveredSize(l, x);
    fs := new Fs.Fs(sb, disk.blocks);
    ip := new Fs.Inode(i, GetInode(disk.blocks[sb.IBlock(i)], i % IPB));
    assert fs.ViewOf(ip) == Mkfs.At(sb, disk.blocks, i);
    if Sound(sb, disk.blocks) && ip.size <= MAXBYTES {
      SoundAnywhere(sb, disk.blocks, i);
      TrailsIf(fs.ViewOf(ip));
    }
  }

  lemma RecoveredSize(l: Layout, x: Image)
    requires HeaderOK(l, x)
    ensures |Recovered(l, x)| == |x|
  {
  }

  // ---- the first boot ----

  /** The layout of mkfs is one to boot from whenever its metadata fit the disk: the log, the blocks of all inodes,
      the bits of all blocks and the data blocks follow each other. With the sizes of param.h, data start at block 59. */
  lemma LayoutFits(fssize: nat, ninodes: nat, nlog: nat)
    ensures var sb, l := Mkfs.LaidOut(fssize, ninodes, nlog), Layout(2, nlog);
            && LogBefore(l, sb)
            && (sb.OK() <==> 2 + nlog + (ninodes / 8 + 1) + (fssize / 4096 + 1) <= fssize <= 0x1_0000_0000)
            && (forall i: nat | i < ninodes :: 2 + nlog <= sb.IBlock(i) < sb.bmapstart)
            && (forall b: nat | b < fssize :: sb.bmapstart <= sb.BBlock(b) < sb.DataStart())
    ensures Mkfs.LaidOut(1000, 200, 30) == Superblock(1000, 200, 32, 58) && Mkfs.LaidOut(1000, 200, 30).DataStart() == 59
  {
    forall i: nat | i < ninodes
      ensures i / 8 <= ninodes / 8
    {
    }
    forall b: nat | b < fssize
      ensures b / 4096 <= fssize / 4096
    {
    }
  }

  /** The image as it was built is a run's first state: its log is empty. */
  lemma BuiltRun(b: Mkfs.Builder, l: Layout, i: nat)
    requires b.Built() && i < |b.files| && LogBefore(l, b.sb) && l.start >= 2 && l.size > 0
    ensures var s := LogRuns.State(b.img, b.img, [], [], LogRuns.Running, [], []);
            LogRuns.IsRun(Params(l, |b.img|), b.img, [s], [])
    ensures HeaderOK(l, b.img) && |Recovered(l, b.img)| == |b.img| == b.sb.size
    ensures Sound(b.sb, Recovered(l, b.img)) && i < b.sb.ninodes
    ensures SameBytes(Mkfs.At(b.sb, b.img, i), Mkfs.At(b.sb, Recovered(l, b.img), i))
    ensures Mkfs.At(b.sb, Recovered(l, b.img), i).ino == Mkfs.At(b.sb, b.img, i).ino
  {
    hide Sound, Recovered, SameBytes, GetInode;
    assert b.img[l.start] == ZeroBlock();
    EmptyHeader(b.img[l.start]);
    ClearedIsStable(l, b.img);
    BuiltSound(b);
    HomeEqBack(l, Recovered(l, b.img), b.img);
    SoundHome(b.sb, l, b.img, Recovered(l, b.img));
    FileHome(b.sb, l, b.img, Recovered(l, b.img), i);
  }

  lemma EmptyHeader(x: Block)
    requires x == ZeroBlock()
    ensures HeaderCount(x) == 0
  {
  }

  /** The kernel comes up on the image that mkfs built: every inode has the bytes that were appended to it, and the
      file system is ready for `CrashSafety` and `FileSafety`. */
  method FirstBoot(b: Mkfs.Builder, nbuf: nat, l: Layout, i: nat) returns (m: Machine, fs: Fs.Fs, ip: Fs.Inode)
    requires b.Built() && i < |b.files| && LogBefore(l, b.sb) && l.start >= 2 && l.size > 0 && nbuf > 1
    ensures fresh(m) && fresh(m.log) && fresh(m.log.bc) && fresh(m.log.bc.bufs) && fresh(m.log.bc.head)
    ensures fresh(m.log.bc.disk) && fresh(fs) && fresh(ip)
    ensures m.log.l == l && |m.log.bc.bufs| == nbuf && fs.sb == b.sb && ip.inum == i && fs.past == []
    ensures Mkfs.Bytes(fs.ViewOf(ip), b.files[i]) && ip.size == Mkfs.FileSize(b.files, b.rounded, i)
    ensures ip.size <= MAXBYTES ==> AtRest(m, fs, ip)
    ensures UpToDate(fs.ViewOf(ip))
  {
    hide LogRuns.IsRun, Recovered, HeaderOK, Sound, SameBytes, GetInode, Mkfs.Bytes, Mkfs.RoundedSize, AtRest;
    BuiltRun(b, l, i);
    var disk := new Disk(b.img);
    ghost var s := LogRuns.State(b.img, b.img, [], [], LogRuns.Running, [], []);
    m, fs, ip := StartUp(disk, nbuf, l, b.sb, i, b.img, [s], []);
    Mkfs.TheFile(b.sb, b.img, b.files, b.freeinode, b.rounded, i);
    Mkfs.SameBytesHold(Mkfs.At(b.sb, b.img, i), fs.ViewOf(ip), b.files[i]);
  }

  // ---- the next boot ----

  /** A run up to the moment at which the disk had this image. */
  lemma StoppedRun(c: LogRuns.Config, img: Image, run: seq<LogRuns.State>, steps: seq<LogRuns.Step>, from: nat,
                   disk0: Image, ws: seq<Write>, disk1: Image, j: nat)
    returns (run0: seq<LogRuns.State>, steps0: seq<LogRuns.Step>)
    requires LogRuns.IsRun(c, img, run, steps) && Along(run, from, disk0, ws, disk1) && j <= |ws|
    ensures LogRuns.IsRun(c, img, run0, steps0) && run0 <= run && |run0| > from
    ensures run0 != [] && run0[|run0| - 1].disk == LogFormat.Crash(disk0, ws, j)
  {
    hide LogRuns.Init, LogRuns.Next, LogFormat.Crash, Apply;
    assert OnDisk(run, from, LogFormat.Crash(disk0, ws, j));
    var k :| from <= k < |run| && run[k].disk == LogFormat.Crash(disk0, ws, j);
    run0, steps0 := run[..k + 1], steps[..k];
  }

  /** The kernel comes up on a disk from which recovery brings back view `v`. */
  method BootTo(disk: Disk, nbuf: nat, l: Layout, ghost img: Image, ghost run0: seq<LogRuns.State>,
                ghost steps0: seq<LogRuns.Step>, ghost v: View, sb: Superblock, i: nat)
    returns (m: Machine, fs: Fs.Fs, ip: Fs.Inode)
    requires LogRuns.IsRun(Params(l, |disk.blocks|), img, run0, steps0) && run0 != []
    requires run0[|run0| - 1].disk == disk.blocks && nbuf > 1 && LogBefore(l, sb) && |disk.blocks| == sb.size
    requires HeaderOK(l, disk.blocks) && Back(v, Recovered(l, disk.blocks))
    requires Trails(v) && v.sb == sb && v.inum == i
    modifies disk
    ensures Back(v, fs.blocks) && v.Sized() && fresh(m) && fresh(fs) && fresh(ip) && fs.ViewOf(ip).Sized()
    ensures UpToDate(v) ==> AtRest(m, fs, ip) && ip.Copy() == v.ino && SameBytes(v, fs.ViewOf(ip))
  {
    hide LogRuns.IsRun, Recovered, HeaderOK, Sound, SameBytes, GetInode, AtRest, Trails;
    TrailsFacts(v);
    m, fs, ip := StartUp(disk, nbuf, l, sb, i, img, run0, steps0);
  }

  /** The machine stopped after the j-th of the writes that a filewrite made (`SaveFile`), and comes up again: the
      file is one of `views`. If the inode on disk was complete there, the file system is at rest, and the inode and
      all bytes of the file are those of that view. */
  method NextBoot(disk: Disk, nbuf: nat, m0: Machine, ghost from: nat, ghost disk0: Image, ghost writes0: seq<Write>,
                  ghost views: seq<View>, ghost j: nat, sb: Superblock, i: nat)
    returns (m: Machine, fs: Fs.Fs, ip: Fs.Inode, ghost k: nat)
    requires LogRuns.IsRun(m0.c, m0.img, m0.run, m0.steps) && m0.c == Params(m0.log.l, |disk.blocks|)
    requires views != [] && LogBefore(m0.log.l, sb) && |disk.blocks| == sb.size && nbuf > 1
    requires Saved(m0, from, disk0, writes0, views, |views| - 1) && AllTrail(views, sb, i)
    requires |writes0| + j <= |m0.log.bc.disk.writes|
    requires disk.blocks == LogFormat.Crash(disk0, m0.log.bc.disk.writes[|writes0|..], j)
    modifies disk
    ensures k < |views| && Back(views[k], fs.blocks) && views[k].Sized()
    ensures fresh(m) && fresh(fs) && fresh(ip) && fs.ViewOf(ip).Sized()
    ensures UpToDate(views[k]) ==>
      AtRest(m, fs, ip) && ip.Copy() == views[k].ino && SameBytes(views[k], fs.ViewOf(ip))
  {
    hide LogRuns.IsRun, Recovered, HeaderOK, Back, SameBytes, AtRest, Along, Apply, LogFormat.Crash, Trails;
    ghost var ws := m0.log.bc.disk.writes[|writes0|..];
    ghost var run0, steps0 := StoppedRun(m0.c, m0.img, m0.run, m0.steps, from, disk0, ws, m0.log.bc.disk.blocks, j);
    assert BackToOne(m0.log.l, disk.blocks, views, |views| - 1);
    k :| 0 <= k < |views| && Back(views[k], Recovered(m0.log.l, disk.blocks));
    m, fs, ip := BootTo(disk, nbuf, m0.log.l, m0.img, run0, steps0, views[k], sb, i);
  }

  /** A filewrite, a stop, and a boot. If the write came to its end, the file is then as the write left it, else it
      is one of its views. */
  method WriteAndBoot(m0: Machine, nbuf: nat, fs0: Fs.Fs, f: File, addr: seq<byte>, n: int)
    returns (full: bool, ok: bool, r: int, fs: Fs.Fs, ip: Fs.Inode, ghost views: seq<View>, ghost k: nat)
    requires AtRest(m0, fs0, f.ip) && f.writable && n <= |addr| && n < TWO32 / 2 && nbuf > 1
    modifies m0`run, m0`steps, m0.log, m0.log.bc, m0.log.bc.bufs, m0.log.bc.head, m0.log.bc.disk
    modifies fs0, f`off, f.ip`addrs, f.ip`size
    ensures views != [] && views[0] == old(fs0.ViewOf(f.ip)) && views[0].Sized()
    ensures AllWrote(views, old(f.off), Bytes(addr, n))
    ensures k < |views| && views[k].Sized() && Back(views[k], fs.blocks) && (ok ==> k == |views| - 1)
    ensures fs.ViewOf(ip).Sized()
    ensures UpToDate(views[k]) ==> ip.Copy() == views[k].ino && SameBytes(views[k], fs.ViewOf(ip))
    ensures RoomIn(m0.log.l, |old(m0.log.bc.bufs)|, Budget(Whole(views[0]))) ==> ok
    ensures full <==> old(f.off) <= views[0].ino.size
                      && !Enough(views[0], old(f.off), Arrive(views[0].ino.size, old(f.off), n))
    ensures !full ==> r == if n == Arrive(views[0].ino.size, old(f.off), n) then n else -1
  {
    hide LogRuns.IsRun, Recovered, HeaderOK, Sound, SameBytes, GetInode, AtRest, Saved, AllWrote, AllTrail, Back,
        RoomIn, Whole, Budget, Arrive, Split, Stuck, Enough, Idle, HomeEq, Trails;
    AtRestFacts(m0, fs0, f.ip);
    RestFacts(m0, fs0, f.ip);
    ghost var from, disk0, writes0 := |m0.run| - 1, m0.log.bc.disk.blocks, m0.log.bc.disk.writes;
    full, ok, r, views := SaveFile(m0, fs0, f, addr, n);
    TrailsOf(views, fs0.sb, f.ip.inum, |views| - 1);
    k := StoppedView(m0, from, disk0, writes0, views, ok);
    TrailsOf(views, fs0.sb, f.ip.inum, k);
    ghost var run0, steps0 := WholeRun(m0, from, disk0, writes0, views);
    var m;
    m, fs, ip := BootTo(m0.log.bc.disk, nbuf, m0.log.l, m0.img, run0, steps0, views[k], fs0.sb, f.ip.inum);
  }

  /** A whole life: mkfs, a boot, a filewrite, a stop, and a boot again. The write starts from the bytes that were
      given to mkfs. */
  method Lifetime(b: Mkfs.Builder, nbuf: nat, l: Layout, i: nat, off: uint32, addr: seq<byte>, n: int)
    returns (full: bool, ok: bool, r: int, fs: Fs.Fs, ip: Fs.Inode, ghost views: seq<View>, ghost k: nat)
    requires b.Built() && i < |b.files| && LogBefore(l, b.sb) && l.start >= 2 && l.size > 0 && nbuf > 1
    requires Mkfs.FileSize(b.files, b.rounded, i) <= MAXBYTES && n <= |addr| && n < TWO32 / 2
    ensures views != [] && Mkfs.Bytes(views[0], b.files[i]) && views[0].Sized()
    ensures views[0].ino.size == Mkfs.FileSize(b.files, b.rounded, i) && UpToDate(views[0])
    ensures AllWrote(views, off, Bytes(addr, n))
    ensures k < |views| && views[k].Sized() && Back(views[k], fs.blocks) && (ok ==> k == |views| - 1)
    ensures fs.ViewOf(ip).Sized()
    ensures UpToDate(views[k]) ==> ip.Copy() == views[k].ino && SameBytes(views[k], fs.ViewOf(ip))
    ensures RoomIn(l, nbuf, Budget(Whole(views[0]))) ==> ok
    ensures full <==> off <= views[0].ino.size && !Enough(views[0], off, Arrive(views[0].ino.size, off, n))
    ensures !full ==> r == if n == Arrive(views[0].ino.size, off, n) then n else -1
  {
    hide LogRuns.IsRun, Recovered, HeaderOK, Sound, SameBytes, GetInode, AtRest, AllWrote, Back, Mkfs.Bytes, RoomIn,
        Whole, Budget, Arrive, Enough, UpToDate;
    var m;
    m, fs, ip := FirstBoot(b, nbuf, l, i);
    var f := new File(ip, true, off);
    full, ok, r, fs, ip, views, k := WriteAndBoot(m, nbuf, fs, f, addr, n);
  }

  lemma RestFacts(m: Machine, fs: Fs.Fs, ip: Fs.Inode)
    requires AtRest(m, fs, ip)
    ensures m.run != [] && m.c == Params(m.log.l, |m.log.bc.disk.blocks|) && |m.log.bc.disk.blocks| == fs.sb.size
  {
    m.InvFacts();
  }

  lemma TrailsOf(views: seq<View>, sb: Superblock, i: nat, k: nat)
    requires AllTrail(views, sb, i) && k < |views|
    ensures Trails(views[k]) && views[k].sb == sb && views[k].inum == i
  {
  }

  lemma WholeRun(m: Machine, from: nat, disk0: Image, writes0: seq<Write>, views: seq<View>)
    returns (run0: seq<LogRuns.State>, steps0: seq<LogRuns.Step>)
    requires views != [] && Saved(m, from, disk0, writes0, views, |views| - 1)
    requires LogRuns.IsRun(m.c, m.img, m.run, m.steps)
    ensures LogRuns.IsRun(m.c, m.img, run0, steps0)
    ensures run0 != [] && run0[|run0| - 1].disk == m.log.bc.disk.blocks
  {
    hide LogRuns.IsRun, OnDisk, Apply;
    var ws := m.log.bc.disk.writes[|writes0|..];
    assert ws[..|ws|] == ws;
    run0, steps0 := StoppedRun(m.c, m.img, m.run, m.steps, from, disk0, ws, m.log.bc.disk.blocks, |ws|);
  }

  /** What a stopped machine has on its disk. */
  lemma StoppedView(m: Machine, from: nat, disk0: Image, writes0: seq<Write>, views: seq<View>, ok: bool)
    returns (k: nat)
    requires views != [] && Saved(m, from, disk0, writes0, views, |views| - 1)
    requires LogRuns.IsRun(m.c, m.img, m.run, m.steps)
    requires ok ==>
      Idle(m) && HomeEq(m.log.l, views[|views| - 1].blocks, m.log.bc.latest)
      && Trails(views[|views| - 1]) && LogBefore(m.log.l, views[|views| - 1].sb)
    ensures k < |views| && (ok ==> k == |views| - 1) && |m.log.bc.disk.blocks| == |disk0|
    ensures HeaderOK(m.log.l, m.log.bc.disk.blocks) && Back(views[k], Recovered(m.log.l, m.log.bc.disk.blocks))
  {
    hide LogRuns.IsRun, Recovered, HeaderOK, Back, HomeEq, Idle, Trails, Apply, OnDisk;
    var ws := m.log.bc.disk.writes[|writes0|..];
    assert ws[..|ws|] == ws;
    assert BackToOne(m.log.l, LogFormat.Crash(disk0, ws, |ws|), views, |views| - 1);
    if ok {
      IdleBack(m, views[|views| - 1]);
      k := |views| - 1;
    } else {
      k :| 0 <= k < |views| && Back(views[k], Recovered(m.log.l, m.log.bc.disk.blocks));
    }
  }
}
