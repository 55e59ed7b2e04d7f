/** Crashes and the file system: operations of `Fs`, made through cache and log (`LogMachine`), leave a sound
    file system whenever the machine stops, and happen as a whole or not at all. */
module CrashSafety {
  import opened Words
  import opened Bio
  import opened LogFormat
  import opened FsFormat
  import opened Ownership
  import opened Content
  import LogRuns
  import opened LogMachine
  import Mkfs
  import Fs
  import opened Truncate
  import FileWrite
  import opened Supply
  import L = Log

  // ---- a sound file system ----

  /** Seen from any inode, every block is owned once or free: the invariant of `Ownership` on a disk alone. */
  ghost predicate Sound(sb: Superblock, x: Image) {
    sb.OK() && |x| == sb.size && 0 < sb.ninodes && Mkfs.At(sb, x, 0).OK({})
  }

  lemma SoundAnywhere(sb: Superblock, x: Image, i: nat)
    requires Sound(sb, x) && i < sb.ninodes
    ensures Mkfs.At(sb, x, i).OK({}) && SamePtrs(Mkfs.At(sb, x, 0), Mkfs.At(sb, x, i))
  {
    Mkfs.Elsewhere(Mkfs.At(sb, x, 0), i);
  }

  /** The view after an operation that left the inode on disk as it is in memory. */
  lemma SoundAfter(w: View)
    requires w.OK({}) && w.InodeOnDisk(w.inum) == w.ino
    ensures Sound(w.sb, w.blocks) && w == Mkfs.At(w.sb, w.blocks, w.inum)
  {
    Mkfs.Elsewhere(w, 0);
  }

  /** The inode on disk is the one in memory, but it may lack pointers: writei does not write the inode if the file
      does not grow. */
  ghost predicate Trails(v: View) {
    && v.OK({}) && v.ino.size <= MAXBYTES
    && v.InodeOnDisk(v.inum) == v.ino.(addrs := v.InodeOnDisk(v.inum).addrs)
    && forall k | 0 <= k < NADDRS ::
         v.InodeOnDisk(v.inum).addrs[k] == 0 || v.InodeOnDisk(v.inum).addrs[k] == v.ino.addrs[k]
  }

  ghost predicate UpToDate(v: View)
    requires v.Sized()
  {
    v.InodeOnDisk(v.inum) == v.ino
  }

  lemma TrailsFacts(v: View)
    requires Trails(v)
    ensures v.Sized() && v.OK({}) && v.ino.size <= MAXBYTES
  {
  }

  lemma TrailsIf(v: View)
    requires v.Sized() && v.OK({}) && UpToDate(v) && v.ino.size <= MAXBYTES
    ensures Trails(v)
  {
    hide GetInode;
  }

  /** A pointer on the disk alone is also one of the view. */
  lemma TrailsPtr(v: View, j: nat, l: nat)
    requires Trails(v) && v.IsSlot(j, l) && 0 < v.sb.ninodes
    ensures Mkfs.At(v.sb, v.blocks, 0).Ptr(j, l) in {0, v.Ptr(j, l)}
    ensures j == v.inum && l < NADDRS ==> Mkfs.At(v.sb, v.blocks, 0).Ptr(j, l) == v.InodeOnDisk(j).addrs[l]
  {
    hide GetInode, View.PointersOK, View.NoSharing, View.Conserved;
  }

  /** What is lost if the inode on disk lacks a pointer: the disk alone is sound if and only if it lacks none. */
  lemma TrailsSound(v: View)
    requires Trails(v)
    ensures Sound(v.sb, v.blocks) <==> UpToDate(v)
  {
    hide GetInode, UseBit;
    if UpToDate(v) {
      SoundAfter(v);
    } else {
      hide View.Ptr;
      var d := v.InodeOnDisk(v.inum);
      var k: nat :| k < NADDRS && d.addrs[k] != v.ino.addrs[k];
      OwnPtr(v, k);
      assert v.IsSlot(v.inum, k);
      var x, b := Mkfs.At(v.sb, v.blocks, 0), v.Ptr(v.inum, k);
      forall j: nat, l: nat | x.IsSlot(j, l)
        ensures x.Ptr(j, l) != b
      {
        TrailsPtr(v, j, l);
      }
      assert v.InUse(b) && !x.Owned(b);
    }
  }

  lemma OwnPtr(v: View, k: nat)
    requires v.Sized() && k < NADDRS
    ensures v.Ptr(v.inum, k) == v.ino.addrs[k]
  {
  }

  /** Writing `n` bytes leaves the inode on disk complete: the file grows, or its inode lacked nothing, neither on
      disk nor for these bytes. */
  ghost predicate Completes(v: View, off: nat, n: nat)
    requires v.Sized()
  {
    off + n > v.ino.size || (UpToDate(v) && forall k <- Missing(v, off, n) :: k >= NADDRS)
  }

  /** So it is with writei, whether there are holes or not. */
  lemma SpliceTrails(v: View, w: View, off: nat, src: seq<byte>)
    requires Spliced(v, w, off, src) && Trails(v)
    ensures Trails(w) && w.sb == v.sb && w.inum == v.inum
    ensures UpToDate(w) <==> Completes(v, off, |src|)
    ensures Whole(v) && UpToDate(v) ==> Whole(w) && UpToDate(w)
  {
    hide View.PointersOK, View.NoSharing, View.Conserved, View.Ptr, GetInode, Contents, OthersKept, Missing, Whole,
        FilledFor;
    FilledSlots(v, w, off, |src|);
    if !UpToDate(v) && off + |src| <= v.ino.size {
      var k :| 0 <= k < NADDRS && v.InodeOnDisk(v.inum).addrs[k] != v.ino.addrs[k];
      assert w.ino.addrs[k] == v.ino.addrs[k] && w.InodeOnDisk(w.inum).addrs[k] == 0;
    } else if UpToDate(v) {
      StaysOnDisk(v, w, off, src);
      if Whole(v) { FileWrite.SplicedSize(v, w, off, src); }
    }
  }

  lemma FilledSlots(v: View, w: View, off: nat, n: nat)
    requires FilledFor(v, w, off, n)
    ensures v.Sized() && w.Sized() && w.sb == v.sb && w.inum == v.inum
    ensures forall k | 0 <= k < NADDRS :: v.ino.addrs[k] in {0, w.ino.addrs[k]}
  {
    hide Needs;
    forall k: nat | k < NADDRS
      ensures v.ino.addrs[k] in {0, w.ino.addrs[k]}
    {
      OwnPtr(v, k);
      OwnPtr(w, k);
    }
  }

  /** The image that mkfs built is sound. */
  lemma BuiltSound(b: Mkfs.Builder)
    requires b.Built()
    ensures Sound(b.sb, b.img)
  {
    Mkfs.TheFile(b.sb, b.img, b.files, b.freeinode, b.rounded, 0);
  }

  /** The log lies before the inodes. */
  predicate LogBefore(l: Layout, sb: Superblock) {
    l.start + l.size <= sb.inodestart
  }

  /** What the log area holds does not matter to the file system. */
  lemma SameInodeHome(sb: Superblock, l: Layout, a: Image, b: Image, i: nat)
    requires LogBefore(l, sb) && HomeEq(l, a, b) && sb.OK() && |a| == sb.size && i < sb.ninodes
    ensures Mkfs.At(sb, a, i).Sized() && Mkfs.At(sb, b, i).Sized() && Mkfs.At(sb, b, i).ino == Mkfs.At(sb, a, i).ino
  {
    hide GetInode;
    MetadataApart(Mkfs.At(sb, a, i), i, 0);
  }

  lemma SamePtrHome(sb: Superblock, l: Layout, a: Image, b: Image, i: nat, j: nat, k: nat)
    requires LogBefore(l, sb) && HomeEq(l, a, b) && Sound(sb, a) && i < sb.ninodes && j < sb.ninodes && k < NSLOTS
    requires sb.OK() && |a| == sb.size
    ensures Mkfs.At(sb, a, i).Sized() && Mkfs.At(sb, b, i).Sized()
    ensures Mkfs.At(sb, b, i).Ptr(j, k) == Mkfs.At(sb, a, i).Ptr(j, k)
  {
    hide GetInode, GetU32, UseBit, View.PointersOK, View.NoSharing, View.Conserved, SamePtrs, Sound, Mkfs.At;
    SoundAnywhere(sb, a, i);
    SameInodesHome(sb, l, a, b, i, j);
    SizedAt(sb, a, i);
    SlotRange(Mkfs.At(sb, a, i), j, INDIRECT);
  }

  lemma SizedAt(sb: Superblock, x: Image, i: nat)
    requires sb.OK() && |x| == sb.size && i < sb.ninodes
    ensures Mkfs.At(sb, x, i).Sized() && Mkfs.At(sb, x, i).sb == sb && Mkfs.At(sb, x, i).blocks == x
  {
  }

  lemma SameInodesHome(sb: Superblock, l: Layout, a: Image, b: Image, i: nat, j: nat)
    requires LogBefore(l, sb) && HomeEq(l, a, b) && sb.OK() && |a| == sb.size && i < sb.ninodes && j < sb.ninodes
    ensures Mkfs.At(sb, a, i).Sized() && Mkfs.At(sb, b, i).Sized()
    ensures Mkfs.At(sb, b, i).Inode(j) == Mkfs.At(sb, a, i).Inode(j)
    ensures Mkfs.At(sb, b, i).blocks == b && Mkfs.At(sb, a, i).blocks == a && Mkfs.At(sb, b, i).sb == sb
    ensures forall x | sb.DataStart() <= x < sb.size :: a[x] == b[x]
  {
    hide GetInode;
    MetadataApart(Mkfs.At(sb, a, i), i, 0);
    MetadataApart(Mkfs.At(sb, a, i), j, 0);
  }

  lemma SamePtrsHome(sb: Superblock, l: Layout, a: Image, b: Image, i: nat)
    requires LogBefore(l, sb) && HomeEq(l, a, b) && Sound(sb, a) && i < sb.ninodes
    ensures Mkfs.At(sb, b, i).Sized() && Mkfs.At(sb, b, i).ino == Mkfs.At(sb, a, i).ino
    ensures SamePtrs(Mkfs.At(sb, a, i), Mkfs.At(sb, b, i))
  {
    hide GetInode, View.Ptr, View.OK, HomeEq;
    SameInodeHome(sb, l, a, b, i);
    forall j: nat, k: nat | Mkfs.At(sb, a, i).IsSlot(j, k)
      ensures Mkfs.At(sb, b, i).Ptr(j, k) == Mkfs.At(sb, a, i).Ptr(j, k)
    {
      SamePtrHome(sb, l, a, b, i, j, k);
    }
  }

  lemma SoundHome(sb: Superblock, l: Layout, a: Image, b: Image)
    requires LogBefore(l, sb) && HomeEq(l, a, b) && Sound(sb, a)
    ensures Sound(sb, b)
  {
    hide View.PointersOK, View.NoSharing, View.Conserved, GetInode, View.Ptr, MapBit;
    SamePtrsHome(sb, l, a, b, 0);
    var v, w := Mkfs.At(sb, a, 0), Mkfs.At(sb, b, 0);
    forall x: nat | x < sb.size
      ensures w.InUse(x) == v.InUse(x)
    {
      MetadataApart(v, 0, x);
    }
    SamePtrsKeepsOK(v, w, {}, {});
  }

  /** Nor to the bytes of a file. */
  lemma FileHome(sb: Superblock, l: Layout, a: Image, b: Image, i: nat)
    requires LogBefore(l, sb) && HomeEq(l, a, b) && Sound(sb, a) && i < sb.ninodes
    ensures SameBytes(Mkfs.At(sb, a, i), Mkfs.At(sb, b, i)) && Mkfs.At(sb, b, i).ino == Mkfs.At(sb, a, i).ino
  {
    hide View.NoSharing, View.Conserved, View.PointersOK, GetInode, View.Ptr, MapBit, SamePtrs, SameBytes, Sound;
    SoundAnywhere(sb, a, i);
    SamePtrsHome(sb, l, a, b, i);
    SizedAt(sb, a, i);
    SizedAt(sb, b, i);
    SameFile(Mkfs.At(sb, a, i), Mkfs.At(sb, b, i), 0);
  }

  // ---- over whole runs ----

  /** Whenever the last outstanding operation has ended, what the cache shows is a sound file system. */
  ghost predicate GroupsSound(sb: Superblock, run: seq<LogRuns.State>) {
    forall j | 0 <= j < |run| && run[j].phase.Committing? :: Sound(sb, run[j].latest)
  }

  /** Then in every state of the run, whenever it crashes, recovery brings back a sound file system. */
  lemma AlwaysSound(c: LogRuns.Config, img: Image, run: seq<LogRuns.State>, steps: seq<LogRuns.Step>, sb: Superblock,
                    k: nat)
    requires LogRuns.IsRun(c, img, run, steps) && LogBefore(c.l, sb) && Sound(sb, img) && GroupsSound(sb, run)
    requires k < |run|
    ensures HeaderOK(c.l, run[k].disk) && Sound(sb, Recovered(c.l, run[k].disk))
  {
    hide Sound, HomeEq, HeaderOK, Recovered, LogRuns.DurableEffect, LogRuns.IsRun;
    DurableSound(c, img, run, steps, sb, k);
    LogRuns.GroupAtomicity(c, img, run, steps, k);
    HomeEqBack(c.l, Recovered(c.l, run[k].disk), LogRuns.DurableEffect(img, run[k].groups));
    SoundHome(sb, c.l, LogRuns.DurableEffect(img, run[k].groups), Recovered(c.l, run[k].disk));
  }

  lemma HomeEqBack(l: Layout, a: Image, b: Image)
    requires HomeEq(l, a, b)
    ensures HomeEq(l, b, a)
  {
  }

  lemma {:induction false} DurableSound(c: LogRuns.Config, img: Image, run: seq<LogRuns.State>,
                                        steps: seq<LogRuns.Step>, sb: Superblock, k: nat)
    requires LogRuns.IsRun(c, img, run, steps) && LogBefore(c.l, sb) && Sound(sb, img) && GroupsSound(sb, run)
    requires k < |run|
    ensures Sound(sb, LogRuns.DurableEffect(img, run[k].groups))
  {
    hide Sound, HomeEq, LogRuns.DurableEffect, LogRuns.Inv, LogRuns.Next, LogRuns.Effect;
    if k == 0 {
      NoGroups(img);
    } else {
      DurableSound(c, img, run, steps, sb, k - 1);
      LogRuns.RunHolds(c, img, run, steps, k - 1);
      GroupStep(c, img, run[k - 1], steps[k - 1], run[k]);
      if run[k].groups != run[k - 1].groups && run[k - 1].phase.Committing? {
        assert Sound(sb, run[k - 1].latest);
        if HomeEq(c.l, run[k - 1].latest, LogRuns.DurableEffect(img, run[k].groups)) {
          SoundHome(sb, c.l, run[k - 1].latest, LogRuns.DurableEffect(img, run[k].groups));
        }
      }
    }
  }

  lemma NoGroups(img: Image)
    ensures LogRuns.DurableEffect(img, []) == img
  {
  }

  /** Groups change at the header write of a commit, and in a crash, where they are lost. */
  lemma GroupStep(c: LogRuns.Config, img: Image, s: LogRuns.State, step: LogRuns.Step, t: LogRuns.State)
    requires LogRuns.Inv(c, img, s) && LogRuns.Next(c, s, step, t)
    ensures LogRuns.DurableEffect(img, t.groups) == LogRuns.DurableEffect(img, s.groups)
        || (s.phase.Committing? && HomeEq(c.l, s.latest, LogRuns.DurableEffect(img, t.groups)))
  {
    hide LogRuns.DurableEffect, LogRuns.Effect, CommitWrites, RecoveryWrites, HomeEq, LogFormat.Crash, LogRuns.Fresh;
    if step.Crash? {
      LogRuns.DurableAppend(img, s.groups, LogRuns.Group(s.pending, false));
    } else if step.CommitWrite? && t.groups != s.groups {
      LogRuns.DurableAppend(img, s.groups, LogRuns.Group(s.pending, true));
    }
  }

  // ---- one operation, through cache and log ----

  /** Nothing is going on: no operation is outstanding, and nobody holds a buffer. */
  ghost predicate Idle(m: Machine)
    reads m, m.log, m.log.bc, m.log.bc.bufs, m.log.bc.ring, m.log.bc.disk
  {
    && m.Inv() && m.Now().ops == [] && m.Now().pending == [] && m.Now().lh == [] && m.log.bc.Holders() == map[]
  }

  /** log_writes that an operation may make. */
  predicate Writable(l: Layout, disksize: nat, ws: seq<Write>) {
    forall i | 0 <= i < |ws| :: ws[i].blockno < disksize && Home(l, ws[i].blockno)
  }

  /** There is room for `n` logged blocks, in the log and in the cache. */
  predicate RoomIn(l: Layout, nbuf: nat, n: nat) {
    n < L.LOGSIZE && n < l.size - 1 && n < nbuf
  }

  lemma RoomPanics(c: LogRuns.Config, s: LogRuns.State, nbuf: nat)
    requires c.logsize == L.LOGSIZE && RoomIn(c.l, nbuf, |s.lh|)
    ensures !LogRuns.Panics(c, s)
  {
  }

  /** bread, and a change of the data. */
  method Edit(m: Machine, n: nat, data: Block) returns (b: Buf?)
    requires m.Inv() && n < |m.log.bc.latest| && m.log.bc.Holders() == map[]
    modifies m.log.bc, m.log.bc.bufs, m.log.bc.disk
    ensures m.log.bc.bufs == old(m.log.bc.bufs) && m.log.bc.disk.blocks == old(m.log.bc.disk.blocks)
    ensures m.log.bc.disk.writes == old(m.log.bc.disk.writes)
    ensures |m.log.lh| < |m.log.bc.bufs| ==> b != null
    ensures b != null ==>
      && m.Inv() && m.log.bc.latest == old(m.log.bc.latest) && m.log.bc.Held() == {b}
      && b in m.log.bc.bufs && b.locked && b.valid && b.refcnt == 1 && b.blockno == n && b.data == data
  {
    hide Bcache.Valid, Bcache.DirtyBlocks, Bcache.Holders, Bcache.Held, Bcache.Kept, Bcache.Cached, Bcache.Free,
        Bcache.Unheld, Machine.Inv, LogRuns.IsRun;
    m.InvFacts();
    m.PinnedCount();
    m.log.bc.NobodyHolds(n);
    b := m.log.bc.Bread(n);
    if b != null {
      m.log.bc.Fill(b, data);
      m.NoStep();
    }
  }

  /** brelse of the only buffer that is held. */
  method PutBack(m: Machine, b: Buf)
    requires m.Inv() && m.log.bc.Held() == {b} && b in m.log.bc.bufs && b.locked && b.valid && b.refcnt == 1
    requires b.blockno < |m.log.bc.latest| && b.data == m.log.bc.latest[b.blockno]
    modifies m.log.bc, m.log.bc.bufs, m.log.bc.head
    ensures m.Inv() && m.log.bc.Holders() == map[] && m.log.bc.bufs == old(m.log.bc.bufs)
  {
    hide Bcache.Valid, Bcache.DirtyBlocks, Bcache.Holders, Bcache.Held, Machine.Inv, LogRuns.IsRun;
    m.InvFacts();
    m.log.bc.Brelse(b);
    m.NoStep();
    m.log.bc.NobodyLeft();
  }

  /** The same with log_write and brelse. */
  method LogOne(m: Machine, n: nat, data: Block) returns (ok: bool)
    requires m.Inv() && |m.Now().ops| == 1 && m.log.bc.Holders() == map[]
    requires n < |m.log.bc.latest| && Home(m.log.l, n)
    modifies m`run, m`steps, m.log`lh, m.log.bc, m.log.bc.bufs, m.log.bc.head, m.log.bc.disk
    ensures m.log.bc.bufs == old(m.log.bc.bufs) && m.log.bc.disk.blocks == old(m.log.bc.disk.blocks)
    ensures m.log.bc.disk.writes == old(m.log.bc.disk.writes)
    ensures RoomIn(m.log.l, |m.log.bc.bufs|, |old(m.log.lh)|) ==> ok
    ensures ok ==> m.Inv() && m.log.bc.Holders() == map[] && m.run == old(m.run + [Logging(m.Now(), 0, n, data)])
    ensures !ok ==> m.run == old(m.run) && LogRuns.IsRun(m.c, m.img, m.run, m.steps)
  {
    hide Bcache.Valid, Bcache.DirtyBlocks, Bcache.Holders, Bcache.Held, Machine.Inv, LogRuns.IsRun, LogRuns.Panics,
        Logging;
    m.InvFacts();
    var b := Edit(m, n, data);
    if b == null { return false; }
    if RoomIn(m.log.l, |m.log.bc.bufs|, |m.log.lh|) { RoomPanics(m.c, m.Now(), |m.log.bc.bufs|); }
    ok := m.LogWrite(0, b);
    if !ok { return; }
    PutBack(m, b);
  }

  /** What the cache shows while nobody commits: the durable groups, and the pending changes on top. */
  lemma Shown(c: LogRuns.Config, img: Image, run: seq<LogRuns.State>, steps: seq<LogRuns.Step>, k: nat)
    requires LogRuns.IsRun(c, img, run, steps) && k < |run| && run[k].phase.Running?
    ensures var s := run[k];
            && HomeEq(c.l, s.latest, LogRuns.DurableEffect(img, s.groups + [LogRuns.Group(s.pending, true)]))
            && (s.pending == [] ==> HomeEq(c.l, s.latest, LogRuns.DurableEffect(img, s.groups)))
  {
    hide HomeEq, LogRuns.DurableEffect, LogRuns.Next, LogRuns.Init, ReadyToCommit, LogRuns.IsRun;
    LogRuns.RunHolds(c, img, run, steps, k);
    LogRuns.DurableAppend(img, run[k].groups, LogRuns.Group(run[k].pending, true));
  }

  /** Recovery from state `k` would bring back `a` or `b`. */
  ghost predicate BackTo(c: LogRuns.Config, run: seq<LogRuns.State>, k: nat, a: Image, b: Image) {
    && k < |run| && HeaderOK(c.l, run[k].disk)
    && (HomeEq(c.l, a, Recovered(c.l, run[k].disk)) || HomeEq(c.l, b, Recovered(c.l, run[k].disk)))
  }

  /** A stretch of a run in which only one group is added. */
  ghost predicate OneGroup(run: seq<LogRuns.State>, from: nat, g: seq<LogRuns.Group>, h: seq<LogRuns.Group>) {
    forall k | from <= k < |run| :: run[k].groups == g || run[k].groups == h
  }

  lemma BeforeOrAfter(c: LogRuns.Config, img: Image, run: seq<LogRuns.State>, steps: seq<LogRuns.Step>, from: nat,
                      g: seq<LogRuns.Group>, h: seq<LogRuns.Group>, a: Image, b: Image)
    requires LogRuns.IsRun(c, img, run, steps) && OneGroup(run, from, g, h)
    requires HomeEq(c.l, a, LogRuns.DurableEffect(img, g)) && HomeEq(c.l, b, LogRuns.DurableEffect(img, h))
    ensures forall k | from <= k < |run| :: BackTo(c, run, k, a, b)
  {
    hide HomeEq, LogRuns.DurableEffect, LogRuns.IsRun, HeaderOK, Recovered;
    forall k | from <= k < |run|
      ensures BackTo(c, run, k, a, b)
    {
      LogRuns.GroupAtomicity(c, img, run, steps, k);
      HomeEqBack(c.l, Recovered(c.l, run[k].disk), LogRuns.DurableEffect(img, run[k].groups));
      var d := LogRuns.DurableEffect(img, run[k].groups);
      if run[k].groups == g {
        HomeEqTrans(c.l, a, d, Recovered(c.l, run[k].disk));
      } else {
        HomeEqTrans(c.l, b, d, Recovered(c.l, run[k].disk));
      }
    }
  }

  /** The commit that ends `t` adds its group, or nothing. */
  lemma CommitGroups(c: LogRuns.Config, run: seq<LogRuns.State>, t: LogRuns.State, n: nat, done: nat, ok: bool)
    requires Commits(c, run, t, n, done, ok)
    ensures OneGroup(run, n, t.groups, t.groups + [LogRuns.Group(t.pending, true)])
    ensures ok ==> run != [] && run[|run| - 1].lh == []
    ensures ok ==> run[|run| - 1].pending == if t.lh == [] then t.pending else []
    ensures |run| > n && forall k | n <= k < |run| :: run[k].ops == t.ops
  {
    hide LogFormat.Crash;
    if t.lh != [] { CommitLength(c, t); }
  }

  lemma CommitLength(c: LogRuns.Config, t: LogRuns.State)
    requires Loggable(c.l, |t.latest|, t.lh) && t.lh != []
    ensures |CommitWrites(c.l, t.lh, t.latest)| >= CommitPoint(t.lh)
  {
  }

  /** The log_writes of an operation, one after the other. */
  method LogAll(m: Machine, ws: seq<Write>) returns (ok: bool)
    requires m.Inv() && |m.Now().ops| == 1 && m.log.bc.Holders() == map[] && m.log.lh == []
    requires m.Now().pending == [] && Writable(m.log.l, |m.log.bc.latest|, ws) && InRange(|m.log.bc.latest|, ws)
    modifies m`run, m`steps, m.log`lh, m.log.bc, m.log.bc.bufs, m.log.bc.head, m.log.bc.disk
    ensures m.log.bc.bufs == old(m.log.bc.bufs) && LogRuns.IsRun(m.c, m.img, m.run, m.steps)
    ensures m.log.bc.disk.blocks == old(m.log.bc.disk.blocks) && m.log.bc.disk.writes == old(m.log.bc.disk.writes)
    ensures m.run != [] && m.Now().disk == m.log.bc.disk.blocks
    ensures old(m.run) <= m.run && OneGroup(m.run, |old(m.run)| - 1, old(m.Now()).groups, old(m.Now()).groups)
    ensures RoomIn(m.log.l, |m.log.bc.bufs|, |BlocksOf(ws)|) ==> ok
    ensures ok ==>
      && m.Inv() && |m.Now().ops| == 1 && m.log.bc.Holders() == map[] && m.Now().groups == old(m.Now()).groups
      && m.log.bc.latest == Apply(old(m.log.bc.latest), ws) && |m.log.lh| == |BlocksOf(ws)|
      && (m.Now().lh == [] ==> m.Now().pending == [])
  {
    hide Machine.Inv, LogRuns.IsRun, Bcache.Holders, Apply, Logging, RoomIn, BlocksOf, Distinct;
    m.InvFacts();
    ok := true;
    var i := 0;
    ghost var g, a := m.Now().groups, m.log.bc.latest;
    assert ws[..0] == [] && Apply(a, []) == a by { NoneApplied(a); }
    NoBlocks(m.log.lh);
    while i < |ws|
      invariant i <= |ws| && ok && m.log.bc.bufs == old(m.log.bc.bufs)
      invariant m.log.bc.disk.blocks == old(m.log.bc.disk.blocks) && m.log.bc.disk.writes == old(m.log.bc.disk.writes)
      invariant m.run != [] && m.Now().disk == m.log.bc.disk.blocks && LogRuns.IsRun(m.c, m.img, m.run, m.steps)
      invariant m.Inv() && |m.Now().ops| == 1 && m.log.bc.Holders() == map[] && m.Now().groups == g
      invariant old(m.run) <= m.run && OneGroup(m.run, |old(m.run)| - 1, g, g)
      invariant InRange(|a|, ws[..i]) && m.log.bc.latest == Apply(a, ws[..i]) && Lists(m.log.lh, ws[..i])
      invariant m.Now().lh == [] ==> m.Now().pending == []
    {
      ghost var s := m.Now();
      m.InvFacts();
      AppliedNext(a, ws, i);
      ListedRoom(m.log.lh, ws, i, m.log.l, |m.log.bc.bufs|);
      ok := LogOne(m, ws[i].blockno, ws[i].data);
      if !ok { return; }
      m.InvFacts();
      LogNonempty(s, 0, ws[i].blockno, ws[i].data);
      ListsNext(s.lh, ws, i);
      i := i + 1;
    }
    assert ws[..i] == ws;
    m.InvFacts();
    ListsSize(m.log.lh, ws);
  }

  /** The list in memory names the blocks of these writes. */
  ghost predicate Lists(lh: seq<nat>, ws: seq<Write>) {
    Distinct(lh) && L.Set(lh) == BlocksOf(ws)
  }

  lemma NoBlocks(lh: seq<nat>)
    requires lh == []
    ensures Lists(lh, [])
  {
  }

  lemma ListsNext(lh: seq<nat>, ws: seq<Write>, i: nat)
    requires i < |ws| && Lists(lh, ws[..i])
    ensures Lists(LogRuns.Append(lh, ws[i].blockno), ws[..i + 1])
  {
    var b, lh' := ws[i].blockno, LogRuns.Append(lh, ws[i].blockno);
    assert ws[..i + 1] == ws[..i] + [ws[i]];
    BlocksMore(ws[..i], ws[i]);
    forall x
      ensures x in lh' <==> x in lh || x == b
    {
      if b !in lh { assert lh' == lh + [b]; }
    }
    assert L.Set(lh') == L.Set(lh) + {b};
  }

  lemma ListsSize(lh: seq<nat>, ws: seq<Write>)
    requires Lists(lh, ws)
    ensures |lh| == |BlocksOf(ws)|
  {
    DistinctSize(lh);
    assert L.Set(lh) == set x | x in lh;
  }

  lemma ListedRoom(lh: seq<nat>, ws: seq<Write>, i: nat, l: Layout, nbuf: nat)
    requires i < |ws| && Lists(lh, ws[..i])
    ensures RoomIn(l, nbuf, |BlocksOf(ws)|) ==> RoomIn(l, nbuf, |lh|)
  {
    ListsSize(lh, ws[..i]);
    forall b | b in BlocksOf(ws[..i])
      ensures b in BlocksOf(ws)
    {
      var k :| 0 <= k < i && ws[..i][k].blockno == b;
      assert ws[k].blockno == b;
    }
    SubsetSize(BlocksOf(ws[..i]), BlocksOf(ws));
  }

  lemma NoneApplied(a: Image)
    ensures Apply(a, []) == a
  {
  }

  lemma AppliedNext(a: Image, ws: seq<Write>, i: nat)
    requires InRange(|a|, ws) && i < |ws|
    ensures InRange(|a|, ws[..i]) && InRange(|a|, ws[..i + 1]) && ws[i].blockno < |a|
    ensures Apply(a, ws[..i + 1]) == Apply(a, ws[..i])[ws[i].blockno := ws[i].data]
  {
    ApplyNext(a, ws, i);
  }

  lemma LogNonempty(s: LogRuns.State, i: nat, n: nat, data: Block)
    requires i < |s.ops| && n < |s.latest|
    ensures Logging(s, i, n, data).lh != [] && Logging(s, i, n, data).lh == LogRuns.Append(s.lh, n)
  {
  }

  /** end_op of an operation that is alone; the run from index `n` on is that of the operation. */
  method Finish(m: Machine, ghost n: nat, ghost g: seq<LogRuns.Group>, ghost a: Image) returns (ok: bool)
    requires m.Inv() && |m.Now().ops| == 1 && m.log.bc.Holders() == map[] && m.Now().groups == g
    requires m.Now().lh == [] ==> m.Now().pending == []
    requires n < |m.run| && OneGroup(m.run, n, g, g) && HomeEq(m.c.l, a, LogRuns.DurableEffect(m.img, g))
    modifies m`run, m`steps, m.log, m.log.bc, m.log.bc.bufs, m.log.bc.head, m.log.bc.disk
    ensures LogRuns.IsRun(m.c, m.img, m.run, m.steps) && old(m.run) <= m.run
    ensures m.run != [] && m.Now().disk == m.log.bc.disk.blocks
    ensures forall k | n <= k < |m.run| :: BackTo(m.c, m.run, k, a, old(m.log.bc.latest))
    ensures m.log.bc.bufs == old(m.log.bc.bufs) && old(m.log.bc.disk.writes) <= m.log.bc.disk.writes
    ensures Along(m.run, n, old(m.log.bc.disk.blocks), m.log.bc.disk.writes[|old(m.log.bc.disk.writes)|..],
                  m.log.bc.disk.blocks)
    ensures |m.log.bc.bufs| > |old(m.log.lh)| ==> ok
    ensures ok ==> Idle(m) && HomeEq(m.log.l, m.log.bc.latest, old(m.log.bc.latest))
  {
    hide Along, Machine.Inv, LogRuns.IsRun, Bcache.Holders, HomeEq, LogRuns.DurableEffect, BackTo, Commits, OneGroup,
        Ended;
    m.InvFacts();
    Shown(m.c, m.img, m.run, m.steps, |m.run| - 1);
    ghost var run0, s, b := m.run, m.Now(), m.log.bc.latest;
    EndedFacts(s);
    ghost var done;
    ok, done := m.EndOp(0);
    ghost var h := g + [LogRuns.Group(s.pending, true)];
    CommitGroups(m.c, m.run, Ended(s, 0), |run0|, done, ok);
    GroupsMore(run0, m.run, n, g, h);
    BeforeOrAfter(m.c, m.img, m.run, m.steps, n, g, h, a, b);
    AlongEarlier(m.run, n, |run0| - 1, s.disk, m.log.bc.disk.writes[|old(m.log.bc.disk.writes)|..],
        m.log.bc.disk.blocks);
    if ok { m.InvFacts(); }
  }

  lemma EndedFacts(s: LogRuns.State)
    requires |s.ops| == 1
    ensures Ended(s, 0).ops == [] && Ended(s, 0).lh == s.lh && Ended(s, 0).pending == s.pending
    ensures Ended(s, 0).groups == s.groups
  {
  }

  /** A whole operation: begin_op, its log_writes, end_op. Every image that the disk passes through meanwhile is in
      the run; from each, recovery brings back the blocks as they were before the operation, or as they are after
      it. It gets to its end if there is room for the blocks that it logs. */
  method Transact(m: Machine, ghost id: LogRuns.OpId, ws: seq<Write>) returns (ok: bool)
    requires Idle(m) && LogRuns.Fresh(m.Now(), id)
    requires Writable(m.log.l, |m.log.bc.latest|, ws) && InRange(|m.log.bc.latest|, ws)
    modifies m`run, m`steps, m.log, m.log.bc, m.log.bc.bufs, m.log.bc.head, m.log.bc.disk
    ensures LogRuns.IsRun(m.c, m.img, m.run, m.steps) && old(m.run) <= m.run
    ensures m.run != [] && m.Now().disk == m.log.bc.disk.blocks && m.log.bc.bufs == old(m.log.bc.bufs)
    ensures old(m.log.bc.disk.writes) <= m.log.bc.disk.writes
    ensures Along(m.run, |old(m.run)| - 1, old(m.log.bc.disk.blocks),
                  m.log.bc.disk.writes[|old(m.log.bc.disk.writes)|..], m.log.bc.disk.blocks)
    ensures forall k | |old(m.run)| - 1 <= k < |m.run| ::
              BackTo(m.c, m.run, k, old(m.log.bc.latest), Apply(old(m.log.bc.latest), ws))
    ensures RoomIn(m.log.l, |m.log.bc.bufs|, |BlocksOf(ws)|) ==> ok
    ensures ok ==> Idle(m) && HomeEq(m.log.l, m.log.bc.latest, Apply(old(m.log.bc.latest), ws))
  {
    hide Machine.Inv, LogRuns.IsRun, Bcache.Holders, Apply, HomeEq, LogRuns.DurableEffect, LogRuns.Fresh, BackTo,
        OneGroup, Writable, BlocksOf, Along;
    m.InvFacts();
    ghost var n, g, a := |m.run| - 1, m.Now().groups, m.log.bc.latest;
    Shown(m.c, m.img, m.run, m.steps, n);
    ok := m.BeginOp(id);
    assert ok;  // the log is empty, so begin_op does not wait
    m.InvFacts();
    StartGroup(m.run, n, g);
    ghost var run0 := m.run;
    ok := LogAll(m, ws);
    GroupsJoin(run0, m.run, n, g);
    if ok {
      ok := Finish(m, n, g, a);
      return;
    }
    BeforeOrAfter(m.c, m.img, m.run, m.steps, n, g, g, a, a);
    ToEither(m.c, m.run, n, a, Apply(a, ws));
    AlongNothing(m.run, n);
    assert m.log.bc.disk.writes[|old(m.log.bc.disk.writes)|..] == [];
  }

  lemma StartGroup(run: seq<LogRuns.State>, n: nat, g: seq<LogRuns.Group>)
    requires n < |run| <= n + 2 && forall k | n <= k < |run| :: run[k].groups == g
    ensures OneGroup(run, n, g, g)
  {
  }

  lemma GroupsJoin(run: seq<LogRuns.State>, run': seq<LogRuns.State>, n: nat, g: seq<LogRuns.Group>)
    requires OneGroup(run, n, g, g) && run <= run' && run != [] && OneGroup(run', |run| - 1, g, g)
    ensures OneGroup(run', n, g, g)
  {
  }

  lemma GroupsMore(run: seq<LogRuns.State>, run': seq<LogRuns.State>, n: nat, g: seq<LogRuns.Group>,
                   h: seq<LogRuns.Group>)
    requires OneGroup(run, n, g, g) && run <= run' && OneGroup(run', |run|, g, h)
    ensures OneGroup(run', n, g, h)
  {
  }

  lemma ToEither(c: LogRuns.Config, run: seq<LogRuns.State>, n: nat, a: Image, b: Image)
    requires forall k | n <= k < |run| :: BackTo(c, run, k, a, a)
    ensures forall k | n <= k < |run| :: BackTo(c, run, k, a, b)
  {
    hide HomeEq, HeaderOK, Recovered;
    forall k | n <= k < |run|
      ensures BackTo(c, run, k, a, b)
    {
      assert BackTo(c, run, k, a, a);
    }
  }

  // ---- operations of the file system ----

  /** In image `y`, the file of `v` is as it is in `v`. */
  ghost predicate Looks(v: View, y: Image) {
    && v.Sized() && Sound(v.sb, y)
    && Mkfs.At(v.sb, y, v.inum).ino == v.ino && SameBytes(v, Mkfs.At(v.sb, y, v.inum))
  }

  /** Image `y` is what is on the disk of `v`: a sound file system, in which the file is as it is in `v`, or, if the
      inode on the disk of `v` lacks a pointer, an unsound one. */
  ghost predicate Back(v: View, y: Image) {
    v.Sized() && if UpToDate(v) then Looks(v, y) else !Sound(v.sb, y)
  }

  /** Should the machine stop with this image on its disk, recovery brings back what was on disk before the
      operation or after it. */
  ghost predicate Survives(l: Layout, disk: Image, v: View, w: View) {
    HeaderOK(l, disk) && (Back(v, Recovered(l, disk)) || Back(w, Recovered(l, disk)))
  }

  lemma BackHome(l: Layout, v: View, y: Image)
    requires LogBefore(l, v.sb) && Trails(v) && HomeEq(l, v.blocks, y)
    ensures Back(v, y)
  {
    hide View.PointersOK, View.NoSharing, View.Conserved, GetInode, SameBytes, HomeEq, Sound;
    TrailsSound(v);
    if UpToDate(v) {
      SoundAfter(v);
      SoundHome(v.sb, l, v.blocks, y);
      FileHome(v.sb, l, v.blocks, y, v.inum);
    } else if Sound(v.sb, y) {
      HomeEqBack(l, v.blocks, y);
      SoundHome(v.sb, l, y, v.blocks);
    }
  }

  lemma OpSurvives(c: LogRuns.Config, run: seq<LogRuns.State>, from: nat, v: View, w: View, a: Image, b: Image)
    requires LogBefore(c.l, v.sb) && w.sb == v.sb && Trails(v) && Trails(w)
    requires HomeEq(c.l, v.blocks, a) && HomeEq(c.l, w.blocks, b)
    requires forall k | from <= k < |run| :: BackTo(c, run, k, a, b)
    ensures forall k | from <= k < |run| :: Survives(c.l, run[k].disk, v, w)
  {
    hide Trails, Back, Recovered, HeaderOK, HomeEq;
    TrailsFacts(v);
    TrailsFacts(w);
    forall k | from <= k < |run|
      ensures Survives(c.l, run[k].disk, v, w)
    {
      assert BackTo(c, run, k, a, b);
      var y := Recovered(c.l, run[k].disk);
      if HomeEq(c.l, a, y) {
        HomeEqTrans(c.l, v.blocks, a, y);
        BackHome(c.l, v, y);
      } else {
        HomeEqTrans(c.l, w.blocks, b, y);
        BackHome(c.l, w, y);
      }
    }
  }

  /** So of every image that the disk passes through. */
  ghost predicate AllSurvive(l: Layout, disk0: Image, ws: seq<Write>, v: View, w: View) {
    InRange(|disk0|, ws) && forall j | 0 <= j <= |ws| :: Survives(l, LogFormat.Crash(disk0, ws, j), v, w)
  }

  lemma AlongSurvives(l: Layout, run: seq<LogRuns.State>, from: nat, disk0: Image, ws: seq<Write>, disk1: Image,
                      v: View, w: View)
    requires Along(run, from, disk0, ws, disk1) && forall k | from <= k < |run| :: Survives(l, run[k].disk, v, w)
    ensures AllSurvive(l, disk0, ws, v, w)
  {
    hide Survives, LogFormat.Crash, Apply;
    forall j | 0 <= j <= |ws|
      ensures Survives(l, LogFormat.Crash(disk0, ws, j), v, w)
    {
      assert OnDisk(run, from, LogFormat.Crash(disk0, ws, j));
    }
  }

  /** All log_writes of an operation go behind the log. */
  lemma TraceWritable(t: Fs.Transaction, from: nat, l: Layout, a: Image)
    requires t.OK(from) && l.start + l.size <= from && HomeEq(l, t.start, a)
    ensures Writable(l, |a|, t.trace) && InRange(|a|, t.trace) && t.logged == BlocksOf(t.trace)
    ensures HomeEq(l, t.end, Apply(a, t.trace))
  {
    ApplyHome(l, t.start, a, t.trace);
  }

  /** The file system is at rest, on the same home blocks as cache and log, and `ip` is an inode of it. */
  ghost predicate AtRest(m: Machine, fs: Fs.Fs, ip: Fs.Inode)
    reads m, m.log, m.log.bc, m.log.bc.bufs, m.log.bc.ring, m.log.bc.disk, fs, ip
  {
    && Idle(m) && LogBefore(m.log.l, fs.sb) && HomeEq(m.log.l, fs.blocks, m.log.bc.latest) && Trails(fs.ViewOf(ip))
  }

  lemma AtRestFacts(m: Machine, fs: Fs.Fs, ip: Fs.Inode)
    requires AtRest(m, fs, ip)
    ensures m.Inv() && m.run != [] && m.c.l == m.log.l && ip.size <= MAXBYTES
    ensures Idle(m) && LogBefore(m.log.l, fs.sb) && HomeEq(m.log.l, fs.blocks, m.log.bc.latest)
    ensures fs.ViewOf(ip).Sized() && fs.ViewOf(ip).OK({}) && Trails(fs.ViewOf(ip))
  {
  }

  /** An operation of `Fs` that led from `v` to `w`, made through cache and log. */
  method Save(m: Machine, ghost id: LogRuns.OpId, t: Fs.Transaction, ghost v: View, ghost w: View) returns (ok: bool)
    requires Idle(m) && LogRuns.Fresh(m.Now(), id) && LogBefore(m.log.l, v.sb)
    requires Trails(v) && Trails(w) && w.sb == v.sb
    requires t.OK(v.sb.inodestart) && t.start == v.blocks && t.end == w.blocks
    requires HomeEq(m.log.l, t.start, m.log.bc.latest)
    modifies m`run, m`steps, m.log, m.log.bc, m.log.bc.bufs, m.log.bc.head, m.log.bc.disk
    ensures LogRuns.IsRun(m.c, m.img, m.run, m.steps)
    ensures old(m.run) <= m.run && old(m.log.bc.disk.writes) <= m.log.bc.disk.writes
    ensures var ws := m.log.bc.disk.writes[|old(m.log.bc.disk.writes)|..];
            && Along(m.run, |old(m.run)| - 1, old(m.log.bc.disk.blocks), ws, m.log.bc.disk.blocks)
            && AllSurvive(m.log.l, old(m.log.bc.disk.blocks), ws, v, w)
    ensures m.log.bc.bufs == old(m.log.bc.bufs)
    ensures RoomIn(m.log.l, |m.log.bc.bufs|, |t.logged|) ==> ok
    ensures ok ==> Idle(m) && HomeEq(m.log.l, t.end, m.log.bc.latest)
  {
    hide Trails, Machine.Inv, Sound, BackTo, HomeEq, Apply, LogRuns.IsRun, LogRuns.Fresh, Survives, Along,
        Fs.Transaction.OK, Bcache.Holders, Writable, SameBytes, RoomIn, BlocksOf, AllSurvive;
    ghost var n, a, disk0, writes0 := |m.run| - 1, m.log.bc.latest, m.log.bc.disk.blocks, m.log.bc.disk.writes;
    m.InvFacts();
    TraceWritable(t, v.sb.inodestart, m.log.l, a);
    ok := Transact(m, id, t.trace);
    OpSurvives(m.c, m.run, n, v, w, a, Apply(a, t.trace));
    AlongSurvives(m.log.l, m.run, n, disk0, m.log.bc.disk.writes[|writes0|..], m.log.bc.disk.blocks, v, w);
    if ok {
      HomeEqBack(m.log.l, m.log.bc.latest, Apply(a, t.trace));
      HomeEqTrans(m.log.l, t.end, Apply(a, t.trace), m.log.bc.latest);
    }
  }

  /** What a transaction of filewrite made of the file. */
  ghost predicate Wrote(v: View, w: View, off: nat, src: seq<byte>)
    requires v.Sized() && w.Sized()
  {
    && Trails(w) && (Whole(v) && UpToDate(v) ==> Whole(w) && UpToDate(w))
    && if FileWrite.Fits(v, off, |src|) then Spliced(v, w, off, src) && (UpToDate(w) <==> Completes(v, off, |src|))
       else w == v
  }

  /** A transaction of filewrite: whenever the machine stops, the chunk is in the file as a whole or not at all,
      and the file system is sound, or not so exactly because the chunk filled a hole and the inode on disk does not
      know. `full`: there are too few free blocks; then the operation never gets to end_op, and nothing of it
      reaches the disk. Otherwise it gets to its end, if log and cache have room for its budget. */
  method SaveChunk(m: Machine, ghost id: LogRuns.OpId, fs: Fs.Fs, f: FileWrite.File, src: seq<byte>)
    returns (full: bool, ok: bool, r: int)
    requires AtRest(m, fs, f.ip) && LogRuns.Fresh(m.Now(), id) && 0 < |src| <= FileWrite.MAXCHUNK
    modifies m`run, m`steps, m.log, m.log.bc, m.log.bc.bufs, m.log.bc.head, m.log.bc.disk
    modifies fs, f`off, f.ip`addrs, f.ip`size
    ensures old(fs.ViewOf(f.ip)).Sized()
    ensures var v := old(fs.ViewOf(f.ip));
            full <==> FileWrite.Fits(v, old(f.off), |src|) && !FileWrite.Enough(v, old(f.off), |src|)
    ensures full ==> !ok && m.run == old(m.run) && m.log.bc.disk.writes == old(m.log.bc.disk.writes)
    ensures !full ==>
      && fs.ViewOf(f.ip).Sized() && Wrote(old(fs.ViewOf(f.ip)), fs.ViewOf(f.ip), old(f.off), src)
      && r == (if FileWrite.Fits(old(fs.ViewOf(f.ip)), old(f.off), |src|) then |src| else -1)
      && f.off == if r < 0 then old(f.off) else old(f.off) + r
    ensures old(m.run) <= m.run && old(m.log.bc.disk.writes) <= m.log.bc.disk.writes
    ensures !full ==>
      var ws := m.log.bc.disk.writes[|old(m.log.bc.disk.writes)|..];
      && Along(m.run, |old(m.run)| - 1, old(m.log.bc.disk.blocks), ws, m.log.bc.disk.blocks)
      && AllSurvive(m.log.l, old(m.log.bc.disk.blocks), ws, old(fs.ViewOf(f.ip)), fs.ViewOf(f.ip))
    ensures !full && RoomIn(m.log.l, |m.log.bc.bufs|, FileWrite.Budget(old(Whole(fs.ViewOf(f.ip))))) ==> ok
    ensures ok ==> AtRest(m, fs, f.ip)
  {
    hide View.OK, Whole, Spliced, Contents, Machine.Inv, HomeEq, LogRuns.Fresh, Fs.Transaction.OK, Trails, UpToDate,
        Completes, AllSurvive, Along, Bcache.Holders, FileWrite.Fits, FileWrite.Enough, FileWrite.Budget, RoomIn,
        LogRuns.IsRun, Fs.Fs.Acts;
    AtRestFacts(m, fs, f.ip);
    ghost var v, off := fs.ViewOf(f.ip), f.off;
    var done;
    done, r := FileWrite.WriteChunk(fs, f, src);
    if !done { return true, false, r; }
    TurnWrote(v, fs.ViewOf(f.ip), off, src, fs.Now());
    RoomLess(m.log.l, |m.log.bc.bufs|, |fs.logged|, FileWrite.Budget(Whole(v)));
    full := false;
    ok := Save(m, id, fs.Now(), v, fs.ViewOf(f.ip));
  }

  lemma TurnWrote(v: View, w: View, off: nat, src: seq<byte>, t: Fs.Transaction)
    requires Trails(v) && FileWrite.Turn(v, w, off, src, t)
    ensures v.Sized() && w.Sized() && Wrote(v, w, off, src) && w.sb == v.sb && w.inum == v.inum
    ensures Trails(w) && t.start == v.blocks && t.end == w.blocks
  {
    hide View.OK, Trails, Whole, Spliced, UpToDate, Completes;
    TrailsFacts(v);
    if FileWrite.Fits(v, off, |src|) {
      SpliceTrails(v, w, off, src);
      TrailsFacts(w);
    }
  }

  lemma RoomLess(l: Layout, nbuf: nat, n: nat, max: nat)
    requires n <= max
    ensures RoomIn(l, nbuf, max) ==> RoomIn(l, nbuf, n)
  {
  }

  /** itrunc as a transaction of its own: whenever the machine stops, the file is whole or empty, and no block is
      lost or owned twice. It gets to its end if log and cache have room for the bitmap and one block more. */
  method SaveTruncate(m: Machine, ghost id: LogRuns.OpId, fs: Fs.Fs, ip: Fs.Inode) returns (ok: bool)
    requires AtRest(m, fs, ip) && LogRuns.Fresh(m.Now(), id)
    modifies m`run, m`steps, m.log, m.log.bc, m.log.bc.bufs, m.log.bc.head, m.log.bc.disk
    modifies fs, ip`addrs, ip`size
    ensures Truncated(old(fs.ViewOf(ip)), fs.ViewOf(ip)) && UpToDate(fs.ViewOf(ip))
    ensures old(m.run) <= m.run && old(m.log.bc.disk.writes) <= m.log.bc.disk.writes
    ensures var ws := m.log.bc.disk.writes[|old(m.log.bc.disk.writes)|..];
            && Along(m.run, |old(m.run)| - 1, old(m.log.bc.disk.blocks), ws, m.log.bc.disk.blocks)
            && AllSurvive(m.log.l, old(m.log.bc.disk.blocks), ws, old(fs.ViewOf(ip)), fs.ViewOf(ip))
    ensures RoomIn(m.log.l, |m.log.bc.bufs|, fs.sb.size / BPB + 2) ==> ok
    ensures ok ==> AtRest(m, fs, ip)
  {
    hide View.OK, Truncated, Machine.Inv, HomeEq, LogRuns.Fresh, Fs.Transaction.OK, AllSurvive, Along, Bcache.Holders,
        Trails, UpToDate, LogRuns.IsRun, Fs.Fs.Acts, RoomIn;
    AtRestFacts(m, fs, ip);
    ghost var v := fs.ViewOf(ip);
    fs.BeginOp(ip);
    fs.Itrunc(ip);
    AfterTruncate(v, fs.ViewOf(ip));
    BitmapSize(fs.sb, fs.logged, fs.sb.IBlock(ip.inum));
    RoomLess(m.log.l, |m.log.bc.bufs|, |fs.logged|, fs.sb.size / BPB + 2);
    ok := Save(m, id, fs.Now(), v, fs.ViewOf(ip));
  }

  /** How many blocks itrunc logs. */
  lemma BitmapSize(sb: Superblock, logged: set<nat>, inode: nat)
    requires logged <= (set x: nat | x < sb.size :: sb.BBlock(x)) + {inode}
    ensures |logged| <= sb.size / BPB + 2
  {
    var maps := Mkfs.Interval(sb.bmapstart, sb.bmapstart + sb.size / BPB + 1);
    forall b | b in logged
      ensures b in maps + {inode}
    {
      if b != inode {
        var x: nat :| x < sb.size && sb.BBlock(x) == b;
        assert x / BPB <= sb.size / BPB;
      }
    }
    SubsetSize(logged, maps + {inode});
    UnionSize(maps, {inode});
  }

  lemma AfterTruncate(v: View, w: View)
    requires Truncated(v, w)
    ensures w.Sized() && Trails(w) && w.sb == v.sb && UpToDate(w)
  {
    hide GetInode;
  }
}
