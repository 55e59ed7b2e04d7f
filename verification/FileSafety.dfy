/** A crash in the middle of a write: filewrite (file.c) through cache and log, transaction after transaction. */
module FileSafety {
  import opened Words
  import opened Bio
  import opened LogFormat
  import opened Ownership
  import opened Content
  import opened LogMachine
  import opened FileWrite
  import opened CrashSafety
  import LogRuns
  import Fs
  import L = Log

  // ---- names for operations ----

  function Above(ws: seq<LogRuns.OpWrite>): (id: nat)
    ensures forall w <- ws :: w.op < id
  {
    if ws == [] then 0
    else
      var id, op := Above(ws[..|ws| - 1]), ws[|ws| - 1].op;
      assert forall w <- ws :: w in ws[..|ws| - 1] || w == ws[|ws| - 1];
      if op < id then id else op + 1
  }

  function AboveAll(groups: seq<LogRuns.Group>): (id: nat)
    ensures forall i | 0 <= i < |groups| :: forall w <- groups[i].writes :: w.op < id
  {
    if groups == [] then 0
    else
      var a, b := AboveAll(groups[..|groups| - 1]), Above(groups[|groups| - 1].writes);
      assert forall i | 0 <= i < |groups| - 1 :: groups[i] == groups[..|groups| - 1][i];
      if a < b then b else a
  }

  /** There is a name that no operation has had. */
  lemma FreshName(s: LogRuns.State) returns (id: LogRuns.OpId)
    requires s.ops == []
    ensures LogRuns.Fresh(s, id)
  {
    var a, b := AboveAll(s.groups), Above(s.pending);
    id := if a < b then b else a;
  }

  // ---- what a crash leaves of a file ----

  /** Recovery from this image brings back one of the first `k + 1` views. */
  ghost predicate BackToOne(l: Layout, x: Image, views: seq<View>, k: nat) {
    HeaderOK(l, x) && exists i | 0 <= i < |views| && i <= k :: Back(views[i], Recovered(l, x))
  }

  /** From every image that the disk passes through. */
  ghost predicate ManySurvive(l: Layout, disk0: Image, ws: seq<Write>, views: seq<View>, k: nat) {
    InRange(|disk0|, ws) && forall j | 0 <= j <= |ws| :: BackToOne(l, LogFormat.Crash(disk0, ws, j), views, k)
  }

  lemma SurviveMore(l: Layout, disk0: Image, ws: seq<Write>, disk1: Image, more: seq<Write>, views: seq<View>, k: nat)
    requires ManySurvive(l, disk0, ws, views, k) && disk1 == Apply(disk0, ws) && k + 1 < |views|
    requires AllSurvive(l, disk1, more, views[k], views[k + 1])
    ensures ManySurvive(l, disk0, ws + more, views, k + 1)
  {
    hide Back, Recovered, HeaderOK, Apply;
    ApplyConcat(disk0, ws, more);
    forall j | 0 <= j <= |ws + more|
      ensures BackToOne(l, LogFormat.Crash(disk0, ws + more, j), views, k + 1)
    {
      if j <= |ws| {
        assert (ws + more)[..j] == ws[..j];
        assert BackToOne(l, LogFormat.Crash(disk0, ws, j), views, k);
      } else {
        assert (ws + more)[..j] == ws + more[..j - |ws|];
        ApplyConcat(disk0, ws, more[..j - |ws|]);
        assert Survives(l, LogFormat.Crash(disk1, more, j - |ws|), views[k], views[k + 1]);
      }
    }
  }

  /** Before the first write, recovery brings back what the cache shows. */
  lemma IdleBack(m: Machine, v: View)
    requires Idle(m) && Trails(v) && LogBefore(m.log.l, v.sb) && HomeEq(m.log.l, v.blocks, m.log.bc.latest)
    ensures HeaderOK(m.log.l, m.log.bc.disk.blocks) && Back(v, Recovered(m.log.l, m.log.bc.disk.blocks))
  {
    hide Machine.Inv, HomeEq, Back, HeaderOK, Recovered, LogRuns.IsRun, LogRuns.DurableEffect, Trails;
    m.InvFacts();
    var l, n, d := m.log.l, |m.run| - 1, LogRuns.DurableEffect(m.img, m.Now().groups);
    Shown(m.c, m.img, m.run, m.steps, n);
    LogRuns.GroupAtomicity(m.c, m.img, m.run, m.steps, n);
    var y := Recovered(l, m.log.bc.disk.blocks);
    HomeEqBack(l, y, d);
    HomeEqTrans(l, v.blocks, m.log.bc.latest, d);
    HomeEqTrans(l, v.blocks, d, y);
    BackHome(l, v, y);
  }

  lemma NoWrites(l: Layout, disk: Image, views: seq<View>)
    requires views != [] && HeaderOK(l, disk) && Back(views[0], Recovered(l, disk))
    ensures ManySurvive(l, disk, [], views, 0)
  {
    hide Back, HeaderOK, Recovered;
    assert LogFormat.Crash(disk, [], 0) == disk;
  }

  // ---- filewrite ----

  /** What the k-th transaction made of the file. */
  ghost predicate WroteNth(views: seq<View>, off: nat, src: seq<byte>, k: nat) {
    && k + 1 < |views| && views[k].Sized() && views[k + 1].Sized()
    && Wrote(views[k], views[k + 1], off + Upto(|src|, k), Chunk(src, k))
  }

  /** The file after each transaction: its inode on disk lacks at most pointers, and none at all exactly if the
      chunk left it so. */
  lemma {:induction false} ViewsTrail(views: seq<View>, ops: seq<Fs.Transaction>, off: nat, src: seq<byte>, from: nat,
                                      budget: nat, k: nat)
    requires Split(views, ops, off, src, from, budget) && Trails(views[0]) && k < |views|
    ensures |views| == |ops| + 1 && Trails(views[k]) && views[k].sb == views[0].sb && views[k].inum == views[0].inum
    ensures Whole(views[0]) && UpToDate(views[0]) ==> Whole(views[k]) && UpToDate(views[k])
    ensures k > 0 ==> WroteNth(views, off, src, k - 1)
    ensures k < |ops| ==>
      && ops[k].OK(from) && ops[k].start == views[k].blocks && ops[k].end == views[k + 1].blocks
      && |ops[k].logged| <= budget
  {
    hide Trails, UpToDate, Completes, Whole, Spliced, Upto, Chunk, Fs.Transaction.OK, Fits;
    TrailsFacts(views[0]);
    if k > 0 {
      ViewsTrail(views, ops, off, src, from, budget, k - 1);
      var i := k - 1;
      assert Turn(views[i], views[i + 1], off + Upto(|src|, i), Chunk(src, i), ops[i]);
      TurnWrote(views[i], views[k], off + Upto(|src|, i), Chunk(src, i), ops[i]);
    }
    if k < |ops| { assert Turn(views[k], views[k + 1], off + Upto(|src|, k), Chunk(src, k), ops[k]); }
  }

  /** And every one. */
  ghost predicate AllWrote(views: seq<View>, off: nat, src: seq<byte>) {
    forall k: nat | k < |views| - 1 :: WroteNth(views, off, src, k)
  }

  ghost predicate AllTrail(views: seq<View>, sb: Superblock, inum: nat) {
    forall k | 0 <= k < |views| :: Trails(views[k]) && views[k].sb == sb && views[k].inum == inum
  }

  lemma EachWrote(views: seq<View>, ops: seq<Fs.Transaction>, off: nat, src: seq<byte>, from: nat, budget: nat)
    requires Split(views, ops, off, src, from, budget) && views != [] && Trails(views[0])
    ensures AllWrote(views, off, src) && AllTrail(views, views[0].sb, views[0].inum)
  {
    hide Trails, Split, Wrote, Upto, Chunk, WroteNth;
    forall k | 0 <= k < |views|
      ensures Trails(views[k]) && views[k].sb == views[0].sb && views[k].inum == views[0].inum
    {
      ViewsTrail(views, ops, off, src, from, budget, k);
    }
    forall k: nat | k < |views| - 1
      ensures WroteNth(views, off, src, k)
    {
      ViewsTrail(views, ops, off, src, from, budget, k + 1);
    }
  }

  /** The transactions of one filewrite, made through cache and log one after the other. */
  method SaveAll(m: Machine, ops: seq<Fs.Transaction>, ghost views: seq<View>, ghost off: nat, ghost src: seq<byte>,
           ghost budget: nat) returns (ok: bool)
    requires views != [] && Split(views, ops, off, src, views[0].sb.inodestart, budget) && Trails(views[0])
    requires Idle(m) && LogBefore(m.log.l, views[0].sb) && HomeEq(m.log.l, views[0].blocks, m.log.bc.latest)
    modifies m`run, m`steps, m.log, m.log.bc, m.log.bc.bufs, m.log.bc.head, m.log.bc.disk
    ensures LogRuns.IsRun(m.c, m.img, m.run, m.steps) && old(m.run) <= m.run
    ensures Saved(m, |old(m.run)| - 1, old(m.log.bc.disk.blocks), old(m.log.bc.disk.writes), views, |views| - 1)
    ensures m.log.bc.bufs == old(m.log.bc.bufs) && (RoomIn(m.log.l, |m.log.bc.bufs|, budget) ==> ok)
    ensures |views| == |ops| + 1 && (ok ==> Idle(m) && HomeEq(m.log.l, views[|ops|].blocks, m.log.bc.latest))
  {
    hide Machine.Inv, HomeEq, Split, Whole, Trails, Bcache.Holders, RoomIn, Saved, WroteNth, UpToDate, LogRuns.IsRun;
    ghost var from, disk0, writes0 := |m.run| - 1, m.log.bc.disk.blocks, m.log.bc.disk.writes;
    ViewsTrail(views, ops, off, src, views[0].sb.inodestart, budget, 0);
    RunStarted(m);
    SavedNothing(m, views);
    var k := 0;
    while k < |ops|
      invariant k <= |ops| && Idle(m) && m.log.bc.bufs == old(m.log.bc.bufs) && old(m.run) <= m.run
      invariant LogRuns.IsRun(m.c, m.img, m.run, m.steps)
      invariant HomeEq(m.log.l, views[k].blocks, m.log.bc.latest) && Saved(m, from, disk0, writes0, views, k)
    {
      ok := SaveNext(m, ops, k, views, off, src, budget, from, disk0, writes0);
      if !ok {
        SurviveAll(m, from, disk0, writes0, views, k + 1);
        return;
      }
      k := k + 1;
    }
    SurviveAll(m, from, disk0, writes0, views, k);
    ok := true;
  }

  /** The writes since `disk0` and `writes0` made the first `k` transactions; all images that the disk passed through
      are in the run from index `from` on. */
  ghost predicate Saved(m: Machine, from: nat, disk0: Image, writes0: seq<Write>, views: seq<View>, k: nat)
    reads m`run, m.log.bc, m.log.bc.disk, m.log
  {
    && writes0 <= m.log.bc.disk.writes
    && Along(m.run, from, disk0, m.log.bc.disk.writes[|writes0|..], m.log.bc.disk.blocks)
    && ManySurvive(m.log.l, disk0, m.log.bc.disk.writes[|writes0|..], views, k)
  }

  lemma SavedNothing(m: Machine, views: seq<View>)
    requires views != [] && Idle(m) && Trails(views[0]) && LogBefore(m.log.l, views[0].sb)
    requires HomeEq(m.log.l, views[0].blocks, m.log.bc.latest)
    ensures m.run != [] && Saved(m, |m.run| - 1, m.log.bc.disk.blocks, m.log.bc.disk.writes, views, 0)
  {
    hide Machine.Inv, Trails, HomeEq, Back, Recovered, HeaderOK, ManySurvive, Along;
    m.InvFacts();
    IdleBack(m, views[0]);
    NoWrites(m.log.l, m.log.bc.disk.blocks, views);
    AlongNothing(m.run, |m.run| - 1);
    assert m.log.bc.disk.writes[|m.log.bc.disk.writes|..] == [];
  }

  /** The next transaction. */
  method SaveNext(m: Machine, ops: seq<Fs.Transaction>, k: nat, ghost views: seq<View>, ghost off: nat,
           ghost src: seq<byte>, ghost budget: nat, ghost from: nat, ghost disk0: Image, ghost writes0: seq<Write>)
    returns (ok: bool)
    requires views != [] && Split(views, ops, off, src, views[0].sb.inodestart, budget) && k < |ops|
    requires Trails(views[0]) && |views| == |ops| + 1 && Idle(m) && LogBefore(m.log.l, views[0].sb) && from < |m.run|
    requires HomeEq(m.log.l, views[k].blocks, m.log.bc.latest) && Saved(m, from, disk0, writes0, views, k)
    modifies m`run, m`steps, m.log, m.log.bc, m.log.bc.bufs, m.log.bc.head, m.log.bc.disk
    ensures LogRuns.IsRun(m.c, m.img, m.run, m.steps) && old(m.run) <= m.run
    ensures m.log.bc.bufs == old(m.log.bc.bufs) && Saved(m, from, disk0, writes0, views, k + 1)
    ensures RoomIn(m.log.l, |m.log.bc.bufs|, budget) ==> ok
    ensures ok ==> Idle(m) && HomeEq(m.log.l, views[k + 1].blocks, m.log.bc.latest)
  {
    hide Machine.Inv, HomeEq, Split, Whole, ManySurvive, AllSurvive, Along, Trails, LogRuns.Fresh, Bcache.Holders,
        Fs.Transaction.OK, RoomIn, WroteNth, UpToDate, LogRuns.IsRun;
    ViewsTrail(views, ops, off, src, views[0].sb.inodestart, budget, k);
    ViewsTrail(views, ops, off, src, views[0].sb.inodestart, budget, k + 1);
    RunStarted(m);
    ghost var id := FreshName(m.Now());
    ghost var run, ws, disk1 := m.run, m.log.bc.disk.writes, m.log.bc.disk.blocks;
    RoomLess(m.log.l, |m.log.bc.bufs|, |ops[k].logged|, budget);
    ok := Save(m, id, ops[k], views[k], views[k + 1]);
    ghost var ws' := m.log.bc.disk.writes;
    AlongFacts(run, from, disk0, ws[|writes0|..], disk1);
    assert ws'[|writes0|..] == ws[|writes0|..] + ws'[|ws|..];
    AlongThen(run, m.run, from, |run| - 1, disk0, ws[|writes0|..], disk1, ws'[|ws|..], m.log.bc.disk.blocks);
    SurviveMore(m.log.l, disk0, ws[|writes0|..], disk1, ws'[|ws|..], views, k);
  }

  lemma AlongFacts(run: seq<LogRuns.State>, from: nat, disk0: Image, ws: seq<Write>, disk1: Image)
    requires Along(run, from, disk0, ws, disk1)
    ensures InRange(|disk0|, ws) && disk1 == Apply(disk0, ws)
  {
  }

  lemma RunStarted(m: Machine)
    requires Idle(m)
    ensures m.run != [] && m.Now().ops == [] && LogRuns.IsRun(m.c, m.img, m.run, m.steps)
  {
    m.InvFacts();
  }

  /** filewrite, whose transactions go through cache and log one after the other. Whenever the machine stops,
      recovery brings back the file with the first few chunks, each as a whole: one of `views`, which are the file
      before the write and after each transaction. In a file without holes all of them are sound; else a view is
      unsound exactly if its last chunks filled a hole and the inode on disk does not know. `full`: too few free
      blocks; then the chunks before the one that panics are in the file. The write gets to its end if log and
      cache have room for its budget: MAXOPBLOCKS, and one block more if there are holes. */
  method SaveFile(m: Machine, fs: Fs.Fs, f: File, addr: seq<byte>, n: int)
    returns (full: bool, ok: bool, r: int, ghost views: seq<View>)
    requires AtRest(m, fs, f.ip) && f.writable && n <= |addr| && n < TWO32 / 2
    modifies m`run, m`steps, m.log, m.log.bc, m.log.bc.bufs, m.log.bc.head, m.log.bc.disk
    modifies fs, f`off, f.ip`addrs, f.ip`size
    ensures old(fs.ViewOf(f.ip)).Sized()
    ensures var v := old(fs.ViewOf(f.ip));
            full <==> old(f.off) <= v.ino.size && !Enough(v, old(f.off), Arrive(v.ino.size, old(f.off), n))
    ensures old(fs.past) <= fs.past && views != [] && views[0] == old(fs.ViewOf(f.ip))
    ensures Split(views, fs.past[|old(fs.past)|..], old(f.off), Bytes(addr, n), fs.sb.inodestart,
                  Budget(old(Whole(fs.ViewOf(f.ip)))))
    ensures AllWrote(views, old(f.off), Bytes(addr, n)) && AllTrail(views, fs.sb, f.ip.inum)
    ensures !full ==>
      && views[|views| - 1] == fs.ViewOf(f.ip)
      && var all := Arrive(old(f.ip.size), old(f.off), n);
         r == (if n == all then n else -1) && f.off == old(f.off) + all
    ensures full ==> Stuck(views[|views| - 1], old(f.off), Bytes(addr, n), |views| - 1)
    ensures LogRuns.IsRun(m.c, m.img, m.run, m.steps) && old(m.run) <= m.run
    ensures m.log.bc.bufs == old(m.log.bc.bufs)
    ensures Saved(m, |old(m.run)| - 1, old(m.log.bc.disk.blocks), old(m.log.bc.disk.writes), views, |views| - 1)
    ensures RoomIn(m.log.l, |m.log.bc.bufs|, Budget(old(Whole(fs.ViewOf(f.ip))))) ==> ok
    ensures ok ==> Idle(m) && HomeEq(m.log.l, views[|views| - 1].blocks, m.log.bc.latest)
    ensures ok && !full ==> AtRest(m, fs, f.ip)
  {
    hide View.OK, Machine.Inv, HomeEq, Split, Whole, Enough, Arrive, Saved, Trails, Bcache.Holders, AllWrote, AllTrail,
        RoomIn, LogRuns.IsRun, Spliced, Turns, Bytes, Stuck, WroteNth, UpToDate, Budget;
    AtRestFacts(m, fs, f.ip);
    ghost var budget := Budget(Whole(fs.ViewOf(f.ip)));
    var before := |fs.past|;
    var done;
    done, r, views := Filewrite(fs, f, addr, n);
    full := !done;
    var ops := fs.past[before..];
    EachWrote(views, ops, old(f.off), Bytes(addr, n), fs.sb.inodestart, budget);
    ok := SaveAll(m, ops, views, old(f.off), Bytes(addr, n), budget);
    if ok && !full {
      ViewsTrail(views, ops, old(f.off), Bytes(addr, n), fs.sb.inodestart, budget, |ops|);
    }
  }

  lemma SurviveAll(m: Machine, from: nat, disk0: Image, writes0: seq<Write>, views: seq<View>, k: nat)
    requires Saved(m, from, disk0, writes0, views, k) && k < |views|
    ensures Saved(m, from, disk0, writes0, views, |views| - 1)
  {
    hide Back, Recovered, HeaderOK, Apply, LogFormat.Crash, Along;
    var ws := m.log.bc.disk.writes[|writes0|..];
    forall j | 0 <= j <= |ws|
      ensures BackToOne(m.log.l, LogFormat.Crash(disk0, ws, j), views, |views| - 1)
    {
      assert BackToOne(m.log.l, LogFormat.Crash(disk0, ws, j), views, k);
    }
  }
}
