/** Whole runs of operations that run side by side (`SideBySide`) on the log (`LogRuns`), with crashes anywhere. */
module SideRuns {
  import opened Words
  import opened Bio
  import opened LogFormat
  import opened FsFormat
  import opened Ownership
  import opened SideBySide
  import opened CrashSafety
  import Mkfs
  import LogRuns
  import LogMachine

  /** Nothing in hand: the disk alone, and what operations see, are the same. */
  lemma OnDiskPtr(s: Sys, i: nat, k: nat)
    requires s.Sized() && s.IsSlot(i, k) && s.Rest(i) && 0 < s.sb.ninodes
    ensures Mkfs.At(s.sb, s.blocks, 0).Ptr(i, k) == s.Ptr(i, k)
  {
    hide GetInode;
  }

  lemma SoundOnDisk(s: Sys)
    requires s.Sized() && 0 < s.sb.ninodes && s.pend == map[]
    requires forall i: nat | i < s.sb.ninodes :: s.Rest(i)
    ensures Sound(s.sb, s.blocks) <==> Core(s)
  {
    hide GetInode, UseBit, Sys.Ptr, View.Ptr, Sys.Rest;
    var v := Mkfs.At(s.sb, s.blocks, 0);
    forall i: nat, k: nat | s.IsSlot(i, k)
      ensures v.Ptr(i, k) == s.Ptr(i, k)
    {
      OnDiskPtr(s, i, k);
    }
    assert forall i, k :: v.IsSlot(i, k) <==> s.IsSlot(i, k);
    assert forall x :: v.Owned(x) <==> s.Owned(x);
  }

  lemma SoundSizes(sb: Superblock, blocks: Image)
    requires Sound(sb, blocks)
    ensures sb.OK() && |blocks| == sb.size && 0 < sb.ninodes
  {
  }

  /** So a sound disk is a start. */
  lemma StartOK(sb: Superblock, blocks: Image)
    requires Sound(sb, blocks)
    ensures sb.OK() && |blocks| == sb.size && AsOnDisk(sb, blocks).OK()
  {
    hide GetInode, UseBit, Sys.Ptr, View.Ptr, Sound;
    SoundSizes(sb, blocks);
    var s := AsOnDisk(sb, blocks);
    forall i: nat | i < sb.ninodes
      ensures s.Rest(i)
    {
    }
    SoundOnDisk(s);
  }

  /** And with no operation at work, the disk alone is sound. */
  lemma EndSound(s: Sys)
    requires s.OK() && 0 < s.sb.ninodes && s.busy == map[] && s.pend == map[]
    ensures Sound(s.sb, s.blocks)
  {
    hide GetInode, UseBit, Sys.Ptr, View.Ptr, Sound, Sys.Rest;
    CoreOf(s);
    SoundOnDisk(s);
  }

  // ---- the runs ----

  /** What a step of the log means for the file system: each log_write of an operation is one of its actions, and it
      does not end before all its inodes are on disk as they are in memory. */
  ghost predicate SysNext(s: LogRuns.State, y: Sys, step: LogRuns.Step, t: LogRuns.State, z: Sys) {
    match step
    case LogWrite(i, b, data) => i < |s.ops| && Act(y, s.ops[i].id, b, data, z)
    case End(i) => i < |s.ops| && Done(y, s.ops[i].id) && z == Left(y, s.ops[i].id)
    case CommitDone => y.sb.OK() && |t.latest| == y.sb.size && z == AsOnDisk(y.sb, t.latest)
    case RecoveryDone => y.sb.OK() && |t.latest| == y.sb.size && z == AsOnDisk(y.sb, t.latest)
    case _ => z == y
  }

  ghost predicate Works(c: LogRuns.Config, img: Image, sb: Superblock, run: seq<LogRuns.State>,
                        steps: seq<LogRuns.Step>, sys: seq<Sys>) {
    && LogRuns.IsRun(c, img, run, steps) && |sys| == |run|
    && sb.OK() && |img| == sb.size && sys[0] == AsOnDisk(sb, img)
    && forall k | 0 <= k < |steps| :: SysNext(run[k], sys[k], steps[k], run[k + 1], sys[k + 1])
  }

  /** What is in hand is in the hands of an operation that is outstanding. */
  ghost predicate InHands(ops: seq<LogRuns.Op>, y: Sys) {
    && (forall i <- y.busy :: LogRuns.HasOp(ops, y.busy[i]))
    && (forall b <- y.pend :: LogRuns.HasOp(ops, y.pend[b].op))
  }

  ghost predicate Holds(sb: Superblock, s: LogRuns.State, y: Sys) {
    && y.sb == sb
    && (s.phase.Running? ==> y.OK() && y.blocks == s.latest && InHands(s.ops, y))
    && (s.phase.Committing? ==> Sound(sb, s.latest))
  }

  lemma LogWriteHolds(c: LogRuns.Config, sb: Superblock, s: LogRuns.State, y: Sys, step: LogRuns.Step,
                      t: LogRuns.State, z: Sys)
    requires Holds(sb, s, y) && step.LogWrite? && LogRuns.Next(c, s, step, t) && SysNext(s, y, step, t, z)
    ensures Holds(sb, t, z)
  {
    hide Sys.OK, Act, LogRuns.Panics, LogRuns.Append;
    var id := s.ops[step.i].id;
    ActKeeps(y, id, step.blockno, step.data, z);
    SameNames(s.ops, t.ops, id, step.i);
  }

  lemma SameNames(ops: seq<LogRuns.Op>, ops': seq<LogRuns.Op>, id: OpId, i: nat)
    requires i < |ops| && ops[i].id == id && |ops'| == |ops|
    requires forall j | 0 <= j < |ops| :: ops'[j].id == ops[j].id
    ensures LogRuns.HasOp(ops', id) && forall x :: LogRuns.HasOp(ops, x) ==> LogRuns.HasOp(ops', x)
  {
    assert ops'[i].id == id;
    forall x | LogRuns.HasOp(ops, x)
      ensures LogRuns.HasOp(ops', x)
    {
      var j :| 0 <= j < |ops| && ops[j].id == x;
      assert ops'[j].id == x;
    }
  }

  lemma EndHolds(c: LogRuns.Config, sb: Superblock, s: LogRuns.State, y: Sys, step: LogRuns.Step, t: LogRuns.State,
                 z: Sys)
    requires Holds(sb, s, y) && step.End? && LogRuns.Next(c, s, step, t) && SysNext(s, y, step, t, z)
    requires 0 < sb.ninodes
    ensures Holds(sb, t, z)
  {
    hide Sys.OK, Sound;
    var id := s.ops[step.i].id;
    LeftKeeps(y, id);
    forall x | x != id && LogRuns.HasOp(s.ops, x)
      ensures LogRuns.HasOp(t.ops, x)
    {
      var j :| 0 <= j < |s.ops| && s.ops[j].id == x;
      var rest := t.ops;
      assert rest[if j < step.i then j else j - 1].id == x;
    }
    if t.ops == [] {
      assert InHands([], z);
      assert z.busy == map[] && z.pend == map[] by { NoHands(z); }
      EndSound(z);
    }
  }

  lemma NoHands(z: Sys)
    requires InHands([], z)
    ensures z.busy == map[] && z.pend == map[]
  {
    assert forall x :: !LogRuns.HasOp([], x);
    assert forall i :: i !in z.busy;
    assert forall b :: b !in z.pend;
  }

  /** The run up to state `k`. */
  lemma PrefixRuns(c: LogRuns.Config, img: Image, run: seq<LogRuns.State>, steps: seq<LogRuns.Step>, k: nat)
    requires LogRuns.IsRun(c, img, run, steps) && k < |run|
    ensures LogRuns.IsRun(c, img, run[..k + 1], steps[..k])
  {
    hide LogRuns.Next, LogRuns.Init;
  }

  /** A commit or a recovery is over: what the disk holds is sound. */
  lemma OverHolds(c: LogRuns.Config, img: Image, sb: Superblock, run: seq<LogRuns.State>, steps: seq<LogRuns.Step>,
                  sys: seq<Sys>, k: nat)
    requires Works(c, img, sb, run, steps, sys) && Sound(sb, img) && LogBefore(c.l, sb) && k < |steps|
    requires forall j | 0 <= j <= k :: Holds(sb, run[j], sys[j])
    requires steps[k].CommitDone? || steps[k].RecoveryDone?
    ensures Holds(sb, run[k + 1], sys[k + 1])
  {
    hide Sound, HomeEq, LogRuns.DurableEffect, LogRuns.Effect, ReadyToCommit, CommitWrites, RecoveryWrites, Sys.OK,
        LogRuns.IsRun, Recovered, HeaderOK, LogFormat.Crash;
    NextOf(c, img, run, steps, k);
    var t := run[k + 1];
    LogRuns.RunHolds(c, img, run, steps, k + 1);
    PrefixRuns(c, img, run, steps, k + 1);
    var run', steps' := run[..k + 2], steps[..k + 1];
    assert SysNext(run[k], sys[k], steps[k], t, sys[k + 1]);
    assert GroupsSound(sb, run') by {
      forall j | 0 <= j < |run'| && run'[j].phase.Committing?
        ensures Sound(sb, run'[j].latest)
      {
        assert Holds(sb, run[j], sys[j]);
      }
    }
    DurableSound(c, img, run', steps', sb, k + 1);
    HomeEqBack(c.l, t.latest, LogRuns.DurableEffect(img, t.groups));
    SoundHome(sb, c.l, LogRuns.DurableEffect(img, t.groups), t.latest);
    StartOK(sb, t.latest);
  }

  lemma NextOf(c: LogRuns.Config, img: Image, run: seq<LogRuns.State>, steps: seq<LogRuns.Step>, k: nat)
    requires LogRuns.IsRun(c, img, run, steps) && k < |steps|
    ensures |run| == |steps| + 1 && LogRuns.Next(c, run[k], steps[k], run[k + 1])
  {
    hide LogRuns.Next;
  }

  lemma {:induction false} WorksHolds(c: LogRuns.Config, img: Image, sb: Superblock, run: seq<LogRuns.State>,
                                      steps: seq<LogRuns.Step>, sys: seq<Sys>, k: nat)
    requires Works(c, img, sb, run, steps, sys) && Sound(sb, img) && LogBefore(c.l, sb) && k < |run|
    ensures forall j | 0 <= j <= k :: Holds(sb, run[j], sys[j])
  {
    hide Sound, Sys.OK, LogRuns.IsRun, Act, Done, LogRuns.Fresh, CommitWrites, RecoveryWrites, HeaderOK,
        LogFormat.Crash, LogRuns.RoomFor, Loggable, Holds;
    SoundSizes(sb, img);
    LogMachine.RunLength(c, img, run, steps);
    if k == 0 {
      FirstHolds(c, img, sb, run, steps, sys);
    } else {
      WorksHolds(c, img, sb, run, steps, sys, k - 1);
      NextOf(c, img, run, steps, k - 1);
      assert SysNext(run[k - 1], sys[k - 1], steps[k - 1], run[k], sys[k]);
      if steps[k - 1].CommitDone? || steps[k - 1].RecoveryDone? {
        OverHolds(c, img, sb, run, steps, sys, k - 1);
      } else if steps[k - 1].LogWrite? {
        LogWriteHolds(c, sb, run[k - 1], sys[k - 1], steps[k - 1], run[k], sys[k]);
      } else if steps[k - 1].End? {
        EndHolds(c, sb, run[k - 1], sys[k - 1], steps[k - 1], run[k], sys[k]);
      } else {
        OtherHolds(c, sb, run[k - 1], sys[k - 1], steps[k - 1], run[k]);
      }
    }
  }

  lemma FirstHolds(c: LogRuns.Config, img: Image, sb: Superblock, run: seq<LogRuns.State>, steps: seq<LogRuns.Step>,
                   sys: seq<Sys>)
    requires Works(c, img, sb, run, steps, sys) && Sound(sb, img)
    ensures Holds(sb, run[0], sys[0])
  {
    hide Sound, Sys.OK, SysNext, LogRuns.Next;
    StartOK(sb, img);
  }

  lemma OtherHolds(c: LogRuns.Config, sb: Superblock, s: LogRuns.State, y: Sys, step: LogRuns.Step, t: LogRuns.State)
    requires Holds(sb, s, y) && LogRuns.Next(c, s, step, t)
    requires step.Begin? || step.CommitWrite? || step.Crash? || step.Reboot? || step.RecoveryWrite?
    ensures Holds(sb, t, y)
  {
    hide Sound, Sys.OK, LogRuns.Fresh, CommitWrites, RecoveryWrites, HeaderOK, LogFormat.Crash, LogRuns.RoomFor,
        Loggable;
    if step.Begin? {
      forall x | LogRuns.HasOp(s.ops, x)
        ensures LogRuns.HasOp(t.ops, x)
      {
        var j :| 0 <= j < |s.ops| && s.ops[j].id == x;
        assert t.ops[j].id == x;
      }
    }
  }

  /** Crash safety for operations that run side by side, however their log_writes follow each other: from every
      state of every run, recovery brings back a sound file system. */
  lemma SideBySideSound(c: LogRuns.Config, img: Image, sb: Superblock, run: seq<LogRuns.State>,
                        steps: seq<LogRuns.Step>, sys: seq<Sys>, k: nat)
    requires Works(c, img, sb, run, steps, sys) && Sound(sb, img) && LogBefore(c.l, sb) && k < |run|
    ensures HeaderOK(c.l, run[k].disk) && Sound(sb, Recovered(c.l, run[k].disk))
    ensures run[k].phase.Running? ==> sys[k].OK() && sys[k].blocks == run[k].latest
  {
    hide Sound, Sys.OK, LogRuns.IsRun, SysNext, HeaderOK, Recovered;
    WorksHolds(c, img, sb, run, steps, sys, |run| - 1);
    assert Holds(sb, run[k], sys[k]);
    AlwaysSound(c, img, run, steps, sb, k);
  }
}
