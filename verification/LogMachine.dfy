/** The log on its buffer cache (`Log`, `Bio`) runs the protocol of `LogRuns`: what each operation does to
    disk, cache and header in memory is a stretch of steps of that machine. So what holds in all its runs
    holds of the code, at every write to the disk. */
module LogMachine {
  import opened Words
  import opened Bio
  import opened LogFormat
  import opened LogRuns
  import L = Log

  lemma RunExtend(c: Config, img: Image, run: seq<State>, steps: seq<Step>, step: Step, t: State)
    requires IsRun(c, img, run, steps) && Next(c, run[|run| - 1], step, t)
    ensures IsRun(c, img, run + [t], steps + [step])
  {
    hide Next, Init;
    var run', steps' := run + [t], steps + [step];
    forall i | 0 <= i < |steps'|
      ensures Next(c, run'[i], steps'[i], run'[i + 1])
    {
      if i < |steps| {
        assert run'[i] == run[i] && run'[i + 1] == run[i + 1] && steps'[i] == steps[i];
      }
    }
  }

  /** The run with one more step. */
  lemma Onward(c: Config, img: Image, run: seq<State>, steps: seq<Step>, step: Step, t: State)
      returns (run': seq<State>, steps': seq<Step>)
    requires IsRun(c, img, run, steps) && Next(c, run[|run| - 1], step, t)
    ensures IsRun(c, img, run', steps') && |run'| == |run| + 1 && run'[|run|] == t && run <= run'
    ensures forall j | 0 <= j < |run| :: run'[j] == run[j]
  {
    hide IsRun, Next;
    RunExtend(c, img, run, steps, step, t);
    run', steps' := run + [t], steps + [step];
  }

  /** After `k` writes of the commit that `s` is about to make. */
  ghost function CommitAfter(c: Config, s: State, k: nat): State
    requires s.phase.Committing? && Loggable(c.l, |s.latest|, s.lh) && |s.phase.base| == |s.latest|
    requires k <= |CommitWrites(c.l, s.lh, s.latest)|
  {
    var t := s.(disk := LogFormat.Crash(s.phase.base, CommitWrites(c.l, s.lh, s.latest), k),
                phase := Committing(s.phase.base, k));
    if k < CommitPoint(s.lh) then t else t.(groups := s.groups + [Group(s.pending, true)], pending := [])
  }

  /** The step that makes the next write of a commit. */
  lemma CommitNext(c: Config, s: State, k: nat)
    requires s.phase.Committing? && Loggable(c.l, |s.latest|, s.lh) && |s.phase.base| == |s.latest|
    requires k < |CommitWrites(c.l, s.lh, s.latest)|
    ensures Next(c, CommitAfter(c, s, k), CommitWrite, CommitAfter(c, s, k + 1))
  {
    hide CommitWrites, LogFormat.Crash;
  }

  /** The run through the first `n` writes of the commit that its last state `s` is about to make; each image
      that the disk has meanwhile is in it. */
  lemma {:induction false} CommitRun(c: Config, img: Image, run: seq<State>, steps: seq<Step>, s: State, n: nat)
      returns (run': seq<State>, steps': seq<Step>)
    requires IsRun(c, img, run, steps) && run != [] && s == run[|run| - 1]
    requires s.phase.Committing? && s.phase.k == 0 && Loggable(c.l, |s.latest|, s.lh)
    requires |s.phase.base| == |s.latest| && n <= |CommitWrites(c.l, s.lh, s.latest)| && s.disk == s.phase.base
    ensures IsRun(c, img, run', steps') && run <= run' && |run'| == |run| + n
    ensures forall j | |run| - 1 <= j < |run'| :: run'[j] == CommitAfter(c, s, j - (|run| - 1))
  {
    hide IsRun, CommitWrites, CommitAfter, Loggable;
    if n == 0 {
      run', steps' := run, steps;
      CommitStart(c, s);
    } else {
      run', steps' := CommitRun(c, img, run, steps, s, n - 1);
      CommitNext(c, s, n - 1);
      assert run'[|run'| - 1] == CommitAfter(c, s, n - 1);
      run', steps' := Onward(c, img, run', steps', CommitWrite, CommitAfter(c, s, n));
    }
  }

  lemma RunLength(c: Config, img: Image, run: seq<State>, steps: seq<Step>)
    requires IsRun(c, img, run, steps)
    ensures |run| == |steps| + 1
  {
  }

  lemma CommitStart(c: Config, s: State)
    requires s.phase.Committing? && s.phase.k == 0 && Loggable(c.l, |s.latest|, s.lh)
    requires |s.phase.base| == |s.latest| && s.disk == s.phase.base
    ensures CommitAfter(c, s, 0) == s
  {
    assert CommitWrites(c.l, s.lh, s.latest)[..0] == [];
  }

  /** After `k` writes of the recovery that `s` is about to make. */
  ghost function RecoveryAfter(c: Config, s: State, k: nat): State
    requires HeaderOK(c.l, s.disk) && k <= |RecoveryWrites(c.l, s.disk)|
  {
    s.(disk := LogFormat.Crash(s.disk, RecoveryWrites(c.l, s.disk), k), phase := Recovering(s.disk, k))
  }

  /** The run through the first `n` writes of a recovery. */
  lemma {:induction false} RecoveryRun(c: Config, img: Image, run: seq<State>, steps: seq<Step>, n: nat)
      returns (run': seq<State>, steps': seq<Step>)
    requires IsRun(c, img, run, steps)
    requires var s := run[|run| - 1];
             && s.phase.Recovering? && s.phase.k == 0 && s.phase.base == s.disk && HeaderOK(c.l, s.disk)
             && n <= |RecoveryWrites(c.l, s.disk)|
    ensures IsRun(c, img, run', steps') && run <= run' && |run'| == |run| + n
    ensures var s := run[|run| - 1];
            forall j | |run| - 1 <= j < |run'| :: run'[j] == RecoveryAfter(c, s, j - (|run| - 1))
  {
    var s := run[|run| - 1];
    if n == 0 {
      run', steps' := run, steps;
      RecoveryStart(c, s);
    } else {
      run', steps' := RecoveryRun(c, img, run, steps, n - 1);
      assert run'[|run'| - 1] == RecoveryAfter(c, s, n - 1);
      RecoveryNext(c, s, n - 1);
      hide Init, Next, RecoveryWrites, HeaderOK, LogFormat.Crash, IsRun;
      run', steps' := Onward(c, img, run', steps', RecoveryWrite, RecoveryAfter(c, s, n));
    }
  }

  lemma RecoveryStart(c: Config, s: State)
    requires s.phase.Recovering? && s.phase.k == 0 && s.phase.base == s.disk && HeaderOK(c.l, s.disk)
    ensures RecoveryAfter(c, s, 0) == s
  {
    assert RecoveryWrites(c.l, s.disk)[..0] == [];
  }

  lemma RecoveryNext(c: Config, s: State, k: nat)
    requires s.phase.Recovering? && HeaderOK(c.l, s.disk) && k < |RecoveryWrites(c.l, s.disk)|
    ensures Next(c, RecoveryAfter(c, s, k), RecoveryWrite, RecoveryAfter(c, s, k + 1))
  {
    hide RecoveryWrites, LogFormat.Crash, HeaderOK;
  }

  /** After the End step. */
  ghost function Ended(s: State, i: nat): State
    requires i < |s.ops|
  {
    var rest := Remove(s.ops, i);
    s.(ops := rest, phase := if rest == [] then Committing(s.disk, 0) else Running)
  }

  lemma EndNext(c: Config, s: State, i: nat)
    requires s.phase.Running? && i < |s.ops|
    ensures Next(c, s, End(i), Ended(s, i)) && |Ended(s, i).ops| == |s.ops| - 1
  {
  }

  lemma CommitEnds(c: Config, t: State, done: nat)
    requires t.phase.Committing? && Loggable(c.l, |t.latest|, t.lh) && |t.phase.base| == |t.latest|
    requires done == |CommitWrites(c.l, t.lh, t.latest)|
    ensures var u := CommitAfter(c, t, done); Next(c, u, CommitDone, u.(phase := Running, lh := [], latest := u.disk))
  {
    hide CommitWrites, LogFormat.Crash;
  }

  /** From index `n` on, the run is that of the commit that ends `t`, through its first `done` writes. */
  ghost predicate Commits(c: Config, run: seq<State>, t: State, n: nat, done: nat, ok: bool) {
    && t.phase.Committing? && Loggable(c.l, |t.latest|, t.lh) && |t.phase.base| == |t.latest|
    && done <= |CommitWrites(c.l, t.lh, t.latest)| && (ok ==> done == |CommitWrites(c.l, t.lh, t.latest)|)
    && |run| == n + 1 + done + (if ok then 1 else 0)
    && (forall j | n <= j <= n + done :: run[j] == CommitAfter(c, t, j - n))
    && (ok ==> run[n + done + 1] == run[n + done].(phase := Running, lh := [], latest := run[n + done].disk))
  }

  /** The steps of the last end_op. */
  lemma CommitSteps(c: Config, img: Image, run: seq<State>, steps: seq<Step>, i: nat, done: nat, ok: bool)
      returns (run': seq<State>, steps': seq<Step>)
    requires IsRun(c, img, run, steps)
    requires var s := run[|run| - 1];
             && s.phase.Running? && i < |s.ops| == 1 && Loggable(c.l, |s.latest|, s.lh) && |s.disk| == |s.latest|
             && done <= |CommitWrites(c.l, s.lh, s.latest)| && (ok ==> done == |CommitWrites(c.l, s.lh, s.latest)|)
    ensures IsRun(c, img, run', steps') && run <= run'
    ensures var s := run[|run| - 1];
            && Commits(c, run', Ended(s, i), |run|, done, ok)
            && run'[|run'| - 1].disk == LogFormat.Crash(s.disk, CommitWrites(c.l, s.lh, s.latest), done)
            && (ok ==> CommittedState(run'[|run'| - 1]))
  {
    hide IsRun, Next, CommitWrites, LogFormat.Crash, CommitAfter;
    RunLength(c, img, run, steps);
    var s, t := run[|run| - 1], Ended(run[|run| - 1], i);
    EndNext(c, s, i);
    var run1, steps1 := Onward(c, img, run, steps, End(i), t);
    run', steps' := CommitRun(c, img, run1, steps1, t, done);
    CommitAfterIs(c, t, done);
    if ok {
      var run2, u := run', CommitAfter(c, t, done);
      CommitEnds(c, t, done);
      run', steps' := Onward(c, img, run2, steps', CommitDone, u.(phase := Running, lh := [], latest := u.disk));
    }
  }

  lemma CommitAfterIs(c: Config, s: State, k: nat)
    requires s.phase.Committing? && Loggable(c.l, |s.latest|, s.lh) && |s.phase.base| == |s.latest|
    requires k <= |CommitWrites(c.l, s.lh, s.latest)|
    ensures var u := CommitAfter(c, s, k);
            u.ops == s.ops && u.disk == LogFormat.Crash(s.phase.base, CommitWrites(c.l, s.lh, s.latest), k)
  {
  }

  predicate CommittedState(s: State) {
    s.phase.Running? && s.lh == [] && s.ops == [] && s.latest == s.disk
  }

  /** After the LogWrite step. */
  ghost function Logging(s: State, i: nat, n: nat, data: Block): (t: State)
    requires i < |s.ops| && n < |s.latest|
    ensures t.groups == s.groups && |t.ops| == |s.ops| && t.latest == s.latest[n := data] && t.phase == s.phase
    ensures t.pending == s.pending + [OpWrite(s.ops[i].id, n, data)] && t.disk == s.disk
  {
    s.(latest := s.latest[n := data], lh := Append(s.lh, n),
       ops := if n in s.lh then s.ops else s.ops[i := s.ops[i].(used := s.ops[i].used + 1)],
       pending := s.pending + [OpWrite(s.ops[i].id, n, data)])
  }

  // ---- the disk and the run ----

  /** Some state of the run, from index `from` on, has this image on its disk. */
  ghost predicate OnDisk(run: seq<State>, from: nat, x: Image) {
    exists k | from <= k < |run| :: run[k].disk == x
  }

  /** So has every image that the disk passes through from `disk0` to `disk1`, while the writes `ws` are made. */
  ghost predicate Along(run: seq<State>, from: nat, disk0: Image, ws: seq<Write>, disk1: Image) {
    && InRange(|disk0|, ws) && disk1 == Apply(disk0, ws)
    && forall j | 0 <= j <= |ws| :: OnDisk(run, from, LogFormat.Crash(disk0, ws, j))
  }

  lemma AlongNothing(run: seq<State>, from: nat)
    requires from < |run|
    ensures Along(run, from, run[|run| - 1].disk, [], run[|run| - 1].disk)
  {
    assert LogFormat.Crash(run[|run| - 1].disk, [], 0) == run[|run| - 1].disk;
  }

  /** The first `done` writes of a longer list. */
  lemma AlongPrefix(run: seq<State>, from: nat, disk0: Image, ws: seq<Write>, done: nat)
    requires InRange(|disk0|, ws) && done <= |ws|
    requires forall j | 0 <= j <= done :: OnDisk(run, from, LogFormat.Crash(disk0, ws, j))
    ensures Along(run, from, disk0, ws[..done], LogFormat.Crash(disk0, ws, done))
  {
    hide OnDisk, Apply;
    forall j | 0 <= j <= done
      ensures OnDisk(run, from, LogFormat.Crash(disk0, ws[..done], j))
    {
      assert ws[..done][..j] == ws[..j];
      assert OnDisk(run, from, LogFormat.Crash(disk0, ws, j));
    }
  }

  lemma AlongLonger(run: seq<State>, run': seq<State>, from: nat, disk0: Image, ws: seq<Write>, disk1: Image)
    requires Along(run, from, disk0, ws, disk1) && run <= run'
    ensures Along(run', from, disk0, ws, disk1)
  {
    hide Apply, LogFormat.Crash;
    forall j | 0 <= j <= |ws|
      ensures OnDisk(run', from, LogFormat.Crash(disk0, ws, j))
    {
      assert OnDisk(run, from, LogFormat.Crash(disk0, ws, j));
    }
  }

  lemma AlongEarlier(run: seq<State>, to: nat, from: nat, disk0: Image, ws: seq<Write>, disk1: Image)
    requires Along(run, from, disk0, ws, disk1) && to <= from
    ensures Along(run, to, disk0, ws, disk1)
  {
    hide Apply, LogFormat.Crash;
    forall j | 0 <= j <= |ws|
      ensures OnDisk(run, to, LogFormat.Crash(disk0, ws, j))
    {
      assert OnDisk(run, from, LogFormat.Crash(disk0, ws, j));
    }
  }

  /** More writes, and the run went on. */
  lemma AlongThen(run: seq<State>, run': seq<State>, from: nat, to: nat, disk0: Image, ws: seq<Write>, disk1: Image,
                  more: seq<Write>, disk2: Image)
    requires Along(run, from, disk0, ws, disk1) && run <= run' && from <= to && Along(run', to, disk1, more, disk2)
    ensures Along(run', from, disk0, ws + more, disk2)
  {
    hide Apply;
    ApplyConcat(disk0, ws, more);
    forall j | 0 <= j <= |ws + more|
      ensures OnDisk(run', from, LogFormat.Crash(disk0, ws + more, j))
    {
      if j <= |ws| {
        assert (ws + more)[..j] == ws[..j];
        assert OnDisk(run, from, LogFormat.Crash(disk0, ws, j));
      } else {
        assert (ws + more)[..j] == ws + more[..j - |ws|];
        ApplyConcat(disk0, ws, more[..j - |ws|]);
        assert OnDisk(run', to, LogFormat.Crash(disk1, more, j - |ws|));
      }
    }
  }

  lemma AlongCommit(c: Config, run: seq<State>, t: State, n: nat, done: nat, ok: bool)
    requires Commits(c, run, t, n, done, ok)
    ensures InRange(|t.phase.base|, CommitWrites(c.l, t.lh, t.latest))
    ensures Along(run, n, t.phase.base, CommitWrites(c.l, t.lh, t.latest)[..done],
                  LogFormat.Crash(t.phase.base, CommitWrites(c.l, t.lh, t.latest), done))
  {
    hide CommitWrites, CommitAfter, LogFormat.Crash;
    forall j | 0 <= j <= done
      ensures OnDisk(run, n, LogFormat.Crash(t.phase.base, CommitWrites(c.l, t.lh, t.latest), j))
    {
      CommitAfterIs(c, t, j);
      assert run[n + j].disk == LogFormat.Crash(t.phase.base, CommitWrites(c.l, t.lh, t.latest), j);
    }
    AlongPrefix(run, n, t.phase.base, CommitWrites(c.l, t.lh, t.latest), done);
  }

  lemma AlongRecovery(c: Config, run: seq<State>, n: nat)
    requires n < |run| && HeaderOK(c.l, run[n].disk) && |run| == n + 1 + |RecoveryWrites(c.l, run[n].disk)|
    requires forall j | n <= j < |run| :: run[j] == RecoveryAfter(c, run[n], j - n)
    ensures Along(run, n, run[n].disk, RecoveryWrites(c.l, run[n].disk), Recovered(c.l, run[n].disk))
  {
    hide RecoveryWrites, LogFormat.Crash, HeaderOK;
    var ws := RecoveryWrites(c.l, run[n].disk);
    forall j | 0 <= j <= |ws|
      ensures OnDisk(run, n, LogFormat.Crash(run[n].disk, ws, j))
    {
      assert run[n + j] == RecoveryAfter(c, run[n], j);
    }
  }

  class Machine {
    const log: L.Log
    ghost const c: Config
    /** The image that mkfs made. */
    ghost const img: Image
    /** The run so far, and its steps. */
    ghost var run: seq<State>
    ghost var steps: seq<Step>

    constructor (log: L.Log, ghost c: Config, ghost img: Image, ghost run: seq<State>, ghost steps: seq<Step>)
      ensures this.log == log && this.c == c && this.img == img && this.run == run && this.steps == steps
    {
      this.log, this.c, this.img, this.run, this.steps := log, c, img, run, steps;
    }

    ghost function Now(): State
      requires run != []
      reads this
    {
      run[|run| - 1]
    }

    /** The last state of the run is that of disk, cache and log. */
    ghost predicate Agrees()
      reads this, log, log.bc, log.bc.disk
    {
      && IsRun(c, img, run, steps)
      && Now().phase.Running? && Now().disk == log.bc.disk.blocks && Now().latest == log.bc.latest
      && Now().lh == log.lh && |Now().ops| == log.outstanding && !log.committing
    }

    ghost predicate Inv()
      reads this, log, log.bc, log.bc.bufs, log.bc.ring, log.bc.disk
    {
      && c == Config(log.l, |log.bc.latest|, L.MAXOPBLOCKS, L.LOGSIZE)
      && log.Logged() && Agrees()
    }

    ghost predicate Stayed(run0: seq<State>, steps0: seq<Step>)
      reads this
    {
      run == run0 && steps == steps0
    }

    /** begin_op is the step Begin, if it is granted. */
    method BeginOp(ghost id: OpId) returns (granted: bool)
      requires Inv() && Fresh(Now(), id)
      modifies log`outstanding, this`run, this`steps
      ensures Inv() && granted == RoomFor(c, old(Now()))
      ensures granted ==>
        && steps == old(steps) + [Begin(id)]
        && run == old(run) + [old(Now()).(ops := old(Now()).ops + [Op(id, 0)])]
      ensures !granted ==> Stayed(old(run), old(steps))
    {
      hide L.Log.Logged, Fresh, IsRun;
      RunLength(c, img, run, steps);
      granted := log.BeginOp();
      if granted {
        ghost var t := Now().(ops := Now().ops + [Op(id, 0)]);
        RunExtend(c, img, run, steps, Begin(id), t);
        run, steps := run + [t], steps + [Begin(id)];
      }
    }

    /** log_write is the step LogWrite, and panics exactly where that step cannot be made. */
    method LogWrite(ghost i: nat, b: Buf) returns (ok: bool)
      requires Inv() && i < |Now().ops| && b in log.bc.bufs && b.locked && b.valid && Home(log.l, b.blockno)
      modifies log`lh, b`dirty, log.bc`latest, this`run, this`steps
      ensures ok == !Panics(c, old(Now()))
      ensures !ok ==> Stayed(old(run), old(steps))
      ensures ok ==> Inv() && log.bc.Held() == old(log.bc.Held())
      ensures ok ==> steps == old(steps) + [Step.LogWrite(i, b.blockno, b.data)]
      ensures ok ==> run == old(run) + [Logging(old(Now()), i, b.blockno, b.data)]
      ensures ok ==> log.bc.latest == old(log.bc.latest)[b.blockno := b.data]
    {
      hide L.Log.Logged, IsRun, Bcache.Held;
      RunLength(c, img, run, steps);
      InRange(b);
      ok := log.LogWrite(b);
      if ok {
        ghost var t, step := Logging(Now(), i, b.blockno, b.data), Step.LogWrite(i, b.blockno, b.data);
        RunExtend(c, img, run, steps, step, t);
        run, steps := run + [t], steps + [step];
      }
    }

    lemma InRange(b: Buf)
      requires log.Logged() && b in log.bc.bufs && b.valid
      ensures b.blockno < |log.bc.latest|
    {
      assert log.bc.BufOK(b);
    }

    /** bread and brelse are no steps: they change neither the disk, nor what the cache shows, nor which blocks
        are pinned. */
    twostate lemma NoStep()
      requires old(Inv()) && run == old(run) && steps == old(steps) && log.lh == old(log.lh)
      requires log.outstanding == old(log.outstanding) && log.committing == old(log.committing)
      requires log.bc.Valid() && log.bc.DirtyBlocks() == old(log.bc.DirtyBlocks())
      requires log.bc.latest == old(log.bc.latest) && log.bc.disk.blocks == old(log.bc.disk.blocks)
      ensures Inv()
    {
      log.StillLogged();
    }

    /** end_op of the i-th outstanding operation is the step End, and for the last one all steps of a commit.
        If the machine stops in the middle for want of buffers, the run stops there, too. All images that the
        disk passes through are in the run. */
    method EndOp(ghost i: nat) returns (ok: bool, ghost done: nat)
      requires Inv() && i < |Now().ops| && (log.outstanding == 1 ==> log.Undisturbed())
      modifies log, log.bc, log.bc.bufs, log.bc.head, log.bc.disk, this`run, this`steps
      ensures log.bc.bufs == old(log.bc.bufs)
      ensures IsRun(c, img, run, steps) && old(run) <= run && Now().disk == log.bc.disk.blocks
      ensures ok ==> Inv() && log.bc.Holders() == old(log.bc.Holders())
      ensures ok && old(log.outstanding) == 1 ==>
        log.Undisturbed() && HomeEq(log.l, log.bc.latest, old(log.bc.latest))
      ensures |log.bc.bufs| > |old(log.lh)| + |old(log.bc.Holders())| ==> ok
      ensures old(log.outstanding) > 1 ==> ok && run == old(run) + [Ended(old(Now()), i)]
      ensures old(log.outstanding) == 1 ==> Commits(c, run, Ended(old(Now()), i), |old(run)|, done, ok)
      ensures old(log.outstanding) > 1 ==> log.bc.disk.writes == old(log.bc.disk.writes)
      ensures old(log.outstanding) == 1 ==>
        && Loggable(log.l, |old(log.bc.latest)|, old(log.lh))
        && done <= |CommitWrites(log.l, old(log.lh), old(log.bc.latest))|
        && log.bc.disk.writes
           == old(log.bc.disk.writes) + CommitWrites(log.l, old(log.lh), old(log.bc.latest))[..done]
      ensures Along(run, |old(run)| - 1, old(log.bc.disk.blocks), log.bc.disk.writes[|old(log.bc.disk.writes)|..],
                    log.bc.disk.blocks)
    {
      hide L.Log.Logged, L.Log.Undisturbed, Bcache.Holders, IsRun, CommitWrites, HomeEq, L.Log.CommitMade, Commits,
          Along;
      RunLength(c, img, run, steps);
      LoggedFacts();
      ghost var s, run0 := Now(), run;
      ok, done := log.EndOp();
      if log.outstanding > 0 {
        EndNext(c, s, i);
        RunExtend(c, img, run, steps, End(i), Ended(s, i));
        run, steps := run + [Ended(s, i)], steps + [End(i)];
        assert log.bc.disk.writes[|old(log.bc.disk.writes)|..] == [];
        AlongNothing(run, |run0| - 1);
      } else {
        CommitMadeIs(s.lh, done, s.disk, s.latest, old(log.bc.disk.writes));
        run, steps := CommitSteps(c, img, run, steps, i, done, ok);
        AlongCommit(c, run, Ended(s, i), |run0|, done, ok);
        AlongEarlier(run, |run0| - 1, |run0|, s.disk, CommitWrites(log.l, s.lh, s.latest)[..done], log.bc.disk.blocks);
        if ok { Cleared(); }
      }
    }

    lemma InvFacts()
      requires Inv()
      ensures log.Logged() && log.bc.Valid() && |log.bc.latest| == |log.bc.disk.blocks|
      ensures Loggable(log.l, |log.bc.latest|, log.lh) && c == Config(log.l, |log.bc.latest|, L.MAXOPBLOCKS, L.LOGSIZE)
      ensures IsRun(c, img, run, steps) && run != []
      ensures Now().disk == log.bc.disk.blocks
      ensures Now().latest == log.bc.latest && Now().lh == log.lh && |Now().ops| == log.outstanding
      ensures Now().phase.Running?
    {
    }

    /** As many buffers are pinned as blocks are logged. */
    lemma PinnedCount()
      requires Inv()
      ensures |log.bc.DirtyBlocks()| == |log.lh|
    {
      hide Bcache.Valid, Bcache.DirtyBlocks;
      DistinctSize(log.lh);
      assert L.Set(log.lh) == set x | x in log.lh;
    }

    lemma LoggedFacts()
      requires log.Logged()
      ensures |log.bc.latest| == |log.bc.disk.blocks| && Loggable(log.l, |log.bc.latest|, log.lh)
    {
    }

    lemma CommitMadeIs(blocks: seq<nat>, k: nat, disk0: Image, latest0: Image, writes0: seq<Write>)
      requires |disk0| == |latest0| && Loggable(log.l, |disk0|, blocks)
      requires log.CommitMade(blocks, k, disk0, latest0, writes0)
      ensures k <= |CommitWrites(log.l, blocks, latest0)|
      ensures log.bc.disk.blocks == LogFormat.Crash(disk0, CommitWrites(log.l, blocks, latest0), k)
      ensures log.bc.disk.writes == writes0 + CommitWrites(log.l, blocks, latest0)[..k]
    {
    }

    /** A fresh cache agrees with the end of that run. */
    lemma Booted()
      requires log.Valid() && log.lh == [] && log.outstanding == 0 && !log.committing && IsRun(c, img, run, steps)
      requires c == Config(log.l, |log.bc.disk.blocks|, L.MAXOPBLOCKS, L.LOGSIZE) && run != []
      requires var x := log.bc.disk.blocks;
               Now().phase == Running && Now().disk == x && Now().latest == x && Now().lh == [] && Now().ops == []
      ensures Inv()
    {
      hide IsRun;
      Cleared();
    }

    lemma Cleared()
      requires log.Logged() && log.lh == []
      ensures log.bc.latest == log.bc.disk.blocks
    {
      log.bc.NothingPinned();
    }
  }

  /** The run of a crash and a boot. */
  lemma RebootRun(c: Config, img: Image, run0: seq<State>, steps0: seq<Step>)
    returns (run': seq<State>, steps': seq<Step>)
    requires IsRun(c, img, run0, steps0)
    ensures IsRun(c, img, run', steps') && run0 <= run' && run' != [] && run0 != []
    ensures HeaderOK(c.l, run0[|run0| - 1].disk)
    ensures |Recovered(c.l, run0[|run0| - 1].disk)| == |run0[|run0| - 1].disk|
    ensures Along(run', |run0|, run0[|run0| - 1].disk, RecoveryWrites(c.l, run0[|run0| - 1].disk),
                  Recovered(c.l, run0[|run0| - 1].disk))
    ensures var s, t := run0[|run0| - 1], run'[|run'| - 1];
            t == State(Recovered(c.l, s.disk), Recovered(c.l, s.disk), [], [], Running,
                       s.groups + [Group(s.pending, false)], [])
  {
    hide IsRun, RecoveryWrites, HeaderOK, Along, Init, LogFormat.Crash;
    RunLength(c, img, run0, steps0);
    GroupAtomicity(c, img, run0, steps0, |run0| - 1);
    var s := run0[|run0| - 1];
    var down := s.(latest := [], lh := [], ops := [], phase := Down,
                   groups := s.groups + [Group(s.pending, false)], pending := []);
    var up := down.(phase := Recovering(s.disk, 0));
    BootRun(c, img, run0, steps0, down, up);
    var n, run1 := |RecoveryWrites(c.l, s.disk)|, run0 + [down] + [up];
    var run, steps := RecoveryRun(c, img, run1, steps0 + [Step.Crash] + [Reboot], n);
    var last := run[|run| - 1];
    var t := last.(phase := Running, latest := last.disk);
    RecoveryRuns(c, up, n, t);
    RunExtend(c, img, run, steps, RecoveryDone, t);
    assert run[|run0| + 1] == run1[|run0| + 1];
    AlongRecovery(c, run, |run0| + 1);
    AlongEarlier(run, |run0|, |run0| + 1, s.disk, RecoveryWrites(c.l, s.disk), Recovered(c.l, s.disk));
    run', steps' := run + [t], steps + [RecoveryDone];
    AlongLonger(run, run', |run0|, s.disk, RecoveryWrites(c.l, s.disk), Recovered(c.l, s.disk));
  }

  /** A crash at any moment of any run, and a boot: an empty cache over the disk as it was left. */
  method Boot(disk: Disk, nbuf: nat, l: Layout, ghost c: Config, ghost img: Image, ghost run0: seq<State>,
              ghost steps0: seq<Step>) returns (m: Machine)
    requires IsRun(c, img, run0, steps0) && run0[|run0| - 1].disk == disk.blocks
    requires c == Config(l, |disk.blocks|, L.MAXOPBLOCKS, L.LOGSIZE) && nbuf > 1
    modifies disk
    ensures fresh(m) && fresh(m.log) && fresh(m.log.bc) && fresh(m.log.bc.bufs) && fresh(m.log.bc.head)
    ensures m.Inv() && m.c == c && m.img == img && m.log.bc.disk == disk && m.log.bc.Holders() == map[]
    ensures m.log.l == l && |m.log.bc.bufs| == nbuf
    ensures run0 <= m.run && m.Now().ops == [] && m.Now().pending == [] && m.Now().lh == []
    ensures m.Now().groups == run0[|run0| - 1].groups + [Group(run0[|run0| - 1].pending, false)]
    ensures HeaderOK(l, old(disk.blocks)) && disk.blocks == Recovered(l, old(disk.blocks)) == m.log.bc.latest
    ensures disk.writes == old(disk.writes) + RecoveryWrites(l, old(disk.blocks))
    ensures Along(m.run, |run0|, old(disk.blocks), RecoveryWrites(l, old(disk.blocks)), disk.blocks)
  {
    hide IsRun, RecoveryWrites, HeaderOK, Recovered, Along, Bcache.Holders, Bcache.Valid, Init, Next, L.Log.Logged;
    RunLength(c, img, run0, steps0);
    GroupAtomicity(c, img, run0, steps0, |run0| - 1);
    ghost var run, steps := RebootRun(c, img, run0, steps0);
    var log := L.Boot(disk, nbuf, l);
    m := new Machine(log, c, img, run, steps);
    m.Booted();
  }

  lemma BootRun(c: Config, img: Image, run0: seq<State>, steps0: seq<Step>, down: State, up: State)
    requires IsRun(c, img, run0, steps0)
    requires Next(c, run0[|run0| - 1], Step.Crash, down) && Next(c, down, Reboot, up)
    ensures IsRun(c, img, run0 + [down] + [up], steps0 + [Step.Crash] + [Reboot])
  {
    hide IsRun, Next;
    RunExtend(c, img, run0, steps0, Step.Crash, down);
    RunExtend(c, img, run0 + [down], steps0 + [Step.Crash], Reboot, up);
  }

  lemma RecoveryRuns(c: Config, up: State, n: nat, t: State)
    requires up.phase.Recovering? && HeaderOK(c.l, up.disk) && n == |RecoveryWrites(c.l, up.disk)|
    requires t == RecoveryAfter(c, up, n).(phase := Running, latest := RecoveryAfter(c, up, n).disk)
    ensures Next(c, RecoveryAfter(c, up, n), RecoveryDone, t) && t.disk == Recovered(c.l, up.disk)
  {
    var ws := RecoveryWrites(c.l, up.disk);
    assert ws[..n] == ws;
    hide RecoveryWrites, HeaderOK;
  }
}
