/** What the data behind a condition lock (sleeplock.c, log.c, pipe.c) mean, in terms of what processes did in a
    run: of where they were and went on to, not of the data themselves. */
module SleepRuns {
  import opened Words
  import opened SleepWakeup

  /** What a step can amount to, for the one who makes it. */
  datatype Event =
    | Got | Released          // acquiresleep and releasesleep
    | Granted | Ended         // begin_op and end_op
    | Committed               // the end of a commit
    | Logged                  // log_write of a block that was not logged yet
    | Wrote | Took            // one byte, by pipewrite and piperead
    | ClosedRead | ClosedWrite

  /** A process that holds the lock goes on from place `a` to place `b`. */
  predicate GoesOn(pc: Pc, next: Pc, a: Loc, b: Loc) {
    pc == Hold(a) && next == Hold(b)
  }

  /** The event is what process `p` does in this step. */
  predicate Happens(e: Event, s: State, p: Pid, step: Step, t: State) {
    step.Run? && p < |s.procs| && p < |t.procs| &&
    var pc, next := s.procs[p], t.procs[p];
    match e
    case Got => GoesOn(pc, next, AcquireTest, Finish)
    case Released => GoesOn(pc, next, ReleaseClear, ReleaseWake)
    case Granted => GoesOn(pc, next, BeginTest, Finish)
    case Ended => pc == Hold(EndOp)
    case Committed => GoesOn(pc, next, CommitDone, CommitWake)
    case Logged => GoesOn(pc, next, LogWrite(true), Finish)
    case Wrote =>
      pc.Hold? && pc.loc.WriteLoop? && pc.loc.left > 0 && GoesOn(pc, next, pc.loc, WriteLoop(pc.loc.left - 1))
    case Took =>
      pc.Hold? && pc.loc.ReadLoop? && pc.loc.left > 0 && GoesOn(pc, next, pc.loc, ReadLoop(pc.loc.left - 1))
    case ClosedRead => GoesOn(pc, next, CloseRead, CloseReadWake)
    case ClosedWrite => GoesOn(pc, next, CloseWrite, CloseWriteWake)
  }

  /** What a process called last, and how often what that call is for has happened since. */
  datatype Job = Job(call: Loc, done: nat)

  /** What a call is for. */
  function Purpose(call: Loc): Event {
    match call
    case AcquireTest => Got
    case ReleaseClear => Released
    case BeginTest => Granted
    case EndOp => Ended
    case CommitDone => Committed
    case LogWrite(_) => Logged
    case WriteLoop(_) => Wrote
    case ReadTest(_) => Took
    case CloseRead => ClosedRead
    case _ => ClosedWrite
  }

  /** A run. */
  datatype History = History(states: seq<State>, who: seq<Pid>, steps: seq<Step>) {
    ghost predicate OK() {
      IsRun(states, who, steps)
    }

    /** Step `k` is this event. */
    predicate Did(e: Event, k: nat)
      requires |states| == |steps| + 1 && |who| == |steps| && k < |steps|
    {
      Happens(e, states[k], who[k], steps[k], states[k + 1])
    }

    /** How often it happened in the first `k` steps. */
    function Times(e: Event, k: nat): nat
      requires |states| == |steps| + 1 && |who| == |steps| && k <= |steps|
    {
      if k == 0 then 0 else Times(e, k - 1) + if Did(e, k - 1) then 1 else 0
    }

    /** Who did `a`, and not `b` since. */
    function Between(a: Event, b: Event, k: nat): set<Pid>
      requires |states| == |steps| + 1 && |who| == |steps| && k <= |steps|
    {
      if k == 0 then {}
      else if Did(a, k - 1) then Between(a, b, k - 1) + {who[k - 1]}
      else if Did(b, k - 1) then Between(a, b, k - 1) - {who[k - 1]}
      else Between(a, b, k - 1)
    }

    /** How many blocks were logged since the log was last cleared. */
    function LoggedSince(k: nat): nat
      requires |states| == |steps| + 1 && |who| == |steps| && k <= |steps|
    {
      if k == 0 || steps[k - 1].ClearLog? then 0 else LoggedSince(k - 1) + if Did(Logged, k - 1) then 1 else 0
    }

    function JobOf(p: Pid, k: nat): Job
      requires |states| == |steps| + 1 && |who| == |steps| && k <= |steps|
    {
      if k == 0 then Job(Finish, 0) else
      var j := JobOf(p, k - 1);
      if who[k - 1] != p then j
      else if steps[k - 1].Start? then Job(steps[k - 1].loc, 0)
      else j.(done := j.done + if Did(Purpose(j.call), k - 1) then 1 else 0)
    }

    /** Granted operations that have not ended. */
    function Outstanding(k: nat): int
      requires |states| == |steps| + 1 && |who| == |steps| && k <= |steps|
    {
      Times(Granted, k) - Times(Ended, k)
    }

    /** The last operation to end was the last one outstanding, and no commit has ended since. */
    function Committing(k: nat): bool
      requires |states| == |steps| + 1 && |who| == |steps| && k <= |steps|
    {
      k > 0 && ((Did(Ended, k - 1) && Outstanding(k) == 0) || (Committing(k - 1) && !Did(Committed, k - 1)))
    }
  }

  /** The data of the lock say this. */
  ghost predicate Says(r: History, k: nat)
    requires r.OK() && k <= |r.steps|
  {
    match r.states[k].d
    case LockData(locked, pid, inside) =>
      && inside == r.Between(Got, Released, k)
      && (locked <==> inside != {}) && (locked ==> inside == {pid})
      && r.Times(Got, k) == r.Times(Released, k) + if locked then 1 else 0
    case LogData(outstanding, committing, lhn, maxop, logsize) =>
      && outstanding == r.Outstanding(k) && committing == r.Committing(k) && lhn == r.LoggedSince(k)
      && r.states[0].d.LogData? && maxop == r.states[0].d.maxop && logsize == r.states[0].d.logsize
    case PipeData(count, cap, readopen, writeopen) =>
      && count == r.Times(Wrote, k) - r.Times(Took, k) <= cap
      && r.states[0].d.PipeData? && cap == r.states[0].d.cap
      && (readopen <==> r.Times(ClosedRead, k) == 0) && (writeopen <==> r.Times(ClosedWrite, k) == 0)
  }

  lemma SaysFirst(r: History)
    requires r.OK()
    ensures Says(r, 0)
  {
  }

  /** What one step does to the data. */
  ghost predicate Moves(s: State, p: Pid, step: Step, t: State) {
    var did := (e: Event) => Happens(e, s, p, step, t);
    match s.d
    case LockData(locked, pid, inside) =>
      && t.d.LockData? && (did(Got) ==> !locked && t.d.pid == p) && (did(Released) ==> p in inside)
      && t.d.inside == (if did(Got) then inside + {p} else if did(Released) then inside - {p} else inside)
      && t.d.locked == (did(Got) || (locked && !did(Released))) && (did(Got) || did(Released) || t.d.pid == pid)
    case LogData(outstanding, committing, lhn, maxop, logsize) =>
      && t.d.LogData? && t.d.maxop == maxop && t.d.logsize == logsize
      && (did(Granted) ==> !committing && lhn + (outstanding + 1) * maxop <= logsize)
      && t.d.outstanding == outstanding + (if did(Granted) then 1 else 0) - (if did(Ended) then 1 else 0)
      && t.d.committing == ((did(Ended) && t.d.outstanding == 0) || (committing && !did(Committed)))
      && t.d.lhn == if step.ClearLog? then 0 else lhn + if did(Logged) then 1 else 0
    case PipeData(count, cap, readopen, writeopen) =>
      && t.d.PipeData? && t.d.cap == cap && (did(Wrote) ==> count != cap) && (did(Took) ==> count > 0)
      && t.d.count == count + (if did(Wrote) then 1 else 0) - (if did(Took) then 1 else 0)
      && t.d.readopen == (readopen && !did(ClosedRead)) && t.d.writeopen == (writeopen && !did(ClosedWrite))
  }

  lemma LockMoves(s: State, p: Pid, t: State)
    requires p < |s.procs| == |s.sleeping| && s.d.LockData? && Exclusive(s) && Steps(s, p, Run, t)
    ensures Moves(s, p, Run, t)
  {
    hide MayStart;
  }

  lemma LogMoves(s: State, p: Pid, t: State)
    requires p < |s.procs| == |s.sleeping| && s.d.LogData? && Steps(s, p, Run, t)
    ensures Moves(s, p, Run, t)
  {
    hide MayStart;
  }

  lemma PipeMoves(s: State, p: Pid, t: State)
    requires p < |s.procs| == |s.sleeping| && s.d.PipeData? && Steps(s, p, Run, t)
    ensures Moves(s, p, Run, t)
  {
    hide MayStart;
  }

  lemma OtherMoves(s: State, p: Pid, step: Step, t: State)
    requires p < |s.procs| == |s.sleeping| && Steps(s, p, step, t) && !step.Run?
    ensures Moves(s, p, step, t)
  {
    hide Next, MayStart;
  }

  lemma SaysNext(r: History, k: nat)
    requires r.OK() && k < |r.steps| && Says(r, k) && Moves(r.states[k], r.who[k], r.steps[k], r.states[k + 1])
    ensures Says(r, k + 1)
  {
    hide Init, Steps, Happens;
  }

  lemma RunAt(r: History, k: nat)
    requires r.OK() && k < |r.steps|
    ensures |r.states| == |r.steps| + 1 && |r.who| == |r.steps|
    ensures var s := r.states[k];
            r.who[k] < |s.procs| == |s.sleeping| && Steps(s, r.who[k], r.steps[k], r.states[k + 1])
  {
  }

  lemma {:induction false} DataSay(r: History, k: nat)
    requires r.OK() && k <= |r.steps|
    ensures Says(r, k)
  {
    hide Says, Exclusive, IsRun, Steps, Moves;
    if k == 0 {
      SaysFirst(r);
    } else {
      DataSay(r, k - 1);
      RunAt(r, k - 1);
      MutualExclusion(r.states, r.who, r.steps, k - 1);
      if r.steps[k - 1].Run? {
        match r.states[k - 1].d
        case LockData(_, _, _) => LockMoves(r.states[k - 1], r.who[k - 1], r.states[k]);
        case LogData(_, _, _, _, _) => LogMoves(r.states[k - 1], r.who[k - 1], r.states[k]);
        case PipeData(_, _, _, _) => PipeMoves(r.states[k - 1], r.who[k - 1], r.states[k]);
      } else {
        OtherMoves(r.states[k - 1], r.who[k - 1], r.steps[k - 1], r.states[k]);
      }
      SaysNext(r, k - 1);
    }
  }

  // ---- calls ----

  /** How far a call has come, at place `loc`; `holds` tells whether its process has kept the condition lock. */
  predicate AsFar(j: Job, loc: Loc, holds: bool, d: Data) {
    match j.call
    case AcquireTest => if loc == AcquireTest then j.done == 0 else loc == Finish && j.done == 1
    case ReleaseClear =>
      if loc == ReleaseClear then j.done == 0 else (loc == ReleaseWake || loc == Finish) && j.done == 1
    case BeginTest => if loc == BeginTest then j.done == 0 else loc == Finish && j.done == 1
    case EndOp => if loc == EndOp then j.done == 0 else (loc == EndWake || loc == Finish) && j.done == 1
    case CommitDone =>
      if loc == CommitDone then j.done == 0 else (loc == CommitWake || loc == Finish) && j.done == 1
    case LogWrite(grows) =>
      if loc == j.call then j.done == 0 else loc == Finish && j.done == if grows then 1 else 0
    case WriteLoop(n) =>
      if loc.WriteLoop? || loc.WriteSleep? then j.done + loc.left == n else loc == Finish && j.done == n
    case ReadTest(n) =>
      if loc.ReadTest? then loc == j.call && j.done == 0
      else
        && d.PipeData? && holds && (j.done == 0 ==> d.count > 0 || !d.writeopen)
        && if loc.ReadLoop? then j.done + loc.left == n else loc == Finish && j.done <= n && (j.done < n ==> d.count == 0)
    case CloseRead => if loc == CloseRead then j.done == 0 else (loc == CloseReadWake || loc == Finish) && j.done == 1
    case CloseWrite => if loc == CloseWrite then j.done == 0 else (loc == CloseWriteWake || loc == Finish) && j.done == 1
    case _ => false
  }

  predicate OnTheWay(j: Job, pc: Pc, d: Data) {
    LocOf(pc).Some? ==> AsFar(j, LocOf(pc).value, pc.Hold? || pc.WakeWant? || pc.WakeScan?, d)
  }

  /** The job of the process that makes a step, after it. */
  function After(j: Job, s: State, p: Pid, step: Step, t: State): Job {
    if step.Start? then Job(step.loc, 0)
    else j.(done := j.done + if Happens(Purpose(j.call), s, p, step, t) then 1 else 0)
  }

  lemma LockOnTheWay(s: State, p: Pid, t: State, j: Job)
    requires p < |s.procs| == |s.sleeping| && s.d.LockData? && Steps(s, p, Run, t) && OnTheWay(j, s.procs[p], s.d)
    ensures OnTheWay(After(j, s, p, Run, t), t.procs[p], t.d)
  {
    hide MayStart;
  }

  lemma LogOnTheWay(s: State, p: Pid, t: State, j: Job)
    requires p < |s.procs| == |s.sleeping| && s.d.LogData? && Steps(s, p, Run, t) && OnTheWay(j, s.procs[p], s.d)
    ensures OnTheWay(After(j, s, p, Run, t), t.procs[p], t.d)
  {
    hide MayStart;
  }

  lemma PipeOnTheWay(s: State, p: Pid, t: State, j: Job)
    requires p < |s.procs| == |s.sleeping| && s.d.PipeData? && Steps(s, p, Run, t) && OnTheWay(j, s.procs[p], s.d)
    ensures OnTheWay(After(j, s, p, Run, t), t.procs[p], t.d)
  {
    hide MayStart;
  }

  lemma OtherOnTheWay(s: State, p: Pid, step: Step, t: State, j: Job)
    requires p < |s.procs| == |s.sleeping| && Steps(s, p, step, t) && !step.Run? && OnTheWay(j, s.procs[p], s.d)
    ensures OnTheWay(After(j, s, p, step, t), t.procs[p], t.d)
  {
    hide Next;
  }

  lemma StepOnTheWay(s: State, p: Pid, step: Step, t: State, j: Job)
    requires p < |s.procs| == |s.sleeping| && Steps(s, p, step, t) && OnTheWay(j, s.procs[p], s.d)
    ensures OnTheWay(After(j, s, p, step, t), t.procs[p], t.d)
  {
    hide Steps, OnTheWay, After;
    if !step.Run? {
      OtherOnTheWay(s, p, step, t, j);
    } else {
      match s.d
      case LockData(_, _, _) => LockOnTheWay(s, p, t, j);
      case LogData(_, _, _, _, _) => LogOnTheWay(s, p, t, j);
      case PipeData(_, _, _, _) => PipeOnTheWay(s, p, t, j);
    }
  }

  /** Other processes' steps change neither a process's place nor the data it has seen under the lock. */
  lemma OthersOnTheWay(s: State, p: Pid, step: Step, t: State, q: Pid, j: Job)
    requires p < |s.procs| == |s.sleeping| && q < |s.procs| && q != p && Locks(s) && Steps(s, p, step, t)
    requires OnTheWay(j, s.procs[q], s.d)
    ensures OnTheWay(j, t.procs[q], t.d)
  {
    hide Next, MayStart;
    assert HoldsLk(s.procs[p]) <==> s.lk == Some(p);
    assert HoldsLk(s.procs[q]) <==> s.lk == Some(q);
  }

  lemma {:induction false} LocksHeld(r: History, k: nat)
    requires r.OK() && k <= |r.steps|
    ensures k < |r.states| && Locks(r.states[k])
  {
    hide Locks, Steps, Init, IsRun;
    FirstLocks(r);
    if k > 0 {
      LocksHeld(r, k - 1);
      RunAt(r, k - 1);
      LocksKept(r.states[k - 1], r.who[k - 1], r.steps[k - 1], r.states[k]);
    }
  }

  lemma FirstLocks(r: History)
    requires r.OK()
    ensures |r.states| == |r.steps| + 1 && |r.who| == |r.steps| && Locks(r.states[0])
    ensures forall q | 0 <= q < |r.states[0].procs| :: r.states[0].procs[q].Idle?
  {
  }

  lemma SameProcs(s: State, p: Pid, step: Step, t: State)
    requires p < |s.procs| == |s.sleeping| && Steps(s, p, step, t)
    ensures |t.procs| == |s.procs|
  {
    hide Next, MayStart;
  }

  /** In every run, every process's call has come as far as its place says. */
  lemma {:induction false} CallsGoOn(r: History, k: nat, q: Pid)
    requires r.OK() && k <= |r.steps|
    ensures k < |r.states| && (q < |r.states[k].procs| ==> OnTheWay(r.JobOf(q, k), r.states[k].procs[q], r.states[k].d))
  {
    hide IsRun, Steps, Locks, AsFar, Happens;
    FirstLocks(r);
    if k > 0 {
      var s, p, step, t := r.states[k - 1], r.who[k - 1], r.steps[k - 1], r.states[k];
      CallsGoOn(r, k - 1, q);
      LocksHeld(r, k - 1);
      RunAt(r, k - 1);
      SameProcs(s, p, step, t);
      if p == q {
        StepOnTheWay(s, p, step, t, r.JobOf(q, k - 1));
      } else if q < |t.procs| {
        OthersOnTheWay(s, p, step, t, q, r.JobOf(q, k - 1));
      }
    }
  }

  /** When a call may return: it has done what it is for, once, or for every byte; piperead with fewer bytes only
      if there are no more, and with none only from a pipe whose write end is closed; a killed reader only
      instead of sleeping, a writer with bytes left only on a full pipe, if killed or nobody reads on. */
  predicate MayReturn(j: Job, d: Data, killed: bool) {
    match j.call
    case LogWrite(grows) => j.done == if grows then 1 else 0
    case WriteLoop(n) => j.done == n || (j.done < n && d.PipeData? && d.count == d.cap && (killed || !d.readopen))
    case ReadTest(n) =>
      d.PipeData? &&
      if j.done == 0 < n then d.count == 0 && (killed || !d.writeopen)
      else j.done <= n && (j.done < n ==> d.count == 0)
    case _ => j.done == 1
  }

  lemma ReturnIsDone(s: State, p: Pid, t: State, j: Job)
    requires p < |s.procs| == |s.sleeping| && Steps(s, p, Run, t) && t.procs[p].Idle? && OnTheWay(j, s.procs[p], s.d)
    ensures MayReturn(j, s.d, p in s.killed) && t.d == s.d && t.lk.None?
  {
  }

  /** In every run, a call returns only when it has done what it is for. */
  lemma Returned(r: History, k: nat)
    requires r.OK() && k < |r.steps| && r.steps[k].Run?
    requires r.who[k] < |r.states[k + 1].procs| && r.states[k + 1].procs[r.who[k]].Idle?
    ensures MayReturn(r.JobOf(r.who[k], k), r.states[k].d, r.who[k] in r.states[k].killed)
  {
    hide IsRun, Steps, OnTheWay, MayReturn;
    RunAt(r, k);
    CallsGoOn(r, k, r.who[k]);
    ReturnIsDone(r.states[k], r.who[k], r.states[k + 1], r.JobOf(r.who[k], k));
  }

  // ---- begin_op and end_op ----

  /** Processes use the log as the system calls do: begin_op outside of an operation, end_op inside. */
  ghost predicate Paired(r: History)
    requires r.OK()
  {
    forall k | 0 <= k < |r.steps| && r.steps[k].Start? ::
      && (r.steps[k].loc.BeginTest? ==> r.who[k] !in r.Between(Granted, Ended, k))
      && (r.steps[k].loc.EndOp? ==> r.who[k] in r.Between(Granted, Ended, k))
  }

  /** `ops` are the processes in an operation. */
  ghost predicate Counted(s: State, ops: set<Pid>) {
    && s.d.LogData? && s.d.outstanding == |ops| && (s.d.committing ==> ops == {})
    && forall p: nat | p < |s.procs| ::
         && (LocOf(s.procs[p]) == Some(BeginTest) ==> p !in ops)
         && (LocOf(s.procs[p]) == Some(EndOp) ==> p in ops)
  }

  /** How a process comes to begin_op's test or end_op. */
  ghost predicate CameTo(s: State, p: Pid, step: Step, t: State, loc: Loc) {
    p < |s.procs| == |t.procs| && (LocOf(t.procs[p]) == Some(loc) ==>
      || step == Start(loc)
      || (LocOf(s.procs[p]) == Some(loc) && !Happens(Granted, s, p, step, t) && !Happens(Ended, s, p, step, t)))
  }

  /** And how an operation is granted or ends. */
  ghost predicate CameFrom(s: State, p: Pid, step: Step, t: State) {
    && p < |s.procs| == |t.procs| && (forall q: nat | q < |s.procs| && q != p :: t.procs[q] == s.procs[q])
    && (Happens(Granted, s, p, step, t) ==> LocOf(s.procs[p]) == Some(BeginTest) && LocOf(t.procs[p]) == Some(Finish))
    && (Happens(Ended, s, p, step, t) ==> LocOf(s.procs[p]) == Some(EndOp))
  }

  lemma ComesTo(s: State, p: Pid, step: Step, t: State)
    requires p < |s.procs| == |s.sleeping| && s.d.LogData? && Steps(s, p, step, t)
    ensures CameTo(s, p, step, t, BeginTest) && CameTo(s, p, step, t, EndOp)
  {
    hide MayStart;
  }

  lemma ComesFrom(s: State, p: Pid, step: Step, t: State)
    requires p < |s.procs| == |s.sleeping| && Steps(s, p, step, t)
    ensures CameFrom(s, p, step, t)
  {
    hide MayStart, Next;
  }

  lemma CountedKept(s: State, p: Pid, step: Step, t: State, ops: set<Pid>)
    requires Moves(s, p, step, t) && Counted(s, ops) && CameFrom(s, p, step, t)
    requires CameTo(s, p, step, t, BeginTest) && CameTo(s, p, step, t, EndOp)
    requires step.Start? ==> (step.loc.BeginTest? ==> p !in ops) && (step.loc.EndOp? ==> p in ops)
    ensures Counted(t, if Happens(Granted, s, p, step, t) then ops + {p}
                       else if Happens(Ended, s, p, step, t) then ops - {p} else ops)
  {
    hide Happens;
    if Happens(Ended, s, p, step, t) { assert ops == ops - {p} + {p}; }
    assert step.Start? ==> !Happens(Granted, s, p, step, t) && !Happens(Ended, s, p, step, t) by { StartIsNone(s, p, step, t); }
    assert |ops| == 0 ==> ops == {};
  }

  lemma StartIsNone(s: State, p: Pid, step: Step, t: State)
    ensures step.Start? ==> !Happens(Granted, s, p, step, t) && !Happens(Ended, s, p, step, t)
  {
  }

  lemma {:induction false} OpsCounted(r: History, k: nat)
    requires r.OK() && k <= |r.steps| && r.states[0].d.LogData? && Paired(r)
    ensures k < |r.states| && Counted(r.states[k], r.Between(Granted, Ended, k))
  {
    hide IsRun, Steps, Counted, Happens, Moves, CameTo, CameFrom;
    FirstCounted(r);
    if k > 0 {
      OpsCounted(r, k - 1);
      RunAt(r, k - 1);
      var s, p, step, t := r.states[k - 1], r.who[k - 1], r.steps[k - 1], r.states[k];
      assert s.d.LogData? by { CountedLog(s, r.Between(Granted, Ended, k - 1)); }
      if step.Run? { LogMoves(s, p, t); } else { OtherMoves(s, p, step, t); }
      ComesTo(s, p, step, t);
      ComesFrom(s, p, step, t);
      CountedKept(s, p, step, t, r.Between(Granted, Ended, k - 1));
    }
  }

  lemma CountedLog(s: State, ops: set<Pid>)
    requires Counted(s, ops)
    ensures s.d.LogData?
  {
  }

  lemma FirstCounted(r: History)
    requires r.OK() && r.states[0].d.LogData?
    ensures |r.states| == |r.steps| + 1 && Counted(r.states[0], {})
  {
  }

  /** So the counter is the number of processes in an operation, no operation runs while a commit does, and
      end_op does not meet its panic: whoever is about to decrement the counter finds it positive, and no commit. */
  lemma EndOpSound(r: History, k: nat, p: Pid)
    requires r.OK() && k <= |r.steps| && r.states[0].d.LogData? && Paired(r)
    ensures k < |r.states| && r.states[k].d.LogData?
    ensures r.states[k].d.outstanding == |r.Between(Granted, Ended, k)|
    ensures r.Committing(k) ==> r.Between(Granted, Ended, k) == {}
    ensures p < |r.states[k].procs| && LocOf(r.states[k].procs[p]) == Some(EndOp) ==>
        r.states[k].d.outstanding > 0 && !r.states[k].d.committing
  {
    hide IsRun, History.Committing;
    OpsCounted(r, k);
    DataSay(r, k);
  }
}
