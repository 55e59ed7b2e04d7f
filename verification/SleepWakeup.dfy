/** sleep and wakeup (proc.c) with their users: sleep-locks, begin_op/end_op and pipes. Any number of
    processes, on any number of CPUs, take one small step at a time. Each run is about one
    condition lock `lk` and ptable.lock. */
module SleepWakeup {
  import opened Words

  type Pid = nat

  /** What processes sleep on. */
  datatype Chan = LockChan | LogChan | NRead | NWrite

  /** The data that the condition lock protects. `inside` are the processes that hold the sleep-lock. */
  datatype Data =
    | LockData(locked: bool, pid: Pid, inside: set<Pid>)
    | LogData(outstanding: int, committing: bool, lhn: nat, maxop: nat, logsize: nat)
    | PipeData(count: nat, cap: nat, readopen: bool, writeopen: bool)

  /** Where a process is in its operation. */
  datatype Loc =
    | AcquireTest | ReleaseClear | ReleaseWake
    | BeginTest | EndOp | EndWake | CommitDone | CommitWake | LogWrite(grows: bool)
    | WriteLoop(left: nat) | WriteSleep(left: nat)
    | ReadTest(n: nat) | ReadLoop(left: nat)
    | CloseRead | CloseReadWake | CloseWrite | CloseWriteWake
    | Finish

  /** The next thing that a process does while it holds the condition lock. */
  datatype Act =
    | Compute(loc: Loc, d: Data)
    | Wake(chan: Chan, loc: Loc)
    | Sleep(chan: Chan, loc: Loc)
    | Return

  predicate Fits(d: Data, loc: Loc) {
    loc.Finish? ||
    match d
    case LockData(_, _, _) => loc.AcquireTest? || loc.ReleaseClear? || loc.ReleaseWake?
    case LogData(_, _, _, _, _) =>
      loc.BeginTest? || loc.EndOp? || loc.EndWake? || loc.CommitDone? || loc.CommitWake? || loc.LogWrite?
    case PipeData(_, _, _, _) =>
      || loc.WriteLoop? || loc.WriteSleep? || loc.ReadTest? || loc.ReadLoop?
      || loc.CloseRead? || loc.CloseReadWake? || loc.CloseWrite? || loc.CloseWriteWake?
  }

  /** The code of the operations. */
  function Next(p: Pid, loc: Loc, d: Data, killed: bool): Act
    requires Fits(d, loc)
  {
    match loc
    // acquiresleep
    case AcquireTest =>
      if d.locked then Sleep(LockChan, AcquireTest)
      else Compute(Finish, d.(locked := true, pid := p, inside := d.inside + {p}))
    // releasesleep
    case ReleaseClear => Compute(ReleaseWake, d.(locked := false, pid := 0, inside := d.inside - {p}))
    case ReleaseWake => Wake(LockChan, Finish)
    // begin_op
    case BeginTest =>
      if d.committing then Sleep(LogChan, BeginTest)
      else if d.lhn + (d.outstanding + 1) * d.maxop > d.logsize then Sleep(LogChan, BeginTest)
      else Compute(Finish, d.(outstanding := d.outstanding + 1))
    // end_op, its first part and its part after the commit
    case EndOp =>
      if d.outstanding - 1 == 0 then Compute(Finish, d.(outstanding := 0, committing := true))
      else Compute(EndWake, d.(outstanding := d.outstanding - 1))
    case EndWake => Wake(LogChan, Finish)
    case CommitDone => Compute(CommitWake, d.(committing := false))
    case CommitWake => Wake(LogChan, Finish)
    // log_write
    case LogWrite(grows) => Compute(Finish, if grows then d.(lhn := d.lhn + 1) else d)
    // pipewrite
    case WriteLoop(left) =>
      if left == 0 then Wake(NRead, Finish)
      else if d.count == d.cap then
        if !d.readopen || killed then Return else Wake(NRead, WriteSleep(left))
      else Compute(WriteLoop(left - 1), d.(count := d.count + 1))
    case WriteSleep(left) => Sleep(NWrite, WriteLoop(left))
    // piperead
    case ReadTest(n) =>
      if d.count == 0 && d.writeopen then
        if killed then Return else Sleep(NRead, ReadTest(n))
      else Compute(ReadLoop(n), d)
    case ReadLoop(left) =>
      if left == 0 || d.count == 0 then Wake(NWrite, Finish)
      else Compute(ReadLoop(left - 1), d.(count := d.count - 1))
    // pipeclose
    case CloseRead => Compute(CloseReadWake, d.(readopen := false))
    case CloseReadWake => Wake(NWrite, Finish)
    case CloseWrite => Compute(CloseWriteWake, d.(writeopen := false))
    case CloseWriteWake => Wake(NRead, Finish)
    case Finish => Return
  }

  // ---- the machine ----

  /** Which locks a process holds or waits for, and where its operation goes on. */
  datatype Pc =
    | Idle                            // in none of the operations
    | Busy                            // holds ptable.lock for something else
    | WantLk(loc: Loc)                // acquire(lk)
    | Hold(loc: Loc)                  // holds lk
    | WakeWant(chan: Chan, loc: Loc)  // wakeup: holds lk, acquire(&ptable.lock)
    | WakeScan(chan: Chan, i: nat, loc: Loc)  // wakeup1: holds both, is about to look at slot `i`
    | SleepWant(chan: Chan, loc: Loc) // sleep: holds lk, acquire(&ptable.lock)
    | SleepBoth(chan: Chan, loc: Loc) // holds both
    | SleepOne(chan: Chan, loc: Loc)  // released lk
    | Sched(chan: Chan, loc: Loc)     // SLEEPING; the scheduler is about to release ptable.lock
    | Off(chan: Chan, loc: Loc)       // switched out
    | Resumed(chan: Chan, loc: Loc)   // picked by a scheduler: holds ptable.lock

  /** `sleeping[p]`: the state of p's slot is SLEEPING, and its channel is that of its pc. */
  datatype State = State(procs: seq<Pc>, sleeping: seq<bool>, lk: Option<Pid>, pt: Option<Pid>, d: Data,
      killed: set<Pid>)

  datatype Step =
    | Start(loc: Loc)        // calls an operation
    | Acquire                // acquire(lk)
    | Run                    // the next action of the operation
    | AcquirePt | ReleasePt
    | Scan                   // one turn of wakeup1's loop
    | ReleaseLk | FallAsleep // inside sleep
    | Pick                   // a scheduler picks the process
    | Kill                   // this process is killed
    | ClearLog               // commit sets the length of the header to 0, without the lock

  function LocOf(pc: Pc): Option<Loc> {
    if pc.Idle? || pc.Busy? then None else Some(pc.loc)
  }

  predicate Reading(pc: Pc) {
    LocOf(pc).Some? && (LocOf(pc).value.ReadTest? || LocOf(pc).value.ReadLoop?)
  }

  predicate ClosingRead(pc: Pc) {
    LocOf(pc).Some? && LocOf(pc).value.CloseRead?
  }

  /** Who may call what: a sleep-lock is released by its holder; a pipe end is closed when nobody uses it
      any more, and not used afterwards (file reference counts). */
  ghost predicate MayStart(s: State, p: Pid, loc: Loc) {
    && Fits(s.d, loc) && !loc.Finish?
    && (loc.AcquireTest? || loc.ReleaseClear? || loc.BeginTest? || loc.EndOp? || loc.CommitDone? || loc.LogWrite?
        || loc.WriteLoop? || loc.ReadTest? || loc.CloseRead? || loc.CloseWrite?)
    && (loc.ReleaseClear? ==> p in s.d.inside)
    && (loc.ReadTest? ==> s.d.readopen && forall q | 0 <= q < |s.procs| :: !ClosingRead(s.procs[q]))
    && (loc.CloseRead? ==> s.d.readopen && forall q | 0 <= q < |s.procs| :: !Reading(s.procs[q]))
  }

  ghost predicate Steps(s: State, p: Pid, step: Step, t: State)
    requires p < |s.procs| == |s.sleeping|
  {
    var pc := s.procs[p];
    var at := (q: Pc) => s.procs[p := q];
    match step
    case Start(loc) => pc.Idle? && MayStart(s, p, loc) && t == s.(procs := at(WantLk(loc)))
    case Acquire => pc.WantLk? && s.lk.None? && t == s.(procs := at(Hold(pc.loc)), lk := Some(p))
    case Run =>
      pc.Hold? && Fits(s.d, pc.loc) &&
      (match Next(p, pc.loc, s.d, p in s.killed)
       case Compute(loc, d) => t == s.(procs := at(Hold(loc)), d := d)
       case Wake(c, loc) => t == s.(procs := at(WakeWant(c, loc)))
       case Sleep(c, loc) => t == s.(procs := at(SleepWant(c, loc)))
       case Return => t == s.(procs := at(Idle), lk := None))
    case AcquirePt =>
      s.pt.None? &&
      (match pc
       case Idle => t == s.(procs := at(Busy), pt := Some(p))
       case WakeWant(c, loc) => t == s.(procs := at(WakeScan(c, 0, loc)), pt := Some(p))
       case SleepWant(c, loc) => t == s.(procs := at(SleepBoth(c, loc)), pt := Some(p))
       case _ => false)
    case ReleasePt =>
      (match pc
       case Busy => t == s.(procs := at(Idle), pt := None)
       case Sched(c, loc) => t == s.(procs := at(Off(c, loc)), pt := None)
       case Resumed(c, loc) => t == s.(procs := at(WantLk(loc)), pt := None)
       case _ => false)
    case Scan =>
      pc.WakeScan? &&
      if pc.i >= |s.procs| then t == s.(procs := at(Hold(pc.loc)), pt := None)
      else
        t == s.(procs := at(WakeScan(pc.chan, pc.i + 1, pc.loc)),
                sleeping := if s.sleeping[pc.i] && SleepsOn(s.procs[pc.i],
                    pc.chan) then s.sleeping[pc.i := false] else s.sleeping)
    case ReleaseLk => pc.SleepBoth? && t == s.(procs := at(SleepOne(pc.chan, pc.loc)), lk := None)
    case FallAsleep => pc.SleepOne? && t == s.(procs := at(Sched(pc.chan, pc.loc)), sleeping := s.sleeping[p := true])
    case Pick =>
      pc.Off? && !s.sleeping[p] && s.pt.None? && t == s.(procs := at(Resumed(pc.chan, pc.loc)), pt := Some(p))
    case Kill => s.pt.None? && t == s.(killed := s.killed + {p}, sleeping := s.sleeping[p := false])
    case ClearLog => pc.Idle? && s.d.LogData? && s.d.committing && t == s.(d := s.d.(lhn := 0))
  }

  predicate SleepsOn(pc: Pc, c: Chan) {
    (pc.Sched? || pc.Off?) && pc.chan == c
  }

  ghost predicate Init(s: State) {
    && |s.procs| == |s.sleeping| && s.lk.None? && s.pt.None? && s.killed == {}
    && (forall p | 0 <= p < |s.procs| :: s.procs[p].Idle? && !s.sleeping[p])
    && (match s.d
        case LockData(locked, _, inside) => !locked && inside == {}
        case LogData(outstanding, committing, lhn, _, _) => outstanding == 0 && !committing && lhn == 0
        case PipeData(count, cap, readopen, writeopen) => count == 0 < cap && readopen && writeopen)
  }

  /** A run of steps. */
  ghost predicate IsRun(states: seq<State>, who: seq<Pid>, steps: seq<Step>) {
    && |states| == |steps| + 1 && |who| == |steps| && Init(states[0])
    && forall k | 0 <= k < |steps| ::
         who[k] < |states[k].procs| == |states[k].sleeping| && Steps(states[k], who[k], steps[k], states[k + 1])
  }

  // ---- the invariant ----

  /** Why a process waits on a channel. */
  predicate Blocked(c: Chan, d: Data) {
    match c
    case LockChan => d.LockData? && d.locked
    case LogChan => d.LogData? && (d.committing || d.lhn + (d.outstanding + 1) * d.maxop > d.logsize)
    case NRead => d.PipeData? && d.count == 0 && d.writeopen
    case NWrite => d.PipeData? && d.count == d.cap && d.readopen
  }

  /** From here, the code wakes the channel before it releases the lock. */
  predicate WillWake(loc: Loc, c: Chan) {
    match loc
    case ReleaseWake => c.LockChan?
    case EndWake => c.LogChan?
    case CommitWake => c.LogChan?
    case WriteLoop(_) => c.NRead?
    case ReadLoop(_) => c.NWrite?
    case CloseReadWake => c.NWrite?
    case CloseWriteWake => c.NRead?
    case _ => false
  }

  /** The holder of the lock will still wake process `q` if it sleeps on `c`. */
  predicate Owes(pc: Pc, c: Chan, q: Pid) {
    match pc
    case Hold(loc) => WillWake(loc, c)
    case WakeWant(chan, loc) => chan == c || WillWake(loc, c)
    case WakeScan(chan, i, loc) => (chan == c && i <= q) || WillWake(loc, c)
    case _ => false
  }

  predicate HoldsLk(pc: Pc) {
    pc.Hold? || pc.WakeWant? || pc.WakeScan? || pc.SleepWant? || pc.SleepBoth?
  }

  predicate HoldsPt(pc: Pc) {
    pc.Busy? || pc.WakeScan? || pc.SleepBoth? || pc.SleepOne? || pc.Sched? || pc.Resumed?
  }

  ghost predicate Locks(s: State) {
    && |s.procs| == |s.sleeping|
    && (forall p: nat | p < |s.procs| :: HoldsLk(s.procs[p]) <==> s.lk == Some(p))
    && (forall p: nat | p < |s.procs| :: HoldsPt(s.procs[p]) <==> s.pt == Some(p))
    && (s.lk.Some? ==> s.lk.value < |s.procs|) && (s.pt.Some? ==> s.pt.value < |s.procs|)
    && (forall p | 0 <= p < |s.procs| && s.sleeping[p] :: s.procs[p].Sched? || s.procs[p].Off?)
  }

  ghost predicate Places(s: State) {
    && (forall p | 0 <= p < |s.procs| && LocOf(s.procs[p]).Some? :: Fits(s.d, LocOf(s.procs[p]).value))
    && (forall p | 0 <= p < |s.procs| && OnReadEnd(s.procs[p]) :: Reading(s.procs[p]))
    && (s.d.PipeData? ==> s.d.cap > 0)
  }

  /** While the read end is in use, it is open. */
  ghost predicate Readers(s: State) {
    && (forall p | 0 <= p < |s.procs| && Reading(s.procs[p]) :: s.d.PipeData? && s.d.readopen)
    && (forall p, q | 0 <= p < |s.procs| && 0 <= q < |s.procs| && Reading(s.procs[p]) :: !ClosingRead(s.procs[q]))
  }

  /** A writer about to sleep still holds the lock under which it found the pipe full. */
  ghost predicate Writers(s: State) {
    forall p: nat | p < |s.procs| && LocOf(s.procs[p]).Some? && LocOf(s.procs[p]).value.WriteSleep? ::
      (s.procs[p].Hold? || s.procs[p].WakeWant? || s.procs[p].WakeScan?) && Blocked(NWrite, s.d)
  }

  predicate OnReadEnd(pc: Pc) {
    (pc.SleepWant? || pc.SleepBoth? || pc.SleepOne? || pc.Sched? || pc.Off? || pc.Resumed?) && pc.chan.NRead?
  }

  /** Asleep, or past the point where sleep released the lock. */
  predicate Waits(s: State, q: Pid)
    requires q < |s.procs| == |s.sleeping|
  {
    s.procs[q].SleepOne? || (s.sleeping[q] && (s.procs[q].Sched? || s.procs[q].Off?))
  }

  predicate Safe(s: State, q: Pid)
    requires q < |s.procs|
  {
    var pc := s.procs[q];
    (pc.SleepOne? || pc.Sched? || pc.Off?) ==>
      Blocked(pc.chan, s.d) || (s.lk.Some? && s.lk.value < |s.procs| && Owes(s.procs[s.lk.value], pc.chan, q))
  }

  ghost predicate NoneForgotten(s: State)
    requires |s.procs| == |s.sleeping|
  {
    && (forall p | 0 <= p < |s.procs| :: s.procs[p].SleepWant? || s.procs[p].SleepBoth? ==>
       Blocked(s.procs[p].chan, s.d))
    && (forall q: nat | q < |s.procs| && Waits(s, q) :: Safe(s, q))
  }

  ghost predicate Inv(s: State) {
    Locks(s) && Places(s) && Readers(s) && Writers(s) && NoneForgotten(s)
  }

  lemma InitHolds(s: State)
    requires Init(s)
    ensures Inv(s)
  {
  }

  /** The way out of pipewrite without a wakeup, while somebody sleeps in piperead: a killed writer with
      bytes left finds the pipe full. */
  ghost predicate GivesUp(s: State, p: Pid, step: Step)
    requires p < |s.procs| == |s.sleeping|
  {
    && step.Run? && p in s.killed && s.procs[p].Hold? && s.procs[p].loc.WriteLoop? && s.procs[p].loc.left > 0
    && s.d.PipeData? && s.d.count == s.d.cap && s.d.readopen
    && exists q: nat | q < |s.procs| :: Waits(s, q) && s.procs[q].chan.NRead?
  }

  /** The condition lock is free, and somebody sleeps on although what he waits for has come. */
  ghost predicate Forgotten(s: State) {
    && |s.procs| == |s.sleeping| && s.lk.None?
    && exists q: nat | q < |s.procs| :: Waits(s, q) && !Blocked(s.procs[q].chan, s.d)
  }

  /** Steps that take or release ptable.lock only. */
  predicate PtOnly(step: Step) {
    step.AcquirePt? || step.ReleasePt? || step.Pick? || step.Scan?
  }

  /** A lock with holder `a` before and `b` after a step of `p`, which held it before or holds it after. */
  predicate Passes(a: Option<Pid>, b: Option<Pid>, p: Pid, before: bool, after: bool) {
    || (b == a && after == before)
    || (a.None? && b == Some(p) && after)
    || (b.None? && before && !after)
  }

  /** A step of `p` moves only that process, and locks only to or from it. */
  predicate LockStep(s: State, p: Pid, t: State)
    requires p < |s.procs| == |s.sleeping|
  {
    && |t.procs| == |s.procs| && |t.sleeping| == |s.sleeping|
    && (forall q: nat | q < |s.procs| && q != p :: t.procs[q] == s.procs[q] && (t.sleeping[q] ==> s.sleeping[q]))
    && (t.sleeping[p] ==> t.procs[p].Sched? || t.procs[p].Off?)
    && Passes(s.lk, t.lk, p, HoldsLk(s.procs[p]), HoldsLk(t.procs[p]))
    && Passes(s.pt, t.pt, p, HoldsPt(s.procs[p]), HoldsPt(t.procs[p]))
  }

  lemma LocksPt(s: State, p: Pid, step: Step, t: State)
    requires p < |s.procs| == |s.sleeping| && Steps(s, p, step, t) && PtOnly(step)
    requires s.sleeping[p] ==> s.procs[p].Sched? || s.procs[p].Off?
    ensures LockStep(s, p, t)
  {
    hide MayStart, Next, Fits;
  }

  lemma LocksOther(s: State, p: Pid, step: Step, t: State)
    requires p < |s.procs| == |s.sleeping| && Steps(s, p, step, t) && !PtOnly(step)
    requires s.sleeping[p] ==> s.procs[p].Sched? || s.procs[p].Off?
    ensures LockStep(s, p, t)
  {
    hide MayStart, Next, Fits;
  }

  lemma LocksKept(s: State, p: Pid, step: Step, t: State)
    requires p < |s.procs| == |s.sleeping| && Locks(s) && Steps(s, p, step, t)
    ensures Locks(t)
  {
    hide Steps, HoldsLk, HoldsPt;
    if PtOnly(step) { LocksPt(s, p, step, t); } else { LocksOther(s, p, step, t); }
  }

  /** What an operation does to its place and its data. */
  lemma PlacesRun(s: State, p: Pid, t: State)
    requires p < |s.procs| == |s.sleeping| && Places(s) && Steps(s, p, Run, t)
    ensures Places(t)
  {
  }

  lemma PlacesOther(s: State, p: Pid, step: Step, t: State)
    requires p < |s.procs| == |s.sleeping| && Places(s) && Steps(s, p, step, t) && !step.Run?
    ensures Places(t)
  {
    hide MayStart, Next;
    if step.Start? { assert Fits(s.d, step.loc) by { MayStartFits(s, p, step.loc); } }
  }

  lemma MayStartFits(s: State, p: Pid, loc: Loc)
    requires MayStart(s, p, loc)
    ensures Fits(s.d, loc)
  {
  }

  lemma ReadersRun(s: State, p: Pid, t: State)
    requires p < |s.procs| == |s.sleeping| && Places(s) && Readers(s) && Steps(s, p, Run, t)
    ensures Readers(t)
  {
    assert Fits(s.d, LocOf(s.procs[p]).value);
  }

  lemma ReadersOther(s: State, p: Pid, step: Step, t: State)
    requires p < |s.procs| == |s.sleeping| && Readers(s) && Steps(s, p, step, t) && !step.Run?
    ensures Readers(t)
  {
    hide Next;
  }

  lemma WritersKept(s: State, p: Pid, step: Step, t: State)
    requires p < |s.procs| == |s.sleeping| && Locks(s) && Places(s) && Writers(s) && Steps(s, p, step, t)
    ensures Writers(t)
  {
    forall q: nat | q < |t.procs| && LocOf(t.procs[q]).Some? && LocOf(t.procs[q]).value.WriteSleep?
      ensures (t.procs[q].Hold? || t.procs[q].WakeWant? || t.procs[q].WakeScan?) && Blocked(NWrite, t.d)
    {
      assert LocOf(s.procs[q]).Some? ==> Fits(s.d, LocOf(s.procs[q]).value);
      assert (HoldsLk(s.procs[p]) <==> s.lk == Some(p)) && (HoldsLk(s.procs[q]) <==> s.lk == Some(q));
    }
  }

  /** Nobody is forgotten in a step that is no action of an operation. */
  lemma SafeOther(s: State, p: Pid, step: Step, t: State, q: Pid)
    requires p < |s.procs| == |s.sleeping| && Inv(s) && Steps(s, p, step, t) && !step.Run?
    requires q < |t.procs| == |t.sleeping| && Waits(t, q)
    ensures Safe(t, q)
  {
    hide MayStart, Next, Places, Readers, Writers;
    assert Waits(s, q) ==> Safe(s, q);
    assert HoldsLk(s.procs[p]) <==> s.lk == Some(p);
    assert HoldsPt(s.procs[p]) <==> s.pt == Some(p);
    assert HoldsPt(s.procs[q]) <==> s.pt == Some(q);
  }

  lemma ForgottenKept(s: State, p: Pid, step: Step, t: State)
    requires p < |s.procs| == |s.sleeping| && Inv(s) && Steps(s, p, step, t) && !step.Run?
    ensures NoneForgotten(t)
  {
    hide MayStart, Next, Safe, Waits, HoldsLk, HoldsPt, Places, Readers, Writers;
    forall q: nat | q < |t.procs| && Waits(t, q)
      ensures Safe(t, q)
    {
      SafeOther(s, p, step, t, q);
    }
  }

  /** Nor in an action, but for the one way out of pipewrite. */
  lemma SafeRun(s: State, p: Pid, t: State, q: Pid)
    requires p < |s.procs| == |s.sleeping| && Inv(s) && !GivesUp(s, p, Run) && Steps(s, p, Run, t)
    requires q < |t.procs| == |t.sleeping| && Waits(t, q)
    ensures Safe(t, q)
  {
    hide MayStart;
    assert Waits(s, q) ==> Safe(s, q);
    assert HoldsLk(s.procs[p]) <==> s.lk == Some(p);
    assert HoldsPt(s.procs[p]) <==> s.pt == Some(p);
    assert HoldsPt(s.procs[q]) <==> s.pt == Some(q);
  }

  lemma SleepersRun(s: State, p: Pid, t: State, q: Pid)
    requires p < |s.procs| == |s.sleeping| && Inv(s) && Steps(s, p, Run, t)
    requires q < |t.procs| && (t.procs[q].SleepWant? || t.procs[q].SleepBoth?)
    ensures Blocked(t.procs[q].chan, t.d)
  {
    assert HoldsLk(s.procs[p]) && (HoldsLk(s.procs[q]) <==> s.lk == Some(q));
  }

  lemma RunKept(s: State, p: Pid, t: State)
    requires p < |s.procs| == |s.sleeping| && Inv(s) && !GivesUp(s, p, Run) && Steps(s, p, Run, t)
    ensures NoneForgotten(t)
  {
    RunSizes(s, p, t);
    hide Steps, Inv, GivesUp, Safe, Waits, Blocked;
    forall q: nat | q < |t.procs| && (t.procs[q].SleepWant? || t.procs[q].SleepBoth?)
      ensures Blocked(t.procs[q].chan, t.d)
    {
      SleepersRun(s, p, t, q);
    }
    forall q: nat | q < |t.procs| && Waits(t, q)
      ensures Safe(t, q)
    {
      SafeRun(s, p, t, q);
    }
  }

  lemma RunSizes(s: State, p: Pid, t: State)
    requires p < |s.procs| == |s.sleeping| && Steps(s, p, Run, t)
    ensures |t.procs| == |t.sleeping| == |s.procs|
  {
  }

  lemma StepKeeps(s: State, p: Pid, step: Step, t: State)
    requires p < |s.procs| && Inv(s) && !GivesUp(s, p, step) && Steps(s, p, step, t)
    ensures Inv(t)
  {
    hide Places, Readers, Writers, Steps, GivesUp;
    LocksKept(s, p, step, t);
    if step.Run? { PlacesRun(s, p, t); } else { PlacesOther(s, p, step, t); }
    if step.Run? { ReadersRun(s, p, t); } else { ReadersOther(s, p, step, t); }
    WritersKept(s, p, step, t);
    if step.Run? { RunKept(s, p, t); } else { ForgottenKept(s, p, step, t); }
  }

  /** And that one step does lose a wakeup. */
  lemma GivingUpForgets(s: State, p: Pid, step: Step, t: State)
    requires p < |s.procs| == |s.sleeping| && Places(s) && GivesUp(s, p, step) && Steps(s, p, step, t)
    ensures Forgotten(t)
  {
    var q: nat :| q < |s.procs| && Waits(s, q) && s.procs[q].chan.NRead?;
    assert t.procs[q] == s.procs[q];
    assert Waits(t, q) && !Blocked(t.procs[q].chan, t.d);
  }

  // ---- whole runs ----

  ghost predicate NoneGivesUp(states: seq<State>, who: seq<Pid>, steps: seq<Step>, k: nat)
    requires IsRun(states, who, steps) && k <= |steps|
  {
    forall j | 0 <= j < k :: !GivesUp(states[j], who[j], steps[j])
  }

  lemma {:induction false} RunHolds(states: seq<State>, who: seq<Pid>, steps: seq<Step>, k: nat)
    requires IsRun(states, who, steps) && k <= |steps| && NoneGivesUp(states, who, steps, k)
    ensures Inv(states[k])
  {
    hide Inv, Steps, Init, GivesUp;
    if k == 0 {
      InitHolds(states[0]);
    } else {
      RunHolds(states, who, steps, k - 1);
      assert !GivesUp(states[k - 1], who[k - 1], steps[k - 1]);
      StepKeeps(states[k - 1], who[k - 1], steps[k - 1], states[k]);
    }
  }

  lemma InvForgetsNone(s: State)
    requires Inv(s)
    ensures !Forgotten(s)
  {
  }

  /** If any writer gives up, the first one to do so leaves a sleeper forgotten. */
  lemma {:induction false} FirstForgets(states: seq<State>, who: seq<Pid>, steps: seq<Step>, k: nat)
    requires IsRun(states, who, steps) && k <= |steps| && !NoneGivesUp(states, who, steps, k)
    ensures exists j | 0 <= j < |states| :: Forgotten(states[j])
  {
    hide Inv, Steps, Init, GivesUp, Forgotten;
    if NoneGivesUp(states, who, steps, k - 1) {
      RunHolds(states, who, steps, k - 1);
      var s, t := states[k - 1], states[k];
      assert GivesUp(s, who[k - 1], steps[k - 1]) && Places(s) by { InvPlaces(s); }
      GivingUpForgets(s, who[k - 1], steps[k - 1], t);
    } else {
      FirstForgets(states, who, steps, k - 1);
    }
  }

  lemma InvPlaces(s: State)
    requires Inv(s)
    ensures Places(s)
  {
  }

  /** When wakeups are lost: in a run, kills and all, somebody is ever forgotten if and only if a killed
      writer gives up on a full pipe while a reader sleeps. So there is no lost wakeup in any run about a
      sleep-lock or the log. */
  lemma LostWakeups(states: seq<State>, who: seq<Pid>, steps: seq<Step>)
    requires IsRun(states, who, steps)
    ensures (exists k | 0 <= k < |states| :: Forgotten(states[k]))
        <==> exists k | 0 <= k < |steps| :: GivesUp(states[k], who[k], steps[k])
  {
    hide Steps, Init, GivesUp, Forgotten;
    if NoneGivesUp(states, who, steps, |steps|) {
      forall k | 0 <= k < |states|
        ensures !Forgotten(states[k])
      {
        assert NoneGivesUp(states, who, steps, k);
        RunHolds(states, who, steps, k);
        InvForgetsNone(states[k]);
      }
    } else {
      FirstForgets(states, who, steps, |steps|);
    }
  }

  /** No wakeup is lost: while no writer has given up, whoever sleeps when the lock is free has a reason to.
      A process asleep in acquiresleep sees the lock held, in begin_op committing or no space, in piperead an
      empty pipe whose write end is open, in pipewrite a full pipe whose read end is open. */
  lemma NoLostWakeup(states: seq<State>, who: seq<Pid>, steps: seq<Step>, k: nat, q: Pid)
    requires IsRun(states, who, steps) && k <= |steps| && NoneGivesUp(states, who, steps, k)
    requires q < |states[k].procs| == |states[k].sleeping| && states[k].lk.None? && states[k].sleeping[q]
    ensures states[k].procs[q].Sched? || states[k].procs[q].Off?
    ensures match states[k].procs[q].chan
            case LockChan => states[k].d.LockData? && states[k].d.locked
            case LogChan =>
              states[k].d.LogData?
              && (states[k].d.committing
                  || states[k].d.lhn + (states[k].d.outstanding + 1) * states[k].d.maxop > states[k].d.logsize)
            case NRead =>
              states[k].d.PipeData? && states[k].d.count == 0 && states[k].d.writeopen && states[k].d.readopen
            case NWrite =>
              states[k].d.PipeData? && states[k].d.count == states[k].d.cap && states[k].d.readopen
  {
    RunHolds(states, who, steps, k);
    assert Waits(states[k], q);
  }

  /** A sleep-lock has one holder at most, and is locked while it has one; only the holder releases it. */
  ghost predicate Exclusive(s: State) {
    && (s.d.LockData? ==> forall p <- s.d.inside :: s.d.locked && s.d.pid == p)
    && forall p | 0 <= p < |s.procs| && LocOf(s.procs[p]) == Some(ReleaseClear) :: s.d.LockData? && p in s.d.inside
  }

  lemma ExclusiveKept(s: State, p: Pid, step: Step, t: State)
    requires p < |s.procs| == |s.sleeping| && Exclusive(s) && Steps(s, p, step, t)
    ensures Exclusive(t)
  {
  }

  lemma {:induction false} MutualExclusion(states: seq<State>, who: seq<Pid>, steps: seq<Step>, k: nat)
    requires IsRun(states, who, steps) && k < |states|
    ensures Exclusive(states[k])
  {
    hide Exclusive, Steps, Init;
    if k == 0 {
      FirstExclusive(states[0]);
    } else {
      MutualExclusion(states, who, steps, k - 1);
      ExclusiveKept(states[k - 1], who[k - 1], steps[k - 1], states[k]);
    }
  }

  lemma FirstExclusive(s: State)
    requires Init(s)
    ensures Exclusive(s)
  {
  }

  lemma OneMore(states: seq<State>, who: seq<Pid>, steps: seq<Step>, p: Pid, step: Step, t: State)
    requires IsRun(states, who, steps) && p < |states[|steps|].procs| == |states[|steps|].sleeping|
    requires Steps(states[|steps|], p, step, t)
    ensures IsRun(states + [t], who + [p], steps + [step])
  {
    hide Steps, Init;
  }

  /** A run of two processes on a pipe of one byte, in which process 0 goes to sleep on the empty pipe. */
  lemma ReaderSleeps() returns (states: seq<State>, who: seq<Pid>, steps: seq<Step>)
    ensures IsRun(states, who, steps)
    ensures states[|steps|] == State([Off(NRead, ReadTest(1)), Idle], [true, false], None, None, PipeData(0, 1, true,
        true), {})
  {
    hide Steps, Init;
    var r := ReadTest(1);
    var s0 := State([Idle, Idle], [false, false], None, None, PipeData(0, 1, true, true), {});
    var s1 := s0.(procs := [WantLk(r), Idle]);
    var s2 := s0.(procs := [Hold(r), Idle], lk := Some(0));
    var s3 := s2.(procs := [SleepWant(NRead, r), Idle]);
    var s4 := s3.(procs := [SleepBoth(NRead, r), Idle], pt := Some(0));
    var s5 := s4.(procs := [SleepOne(NRead, r), Idle], lk := None);
    var s6 := s5.(procs := [Sched(NRead, r), Idle], sleeping := [true, false]);
    var s7 := s6.(procs := [Off(NRead, r), Idle], pt := None);
    ReaderStarts(s0, s1, s2, s3);
    ReaderStops(s3, s4, s5, s6, s7);
    states := [s0, s1, s2, s3, s4, s5, s6, s7];
    who := [0, 0, 0, 0, 0, 0, 0];
    steps := [Start(r), Acquire, Run, AcquirePt, ReleaseLk, FallAsleep, ReleasePt];
  }

  lemma ReaderStarts(s0: State, s1: State, s2: State, s3: State)
    requires s0 == State([Idle, Idle], [false, false], None, None, PipeData(0, 1, true, true), {})
    requires s1 == s0.(procs := [WantLk(ReadTest(1)), Idle])
        && s2 == s0.(procs := [Hold(ReadTest(1)), Idle], lk := Some(0))
    requires s3 == s2.(procs := [SleepWant(NRead, ReadTest(1)), Idle])
    ensures Init(s0) && Steps(s0, 0, Start(ReadTest(1)), s1) && Steps(s1, 0, Acquire, s2) && Steps(s2, 0, Run, s3)
  {
  }

  lemma ReaderStops(s3: State, s4: State, s5: State, s6: State, s7: State)
    requires s3 == State([SleepWant(NRead, ReadTest(1)), Idle], [false, false], Some(0), None, PipeData(0, 1, true,
        true), {})
    requires s4 == s3.(procs := [SleepBoth(NRead, ReadTest(1)), Idle], pt := Some(0))
    requires s5 == s4.(procs := [SleepOne(NRead, ReadTest(1)), Idle], lk := None)
    requires s6 == s5.(procs := [Sched(NRead, ReadTest(1)), Idle], sleeping := [true, false])
    requires s7 == s6.(procs := [Off(NRead, ReadTest(1)), Idle], pt := None)
    ensures Steps(s3, 0, AcquirePt, s4) && Steps(s4, 0, ReleaseLk, s5) && Steps(s5, 0, FallAsleep, s6)
        && Steps(s6, 0, ReleasePt, s7)
  {
  }

  /** Such a run: a killed writer that fills the pipe returns without the wakeup, and the reader sleeps on
      although there are bytes. */
  lemma KilledWriterForgets() returns (states: seq<State>, who: seq<Pid>, steps: seq<Step>)
    ensures IsRun(states, who, steps)
    ensures var s := states[|steps|];
            |s.sleeping| == 2 && s.lk.None? && s.sleeping[0] && s.procs == [Off(NRead, ReadTest(1)), Idle]
                && !Blocked(NRead, s.d)
  {
    hide Init, Steps, IsRun;
    states, who, steps := ReaderSleeps();
    var off, w2, w1 := Off(NRead, ReadTest(1)), WriteLoop(2), WriteLoop(1);
    RunEnd(states, who, steps);
    var s7 := states[|steps|];
    var s8 := s7.(killed := {1});
    var s9 := s8.(procs := [off, WantLk(w2)]);
    var s10 := s9.(procs := [off, Hold(w2)], lk := Some(1));
    var s11 := s10.(procs := [off, Hold(w1)], d := PipeData(1, 1, true, true));
    var s12 := s11.(procs := [off, Idle], lk := None);
    WriterSteps(s7, s8, s9, s10, s11, s12);
    OneMore(states, who, steps, 1, Kill, s8);
    OneMore(states + [s8], who + [1], steps + [Kill], 1, Start(w2), s9);
    OneMore(states + [s8] + [s9], who + [1] + [1], steps + [Kill] + [Start(w2)], 1, Acquire, s10);
    OneMore(states + [s8] + [s9] + [s10], who + [1] + [1] + [1], steps + [Kill] + [Start(w2)] + [Acquire], 1, Run, s11);
    OneMore(states + [s8] + [s9] + [s10] + [s11], who + [1] + [1] + [1] + [1],
        steps + [Kill] + [Start(w2)] + [Acquire] + [Run], 1, Run, s12);
    states, who := states + [s8] + [s9] + [s10] + [s11] + [s12], who + [1] + [1] + [1] + [1] + [1];
    steps := steps + [Kill] + [Start(w2)] + [Acquire] + [Run] + [Run];
  }

  lemma RunEnd(states: seq<State>, who: seq<Pid>, steps: seq<Step>)
    requires IsRun(states, who, steps)
    ensures |states| == |steps| + 1
  {
  }

  lemma WriterSteps(s7: State, s8: State, s9: State, s10: State, s11: State, s12: State)
    requires s7 == State([Off(NRead, ReadTest(1)), Idle], [true, false], None, None, PipeData(0, 1, true, true), {})
    requires s8 == s7.(killed := {1})
    requires s9 == s8.(procs := [Off(NRead, ReadTest(1)), WantLk(WriteLoop(2))])
    requires s10 == s9.(procs := [Off(NRead, ReadTest(1)), Hold(WriteLoop(2))], lk := Some(1))
    requires s11 == s10.(procs := [Off(NRead, ReadTest(1)), Hold(WriteLoop(1))], d := PipeData(1, 1, true, true))
    requires s12 == s11.(procs := [Off(NRead, ReadTest(1)), Idle], lk := None)
    ensures Steps(s7, 1, Kill, s8) && Steps(s8, 1, Start(WriteLoop(2)), s9) && Steps(s9, 1, Acquire, s10)
    ensures Steps(s10, 1, Run, s11) && Steps(s11, 1, Run, s12)
  {
  }
}
