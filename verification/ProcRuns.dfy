/** Whole runs of the process table: any interleaving of fork, exit, wait, waitx, kill, sleep and wakeup,
    by any number of processes. */
module ProcRuns {
  import opened Words
  import opened ProcTable

  /** A child that wait or waitx returned to `parent`. Processes are named by their births: 0 for the first
      one that allocproc made, and so on. */
  datatype Reap = Reap(child: nat, parent: nat)

  /** `births` are those of the processes in the slots; `forks` are the slots that forking processes are
      filling in; `exited` and `reaps` record the past. The first process is in slot 0. */
  datatype State = State(table: Table, nextpid: int, allocs: nat, births: seq<nat>, forks: map<nat, nat>,
                         exited: set<nat>, reaps: seq<Reap>)

  datatype Step =
    | Alloc(cur: nat, i: nat, ticks: int)     // fork: allocproc took slot `i`
    | GiveUp(cur: nat)                        // no memory
    | SetParent(cur: nat)
    | Ready(cur: nat)                         // fork: the child is RUNNABLE
    | Exit(cur: nat, ticks: int)
    | Wait(cur: nat, w: WaitResult)           // one turn of wait or waitx
    | Kill(i: nat, pid: int)
    | Sleep(cur: nat, addr: nat)              // for anything but a child
    | Wakeup(addr: nat)
    | Schedule(p: nat, s: ProcState)          // RUNNABLE to RUNNING and back
    | Ran(p: nat, n: nat)                     // run time is added, on a timer interrupt or in switchuvm

  predicate Live(p: Proc) {
    p.state == SLEEPING || p.state == RUNNABLE || p.state == RUNNING
  }

  /** `cur` runs on some CPU. */
  predicate Runs(s: State, cur: nat) {
    cur < |s.table| && s.table[cur].state == RUNNING
  }

  function SetState(t: Table, p: nat, st: ProcState): Table
    requires p < |t|
  {
    t[p := t[p].(state := st)]
  }

  ghost predicate Next(s: State, step: Step, t: State)
    requires |s.births| == |s.table|
  {
    match step
    case Alloc(cur, i, ticks) =>
      && Runs(s, cur) && cur !in s.forks && FirstUnused(s.table, i)
      && t == s.(table := s.table[i := Embryo(s.table[i], s.nextpid, ticks)], nextpid := Next32(s.nextpid),
                 allocs := s.allocs + 1, births := s.births[i := s.allocs], forks := s.forks[cur := i])
    case GiveUp(cur) =>
      && Runs(s, cur) && cur in s.forks && s.forks[cur] < |s.table| && s.table[s.forks[cur]].parent.None?
      && t == s.(table := SetState(s.table, s.forks[cur], UNUSED), forks := s.forks - {cur})
    case SetParent(cur) =>
      && Runs(s, cur) && cur in s.forks && s.forks[cur] < |s.table| && s.table[s.forks[cur]].parent.None?
      && t == s.(table := s.table[s.forks[cur] := s.table[s.forks[cur]].(parent := Some(cur))])
    case Ready(cur) =>
      && Runs(s, cur) && cur in s.forks && s.forks[cur] < |s.table| && s.table[s.forks[cur]].parent.Some?
      && t == s.(table := SetState(s.table, s.forks[cur], RUNNABLE), forks := s.forks - {cur})
    case Exit(cur, ticks) =>
      && Runs(s, cur) && cur != 0 && cur !in s.forks
      && Exited(s.table, t.table, cur, 0, ticks)
      && t == s.(table := t.table, exited := s.exited + {s.births[cur]})
    case Wait(cur, w) =>
      && Runs(s, cur) && cur !in s.forks && Waited(s.table, t.table, cur, w)
      && t == s.(table := t.table,
                 reaps := if w.Reaped? then s.reaps + [Reap(s.births[w.p], s.births[cur])] else s.reaps)
    case Kill(i, pid) => Killed(s.table, t.table, i, pid) && t == s.(table := t.table)
    case Sleep(cur, addr) =>
      Runs(s, cur) && t == s.(table := s.table[cur := s.table[cur].(state := SLEEPING, chan := Some(Other(addr)))])
    case Wakeup(addr) => t == s.(table := Woken(s.table, Other(addr)))
    case Schedule(p, st) =>
      && p < |s.table| && (st == RUNNABLE || st == RUNNING) && (s.table[p].state == RUNNABLE
         || s.table[p].state == RUNNING)
      && t == s.(table := SetState(s.table, p, st))
    case Ran(p, n) =>
      && p < |s.table| && (s.table[p].state == RUNNABLE || s.table[p].state == RUNNING)
      && t == s.(table := s.table[p := s.table[p].(rtime := s.table[p].rtime + n)])
  }

  /** After userinit: the first process alone. */
  predicate Init(s: State) {
    && |s.table| == |s.births| && |s.table| > 0 && s.allocs == 1 && s.nextpid == 2
    && s.table[0].state == RUNNABLE && s.table[0].pid == 1 && s.births[0] == 0
    && s.table[0].parent.None? && !s.table[0].killed
    && (forall p | 1 <= p < |s.table| ::
          s.table[p].state == UNUSED && s.table[p].parent.None? && !s.table[p].killed)
    && s.forks == map[] && s.exited == {} && s.reaps == []
  }

  // ---- the invariant ----

  /** The parent of a process is a live, older one. */
  predicate ParentOK(s: State, p: nat)
    requires p < |s.table| == |s.births|
  {
    s.table[p].parent.Some? ==>
      var q := s.table[p].parent.value;
      q < |s.table| && Live(s.table[q]) && s.births[q] < s.births[p]
  }

  predicate Tree(s: State)
    requires |s.births| == |s.table|
  {
    && |s.table| > 0 && Live(s.table[0]) && s.births[0] == 0 && s.table[0].parent.None?
    && (forall p | 0 <= p < |s.table| :: ParentOK(s, p))
    && (forall p | 0 <= p < |s.table| && s.table[p].state == UNUSED :: s.table[p].parent.None?)
    && (forall p | 1 <= p < |s.table| && (Live(s.table[p]) || s.table[p].state == ZOMBIE) :: s.table[p].parent.Some?)
  }

  predicate Births(s: State)
    requires |s.births| == |s.table|
  {
    && (forall p | 0 <= p < |s.table| && s.table[p].state != UNUSED :: s.births[p] < s.allocs)
    && (forall p, q | 0 <= p < q < |s.table| && s.table[p].state != UNUSED && s.table[q].state != UNUSED ::
       s.births[p] != s.births[q])
    && 0 < s.allocs
  }

  predicate Forks(s: State)
    requires |s.births| == |s.table|
  {
    && (forall c <- s.forks :: c < |s.table| && Live(s.table[c]) && s.forks[c] < |s.table|
          && s.table[s.forks[c]].state == EMBRYO && s.births[c] < s.births[s.forks[c]])
    && (forall c <- s.forks, d <- s.forks | c != d :: s.forks[c] != s.forks[d])
  }

  predicate WasReaped(s: State, b: nat) {
    exists k | 0 <= k < |s.reaps| :: s.reaps[k].child == b
  }

  predicate IsZombie(s: State, p: nat, b: nat) {
    p < |s.table| && p < |s.births| && s.table[p].state == ZOMBIE && s.births[p] == b
  }

  /** Who exited is a zombie that nobody reaped, or was reaped once. */
  ghost predicate Past(s: State)
    requires |s.births| == |s.table|
  {
    && (forall p | 0 <= p < |s.table| && s.table[p].state == ZOMBIE ::
            s.births[p] in s.exited && !WasReaped(s, s.births[p]))
    && (forall p | 0 <= p < |s.table| && s.table[p].state != ZOMBIE && s.table[p].state != UNUSED ::
       s.births[p] !in s.exited)
    && (forall b <- s.exited :: b < s.allocs && (WasReaped(s, b) || exists p :: IsZombie(s, p, b)))
    && (forall k | 0 <= k < |s.reaps| :: s.reaps[k].child in s.exited)
    && (forall k, l | 0 <= k < l < |s.reaps| :: s.reaps[k].child != s.reaps[l].child)
  }

  /** A process asleep in wait has children, none of them a zombie, and was not killed. */
  ghost predicate Waiters(s: State) {
    forall p: nat, i | p < |s.table| && SleepsOn(s.table[p], Slot(i)) ::
      && i == p && !s.table[p].killed && !HasZombie(s.table, p, |s.table|)
      && exists c :: IsChild(s.table, c, p)
  }

  /** The pid that the n-th call of `nextpid++` gives, on 32 bits. */
  function Pid32(n: nat): int {
    (n + 0x8000_0000) % TWO32 - 0x8000_0000
  }

  predicate Pids(s: State)
    requires |s.births| == |s.table|
  {
    && s.nextpid == Pid32(s.allocs + 1)
    && forall p | 0 <= p < |s.table| && s.table[p].state != UNUSED :: s.table[p].pid == Pid32(s.births[p] + 1)
  }

  ghost predicate Inv(s: State) {
    |s.births| == |s.table| && Births(s) && Forks(s) && Tree(s) && Past(s) && Waiters(s) && Pids(s)
  }

  lemma InitHolds(s: State)
    requires Init(s)
    ensures Inv(s)
  {
  }

  lemma SameSize(s: State, step: Step, t: State)
    requires |s.births| == |s.table| && Next(s, step, t)
    ensures |t.births| == |t.table| == |s.table|
  {
  }

  /** Steps that fill in a forked child. */
  predicate Filling(step: Step) {
    step.GiveUp? || step.SetParent? || step.Ready?
  }

  /** What these steps have in common: only the slot that `cur` fills in changes. */
  predicate FillsIn(s: State, cur: nat, t: State) {
    && cur in s.forks && |s.births| == |s.table| == |t.table| && s.forks[cur] < |s.table|
    && var c := s.forks[cur]; var before, after := s.table[c], t.table[c];
       && t == s.(table := s.table[c := after], forks := if after.state == EMBRYO then s.forks else s.forks - {cur})
       && after == before.(state := after.state, parent := after.parent)
       && (after.state == UNUSED || after.state == EMBRYO || after.state == RUNNABLE)
       && (after.state == UNUSED ==> after.parent.None?) && (after.state == RUNNABLE ==> after.parent.Some?)
       && (after.parent == before.parent || (before.parent.None? && after.parent == Some(cur)))
  }

  lemma FillingFills(s: State, step: Step, t: State)
    requires |s.births| == |s.table| && Forks(s) && Next(s, step, t) && Filling(step)
    ensures FillsIn(s, step.cur, t)
  {
  }

  predicate Forking(step: Step) {
    step.Alloc? || Filling(step)
  }

  lemma TreeAlloc(s: State, step: Step, t: State)
    requires |s.births| == |s.table| && Births(s) && Forks(s) && Tree(s) && Next(s, step, t) && step.Alloc?
    ensures |t.births| == |t.table| && Tree(t)
  {
    forall p: nat | p < |t.table|
      ensures ParentOK(t, p)
    {
      assert ParentOK(s, p);
    }
  }

  lemma TreeFilling(s: State, step: Step, t: State)
    requires |s.births| == |s.table| && Births(s) && Forks(s) && Tree(s) && Next(s, step, t) && Filling(step)
    ensures |t.births| == |t.table| && Tree(t)
  {
    FillingFills(s, step, t);
    hide Next;
    forall p: nat | p < |t.table|
      ensures ParentOK(t, p)
    {
      assert ParentOK(s, p);
    }
  }

  lemma TreeExit(s: State, step: Step, t: State)
    requires |s.births| == |s.table| && Births(s) && Tree(s) && Next(s, step, t) && (step.Exit? || step.Wait?)
    ensures |t.births| == |t.table| && Tree(t)
  {
    SameSize(s, step, t);
    forall p: nat | p < |t.table|
      ensures ParentOK(t, p)
    {
      assert ParentOK(s, p);
    }
  }

  lemma TreeOther(s: State, step: Step, t: State)
    requires |s.births| == |s.table| && Tree(s) && Next(s, step, t) && !Forking(step) && !step.Exit? && !step.Wait?
    ensures |t.births| == |t.table| && Tree(t)
  {
    SameSize(s, step, t);
    forall p: nat | p < |t.table|
      ensures ParentOK(t, p)
    {
      assert ParentOK(s, p);
    }
  }

  lemma BirthsForking(s: State, step: Step, t: State)
    requires |s.births| == |s.table| && Births(s) && Forks(s) && Next(s, step, t) && Forking(step)
    ensures |t.births| == |t.table| && Births(t)
  {
    if Filling(step) {
      FillingFills(s, step, t);
      hide Next;
    }
  }

  lemma BirthsOther(s: State, step: Step, t: State)
    requires |s.births| == |s.table| && Births(s) && Next(s, step, t) && !Forking(step)
    ensures |t.births| == |t.table| && Births(t)
  {
    NoneUsed(s, step, t);
    hide Next;
  }

  /** These steps take no slot. */
  lemma NoneUsed(s: State, step: Step, t: State)
    requires |s.births| == |s.table| && Next(s, step, t) && !Forking(step)
    ensures |t.table| == |s.table| && t.births == s.births && t.allocs == s.allocs
    ensures forall p | 0 <= p < |s.table| && t.table[p].state != UNUSED :: s.table[p].state != UNUSED
  {
    SameSize(s, step, t);
  }

  lemma ForksAlloc(s: State, step: Step, t: State)
    requires |s.births| == |s.table| && Births(s) && Forks(s) && Next(s, step, t) && step.Alloc?
    ensures |t.births| == |t.table| && Forks(t)
  {
    var cur, i := step.cur, step.i;
    AllocSlot(s, cur, i, step.ticks, t);
    hide Next, FirstUnused, Embryo;
    forall c <- t.forks
      ensures c < |t.table| && Live(t.table[c]) && t.forks[c] < |t.table|
      ensures t.table[t.forks[c]].state == EMBRYO && t.births[c] < t.births[t.forks[c]]
      ensures c != cur ==> t.forks[c] != i
    {
      assert c == cur || c in s.forks;
    }
  }

  lemma AllocSlot(s: State, cur: nat, i: nat, ticks: int, t: State)
    requires |s.births| == |s.table| && Next(s, Alloc(cur, i, ticks), t)
    ensures cur < |s.table| && i < |s.table| && Live(s.table[cur]) && s.table[i].state == UNUSED
    ensures t.table == s.table[i := t.table[i]] && t.table[i].state == EMBRYO && t.table[i].parent == s.table[i].parent
    ensures t.forks == s.forks[cur := i] && t.births == s.births[i := s.allocs] && t.allocs == s.allocs + 1
    ensures t.exited == s.exited && t.reaps == s.reaps && cur !in s.forks
  {
  }

  lemma ForksFilling(s: State, step: Step, t: State)
    requires |s.births| == |s.table| && Forks(s) && Next(s, step, t) && Filling(step)
    ensures |t.births| == |t.table| && Forks(t)
  {
    FillingFills(s, step, t);
    hide Next;
  }

  lemma ForksExit(s: State, step: Step, t: State)
    requires |s.births| == |s.table| && Forks(s) && Next(s, step, t) && (step.Exit? || step.Wait?)
    ensures |t.births| == |t.table| && Forks(t)
  {
    SameSize(s, step, t);
  }

  lemma ForksOther(s: State, step: Step, t: State)
    requires |s.births| == |s.table| && Forks(s) && Next(s, step, t) && !Forking(step) && !step.Exit? && !step.Wait?
    ensures |t.births| == |t.table| && Forks(t)
  {
    SameSize(s, step, t);
  }

  lemma PidsKept(s: State, step: Step, t: State)
    requires |s.births| == |s.table| && Births(s) && Forks(s) && Pids(s) && Next(s, step, t)
    ensures |t.births| == |t.table| && Pids(t)
  {
    hide Pid32, Next32;
    NextPid(s.allocs + 1);
    SameSize(s, step, t);
  }

  lemma NextPid(n: nat)
    ensures Next32(Pid32(n)) == Pid32(n + 1)
  {
  }

  lemma WaitersAlloc(s: State, step: Step, t: State)
    requires |s.births| == |s.table| && Forks(s) && Tree(s) && Waiters(s) && Next(s, step, t) && step.Alloc?
    ensures |t.births| == |t.table| && Waiters(t)
  {
    AllocSlot(s, step.cur, step.i, step.ticks, t);
    hide Next, FirstUnused, Embryo, Tree, Forks;
    forall p: nat, i | p < |t.table| && SleepsOn(t.table[p], Slot(i))
      ensures i == p && !t.table[p].killed && !HasZombie(t.table, p, |t.table|) && exists c :: IsChild(t.table, c, p)
    {
      assert SleepsOn(s.table[p], Slot(i));
      var c :| IsChild(s.table, c, p);
      assert IsChild(t.table, c, p);
      NoNewZombie(s.table, t.table, p);
    }
  }

  lemma WaitersFilling(s: State, step: Step, t: State)
    requires |s.births| == |s.table| && Forks(s) && Tree(s) && Waiters(s) && Next(s, step, t) && Filling(step)
    ensures |t.births| == |t.table| && Waiters(t)
  {
    FillingFills(s, step, t);
    hide Next;
    forall p: nat, i | p < |t.table| && SleepsOn(t.table[p], Slot(i))
      ensures i == p && !t.table[p].killed && !HasZombie(t.table, p, |t.table|) && exists c :: IsChild(t.table, c, p)
    {
      assert SleepsOn(s.table[p], Slot(i));
      var c :| IsChild(s.table, c, p);
      assert IsChild(t.table, c, p);
      NoNewZombie(s.table, t.table, p);
    }
  }

  lemma NoNewZombie(t: Table, r: Table, p: nat)
    requires |r| == |t| && !HasZombie(t, p, |t|)
    requires forall q | 0 <= q < |t| && IsChild(r, q, p) && r[q].state == ZOMBIE ::
        IsChild(t, q, p) && t[q].state == ZOMBIE
    ensures !HasZombie(r, p, |r|)
  {
  }

  lemma WaitersExit(s: State, step: Step, t: State)
    requires |s.births| == |s.table| && Tree(s) && Waiters(s) && Next(s, step, t) && step.Exit?
    ensures |t.births| == |t.table| && Waiters(t)
  {
    assert ParentOK(s, step.cur);
    forall p: nat, i | p < |t.table| && SleepsOn(t.table[p], Slot(i))
      ensures i == p && !t.table[p].killed && !HasZombie(t.table, p, |t.table|) && exists c :: IsChild(t.table, c, p)
    {
      assert SleepsOn(s.table[p], Slot(i));
      var c :| IsChild(s.table, c, p);
      assert IsChild(t.table, c, p);
      assert !WakesOnExit(s.table, p, step.cur, 0);
      forall q | 0 <= q < |s.table| && IsChild(t.table, q, p) && t.table[q].state == ZOMBIE
        ensures IsChild(s.table, q, p) && s.table[q].state == ZOMBIE
      {
        if s.table[q].parent == Some(step.cur) {
          assert IsChild(s.table, q, step.cur);
        }
      }
      NoNewZombie(s.table, t.table, p);
    }
  }

  lemma WaitersWait(s: State, step: Step, t: State)
    requires |s.births| == |s.table| && Waiters(s) && Next(s, step, t) && step.Wait?
    ensures |t.births| == |t.table| && Waiters(t)
  {
    forall p: nat, i | p < |t.table| && SleepsOn(t.table[p], Slot(i))
      ensures i == p && !t.table[p].killed && !HasZombie(t.table, p, |t.table|) && exists c :: IsChild(t.table, c, p)
    {
      var c: nat;
      if p == step.cur {
        c :| 0 <= c < |s.table| && IsChild(s.table, c, p);
      } else {
        assert SleepsOn(s.table[p], Slot(i));
        c :| IsChild(s.table, c, p);
      }
      assert IsChild(t.table, c, p);
      NoNewZombie(s.table, t.table, p);
    }
  }

  lemma WaitersOther(s: State, step: Step, t: State)
    requires |s.births| == |s.table| && Waiters(s) && Next(s, step, t) && !Forking(step) && !step.Exit? && !step.Wait?
    ensures |t.births| == |t.table| && Waiters(t)
  {
    SameSize(s, step, t);
    forall p: nat, i | p < |t.table| && SleepsOn(t.table[p], Slot(i))
      ensures i == p && !t.table[p].killed && !HasZombie(t.table, p, |t.table|) && exists c :: IsChild(t.table, c, p)
    {
      assert SleepsOn(s.table[p], Slot(i));
      var c :| IsChild(s.table, c, p);
      assert IsChild(t.table, c, p);
      NoNewZombie(s.table, t.table, p);
    }
  }

  lemma PastAlloc(s: State, step: Step, t: State)
    requires |s.births| == |s.table| && Births(s) && Forks(s) && Past(s) && Next(s, step, t) && step.Alloc?
    ensures |t.births| == |t.table| && Past(t)
  {
    forall b <- t.exited | !WasReaped(t, b)
      ensures exists p :: IsZombie(t, p, b)
    {
      assert !WasReaped(s, b);
      var p :| IsZombie(s, p, b);
      assert IsZombie(t, p, b);
    }
    assert forall b :: WasReaped(t, b) == WasReaped(s, b);
  }

  lemma PastFilling(s: State, step: Step, t: State)
    requires |s.births| == |s.table| && Births(s) && Forks(s) && Past(s) && Next(s, step, t) && Filling(step)
    ensures |t.births| == |t.table| && Past(t)
  {
    FillingFills(s, step, t);
    hide Next;
    forall b <- t.exited | !WasReaped(t, b)
      ensures exists p :: IsZombie(t, p, b)
    {
      assert !WasReaped(s, b);
      var p :| IsZombie(s, p, b);
      assert IsZombie(t, p, b);
    }
    assert forall b :: WasReaped(t, b) == WasReaped(s, b);
  }

  /** What exit means for the past. */
  lemma ExitFacts(s: State, step: Step, t: State)
    requires |s.births| == |s.table| && Next(s, step, t) && step.Exit?
    ensures |t.births| == |t.table| == |s.table| && step.cur < |s.table| && t.births == s.births && t.allocs == s.allocs
    ensures t.reaps == s.reaps && t.exited == s.exited + {s.births[step.cur]}
    ensures s.table[step.cur].state == RUNNING && t.table[step.cur].state == ZOMBIE
    ensures forall p | 0 <= p < |s.table| && p != step.cur ::
        && (t.table[p].state == ZOMBIE <==> s.table[p].state == ZOMBIE)
        && (t.table[p].state == UNUSED <==> s.table[p].state == UNUSED)
  {
    hide HasZombie;
  }

  lemma PastExit(s: State, step: Step, t: State)
    requires |s.births| == |s.table| && Births(s) && Past(s) && Next(s, step, t) && step.Exit?
    ensures |t.births| == |t.table| && Past(t)
  {
    hide Next;
    ExitFacts(s, step, t);
    assert forall b :: WasReaped(t, b) == WasReaped(s, b);
    forall b <- t.exited | !WasReaped(t, b)
      ensures exists p :: IsZombie(t, p, b)
    {
      if b in s.exited {
        var p :| IsZombie(s, p, b);
        assert IsZombie(t, p, b);
      } else {
        assert IsZombie(t, step.cur, b);
      }
    }
  }

  lemma PastWait(s: State, step: Step, t: State)
    requires |s.births| == |s.table| && Births(s) && Past(s) && Next(s, step, t) && step.Wait?
    ensures |t.births| == |t.table| && Past(t)
  {
    if step.w.Reaped? { PastReaped(s, step, t); } else { PastWaited(s, step, t); }
  }

  lemma PastReaped(s: State, step: Step, t: State)
    requires |s.births| == |s.table| && Births(s) && Past(s) && Next(s, step, t) && step.Wait? && step.w.Reaped?
    ensures |t.births| == |t.table| && Past(t)
  {
    ReapedSlot(s, step, t);
    hide Next, Births;
    var z := step.w.p;
    assert forall b :: WasReaped(t, b) <==> WasReaped(s, b) || b == s.births[z] by {
      assert t.reaps[|s.reaps|].child == s.births[z];
      assert forall k | 0 <= k < |s.reaps| :: t.reaps[k] == s.reaps[k];
    }
    forall b <- t.exited | !WasReaped(t, b)
      ensures exists p :: IsZombie(t, p, b)
    {
      var p :| IsZombie(s, p, b);
      assert IsZombie(t, p, b);
    }
  }

  lemma ReapedSlot(s: State, step: Step, t: State)
    requires |s.births| == |s.table| && Births(s) && Next(s, step, t) && step.Wait? && step.w.Reaped?
    ensures var z := step.w.p;
            && z < |s.table| && s.table[z].state == ZOMBIE && |t.table| == |s.table|
            && t.table == s.table[z := t.table[z]] && t.table[z].state == UNUSED
            && |t.reaps| == |s.reaps| + 1 && t.reaps[|s.reaps|].child == s.births[z]
            && forall q | 0 <= q < |s.table| && q != z && s.table[q].state != UNUSED :: s.births[q] != s.births[z]
    ensures t.reaps[..|s.reaps|] == s.reaps && t.births == s.births && t.exited == s.exited && t.allocs == s.allocs
  {
  }

  lemma PastWaited(s: State, step: Step, t: State)
    requires |s.births| == |s.table| && Past(s) && Next(s, step, t) && step.Wait? && !step.w.Reaped?
    ensures |t.births| == |t.table| && Past(t)
  {
    assert forall b :: WasReaped(t, b) == WasReaped(s, b);
    forall b <- t.exited | !WasReaped(t, b)
      ensures exists p :: IsZombie(t, p, b)
    {
      var p :| IsZombie(s, p, b);
      assert IsZombie(t, p, b);
    }
  }

  lemma PastOther(s: State, step: Step, t: State)
    requires |s.births| == |s.table| && Past(s) && Next(s, step, t) && !Forking(step) && !step.Exit? && !step.Wait?
    ensures |t.births| == |t.table| && Past(t)
  {
    SameSize(s, step, t);
    assert forall b :: WasReaped(t, b) == WasReaped(s, b);
    forall b <- t.exited | !WasReaped(t, b)
      ensures exists p :: IsZombie(t, p, b)
    {
      var p :| IsZombie(s, p, b);
      assert IsZombie(t, p, b);
    }
  }

  lemma NextKeeps(s: State, step: Step, t: State)
    requires Inv(s) && Next(s, step, t)
    ensures Inv(t)
  {
    hide Next, Births, Forks, Tree, Past, Waiters, Pids;
    PidsKept(s, step, t);
    if step.Alloc? {
      BirthsForking(s, step, t);
      TreeAlloc(s, step, t);
      ForksAlloc(s, step, t);
      WaitersAlloc(s, step, t);
      PastAlloc(s, step, t);
    } else if Filling(step) {
      BirthsForking(s, step, t);
      TreeFilling(s, step, t);
      ForksFilling(s, step, t);
      WaitersFilling(s, step, t);
      PastFilling(s, step, t);
    } else {
      BirthsOther(s, step, t);
      if step.Exit? || step.Wait? {
        TreeExit(s, step, t);
        ForksExit(s, step, t);
      } else {
        TreeOther(s, step, t);
        ForksOther(s, step, t);
      }
      if step.Exit? {
        WaitersExit(s, step, t);
        PastExit(s, step, t);
      } else if step.Wait? {
        WaitersWait(s, step, t);
        PastWait(s, step, t);
      } else {
        WaitersOther(s, step, t);
        PastOther(s, step, t);
      }
    }
  }

  // ---- whole runs ----

  ghost predicate IsRun(states: seq<State>, steps: seq<Step>) {
    && |states| == |steps| + 1 && Init(states[0])
    && forall k | 0 <= k < |steps| ::
            |states[k].births| == |states[k].table| && Next(states[k], steps[k], states[k + 1])
  }

  lemma {:induction false} RunHolds(states: seq<State>, steps: seq<Step>, k: nat)
    requires IsRun(states, steps) && k < |states|
    ensures Inv(states[k])
  {
    hide Inv, Next, Init;
    if k == 0 {
      InitHolds(states[0]);
    } else {
      RunHolds(states, steps, k - 1);
      NextKeeps(states[k - 1], steps[k - 1], states[k]);
    }
  }

  /** Going up from `p`, `n` times. */
  function Ancestor(t: Table, p: nat, n: nat): Option<nat>
    decreases n
  {
    if p >= |t| then None
    else if n == 0 then Some(p)
    else if t[p].parent.None? then None
    else Ancestor(t, t[p].parent.value, n - 1)
  }

  /** The live processes and zombies form a tree with initproc at its root. */
  lemma {:induction false} RootedAtInit(s: State, p: nat) returns (n: nat)
    requires |s.births| == |s.table| && Tree(s) && p < |s.table| && (Live(s.table[p]) || s.table[p].state == ZOMBIE)
    ensures Ancestor(s.table, p, n) == Some(0)
    decreases s.births[p]
  {
    if p == 0 {
      n := 0;
    } else {
      assert ParentOK(s, p);
      n := RootedAtInit(s, s.table[p].parent.value);
      n := n + 1;
    }
  }

  /** Two processes in the table share a pid if and only if a multiple of 2 to the 32 was handed out in between. */
  lemma SamePid(states: seq<State>, steps: seq<Step>, k: nat, p: nat, q: nat)
    requires IsRun(states, steps) && k < |states|
    requires var t := states[k].table; p < q < |t| && t[p].state != UNUSED && t[q].state != UNUSED
    ensures |states[k].births| == |states[k].table| && states[k].births[p] != states[k].births[q]
    ensures states[k].table[p].pid == states[k].table[q].pid
            <==> (states[k].births[p] - states[k].births[q]) % TWO32 == 0
  {
    hide Init, Next, Tree, Past, Waiters, Forks, IsRun;
    RunHolds(states, steps, k);
    var s := states[k];
    assert s.table[p].pid == Pid32(s.births[p] + 1) && s.table[q].pid == Pid32(s.births[q] + 1);
    PidsEqual(s.births[p], s.births[q]);
  }

  lemma PidsEqual(a: nat, b: nat)
    ensures Pid32(a + 1) == Pid32(b + 1) <==> (a - b) % TWO32 == 0
  {
  }

  /** So pids are distinct in every run until 2 to the 32 processes have been allocated. */
  lemma PidsDistinct(states: seq<State>, steps: seq<Step>, k: nat, p: nat, q: nat)
    requires IsRun(states, steps) && k < |states| && states[k].allocs <= TWO32
    requires var t := states[k].table; p < q < |t| && t[p].state != UNUSED && t[q].state != UNUSED
    ensures states[k].table[p].pid != states[k].table[q].pid
  {
    hide Init, Next, Tree, Past, Waiters, Forks, IsRun, Pids;
    SamePid(states, steps, k, p, q);
    RunHolds(states, steps, k);
  }

  ghost predicate Reachable(s: State) {
    exists states, steps :: IsRun(states, steps) && states[|steps|] == s
  }

  lemma ReachNext(s: State, step: Step, t: State)
    requires Reachable(s) && |s.births| == |s.table| && Next(s, step, t)
    ensures Reachable(t)
  {
    var states, steps :| IsRun(states, steps) && states[|steps|] == s;
    hide Next, Init;
    var states', steps' := states + [t], steps + [step];
    forall i | 0 <= i < |steps'|
      ensures |states'[i].births| == |states'[i].table| && Next(states'[i], steps'[i], states'[i + 1])
    {
      if i < |steps| {
        assert states'[i] == states[i] && states'[i + 1] == states[i + 1] && steps'[i] == steps[i];
      }
    }
    assert IsRun(states', steps');
  }

  const FIRST := Proc(RUNNING, 1, None, None, false, 0, 0, -1)
  const EMPTY := Proc(UNUSED, 0, None, None, false, 0, 0, 0)

  function ChildBirths(n: nat): set<nat> {
    if n == 0 then {} else ChildBirths(n - 1) + {n}
  }

  function ChildReaps(n: nat): seq<Reap> {
    if n == 0 then [] else ChildReaps(n - 1) + [Reap(n, 0)]
  }

  /** The first process in a table of two, after it forked and waited for `n` children one after the other. */
  ghost function Alone(n: nat): State {
    State([FIRST, EMPTY], Pid32(n + 2), n + 1, [0, n], map[], ChildBirths(n), ChildReaps(n))
  }

  /** And while its next child is at some point of its life. */
  ghost function WithChild(n: nat, child: Proc, forking: bool): State {
    var s := Alone(n);
    s.(table := [FIRST, child], nextpid := Pid32(n + 3), allocs := n + 2, births := [0, n + 1],
       forks := if forking then map[0 := 1] else map[])
  }

  function Child(n: nat, st: ProcState, parent: Option<nat>): Proc {
    Proc(st, Pid32(n + 2), parent, None, false, 0, 0, -1)
  }

  lemma Forked(n: nat)
    requires Reachable(Alone(n))
    ensures Reachable(WithChild(n, Child(n, RUNNABLE, Some(0)), false))
  {
    hide Reachable, Pid32, Next32;
    NextPid(n + 2);
    var embryo := WithChild(n, Child(n, EMBRYO, None), true);
    var named := WithChild(n, Child(n, EMBRYO, Some(0)), true);
    assert FirstUnused([FIRST, EMPTY], 1);
    ReachNext(Alone(n), Alloc(0, 1, 0), embryo);
    ReachNext(embryo, SetParent(0), named);
    assert map[0 := 1] - {0} == map[];
    ReachNext(named, Ready(0), WithChild(n, Child(n, RUNNABLE, Some(0)), false));
  }

  /** The child runs, exits, and is waited for. */
  lemma Gone(n: nat)
    requires Reachable(WithChild(n, Child(n, RUNNABLE, Some(0)), false))
    ensures Reachable(Alone(n + 1))
  {
    hide Reachable, Pid32, Next32;
    var ready := WithChild(n, Child(n, RUNNABLE, Some(0)), false);
    var running := WithChild(n, Child(n, RUNNING, Some(0)), false);
    var dead := Child(n, ZOMBIE, Some(0)).(etime := 0);
    var zombie := WithChild(n, dead, false).(exited := Alone(n).exited + {n + 1});
    ReachNext(ready, Schedule(1, RUNNING), running);
    assert Exited(running.table, zombie.table, 1, 0, 0) by {
      assert forall p | 0 <= p < 2 :: !WakesOnExit(running.table, p, 1, 0);
    }
    ReachNext(running, Exit(1, 0), zombie);
    assert IsChild(zombie.table, 1, 0) && !HasZombie(zombie.table, 0, 1);
    ReachNext(zombie, Wait(0, Reaped(1, Pid32(n + 2))), Alone(n + 1));
  }

  lemma {:induction false} AloneReachable(n: nat)
    ensures Reachable(Alone(n))
  {
    hide Reachable;
    if n == 0 {
      var s := Alone(0).(table := [FIRST.(state := RUNNABLE), EMPTY]);
      assert Init(s);
      Starts(s);
      ReachNext(s, Schedule(0, RUNNING), Alone(0));
    } else {
      AloneReachable(n - 1);
      Forked(n - 1);
      Gone(n - 1);
    }
  }

  lemma Starts(s: State)
    requires Init(s)
    ensures Reachable(s)
  {
    assert IsRun([s], []) && [s][0] == s;
  }

  /** The bound is sharp: after one more allocation, there is a run in which the first process and its child
      are both alive and have the same pid. */
  lemma PidClash() returns (s: State)
    ensures Reachable(s) && s.allocs == TWO32 + 1 && |s.table| == 2
    ensures s.table[0].state == RUNNING && s.table[1].state == RUNNABLE && s.table[0].pid == s.table[1].pid
  {
    hide Reachable;
    AloneReachable(TWO32 - 1);
    Forked(TWO32 - 1);
    s := WithChild(TWO32 - 1, Child(TWO32 - 1, RUNNABLE, Some(0)), false);
  }

  // ---- children that are killed before they are born ----

  predicate Unborn(p: Proc) {
    p.state == UNUSED || p.state == EMBRYO
  }

  /** kill hits slot `p` while it is not, or not yet, a process. */
  predicate StrayKill(s: State, step: Step, p: nat) {
    step.Kill? && step.i == p < |s.table| && Unborn(s.table[p])
  }

  /** wait or waitx empties slot `p`. */
  predicate Empties(step: Step, p: nat) {
    step.Wait? && step.w.Reaped? && step.w.p == p
  }

  /** In the first `k` steps, a stray kill hit slot `p`, and nobody emptied it since. */
  predicate HitSince(states: seq<State>, steps: seq<Step>, k: nat, p: nat)
    requires k <= |steps| < |states|
  {
    exists i | 0 <= i < k :: StrayKill(states[i], steps[i], p) && forall m | i < m < k :: !Empties(steps[m], p)
  }

  /** What a step does to the mark of a slot that is no process after it. */
  lemma MarkStep(s: State, step: Step, t: State, p: nat)
    requires |s.births| == |s.table| && Forks(s) && Next(s, step, t) && p < |s.table|
    ensures p < |t.table|
    ensures Empties(step, p) ==> !t.table[p].killed
    ensures !Empties(step, p) && Unborn(t.table[p]) ==>
        Unborn(s.table[p]) && (t.table[p].killed <==> s.table[p].killed || StrayKill(s, step, p))
  {
    SameSize(s, step, t);
    if Filling(step) { FillingFills(s, step, t); }
  }

  lemma HitMore(states: seq<State>, steps: seq<Step>, k: nat, p: nat)
    requires k < |steps| < |states|
    ensures HitSince(states, steps, k + 1, p)
        <==> StrayKill(states[k], steps[k], p) || (HitSince(states, steps, k, p) && !Empties(steps[k], p))
  {
    hide StrayKill, Empties;
    if HitSince(states, steps, k, p) && !Empties(steps[k], p) {
      var i :| 0 <= i < k && StrayKill(states[i], steps[i], p) && forall m | i < m < k :: !Empties(steps[m], p);
      assert forall m | i < m < k + 1 :: !Empties(steps[m], p);
    }
    if HitSince(states, steps, k + 1, p) && !StrayKill(states[k], steps[k], p) {
      var i :| 0 <= i < k + 1 && StrayKill(states[i], steps[i], p) && forall m | i < m < k + 1 :: !Empties(steps[m], p);
      assert i < k && !Empties(steps[k], p);
    }
  }

  /** A slot that is no process is marked if and only if a stray kill hit it since it was last emptied. */
  lemma {:induction false} MarkedBy(states: seq<State>, steps: seq<Step>, k: nat, p: nat)
    requires IsRun(states, steps) && k < |states| && p < |states[0].table|
    ensures p < |states[k].table|
    ensures Unborn(states[k].table[p]) ==> (states[k].table[p].killed <==> HitSince(states, steps, k, p))
  {
    hide Next, StrayKill, Empties, HitSince, Forks;
    if k == 0 {
      NotHit(states, steps, p);
    } else {
      MarkedBy(states, steps, k - 1, p);
      RunForks(states, steps, k - 1);
      MarkStep(states[k - 1], steps[k - 1], states[k], p);
      HitMore(states, steps, k - 1, p);
      NoKill(steps[k - 1], p);
    }
  }

  lemma NotHit(states: seq<State>, steps: seq<Step>, p: nat)
    requires IsRun(states, steps) && p < |states[0].table|
    ensures !HitSince(states, steps, 0, p)
    ensures Unborn(states[0].table[p]) ==> !states[0].table[p].killed
  {
    hide Next;
  }

  lemma NoKill(step: Step, p: nat)
    ensures forall s :: Empties(step, p) ==> !StrayKill(s, step, p)
  {
  }

  /** Exactly when a child is born killed: fork does not clear the flag, so the process that the j-th step makes
      RUNNABLE is marked if and only if, since wait last emptied its slot, some kill hit the slot while it was
      UNUSED (by pid 0, or by the pid of a child that fork gave up) or an embryo. */
  lemma BornKilled(states: seq<State>, steps: seq<Step>, j: nat)
    requires IsRun(states, steps) && j < |steps| && steps[j].Ready?
    ensures steps[j].cur in states[j].forks && states[j].forks[steps[j].cur] < |states[j + 1].table|
    ensures var p := states[j].forks[steps[j].cur];
            && states[j + 1].table[p].state == RUNNABLE
            && (states[j + 1].table[p].killed <==> HitSince(states, steps, j, p))
  {
    hide HitSince, Init;
    RunForks(states, steps, j);
    ReadyStep(states[j], steps[j], states[j + 1]);
    RunSize(states, steps, j);
    MarkedBy(states, steps, j, states[j].forks[steps[j].cur]);
  }

  lemma ReadyStep(s: State, step: Step, t: State)
    requires |s.births| == |s.table| && Forks(s) && Next(s, step, t) && step.Ready?
    ensures step.cur in s.forks && s.forks[step.cur] < |s.table| == |t.table|
    ensures var p := s.forks[step.cur];
            Unborn(s.table[p]) && t.table[p].state == RUNNABLE && t.table[p].killed == s.table[p].killed
  {
  }

  lemma {:induction false} RunSize(states: seq<State>, steps: seq<Step>, k: nat)
    requires IsRun(states, steps) && k < |states|
    ensures |states[k].table| == |states[0].table|
  {
    hide Next, Init;
    if k > 0 {
      RunSize(states, steps, k - 1);
      RunForks(states, steps, k - 1);
      SameSize(states[k - 1], steps[k - 1], states[k]);
    }
  }

  lemma RunForks(states: seq<State>, steps: seq<Step>, k: nat)
    requires IsRun(states, steps) && k < |states|
    ensures |states[k].births| == |states[k].table| && Forks(states[k])
  {
    hide Init, Next, Tree, Past, Waiters, Forks, Births, Pids;
    RunHolds(states, steps, k);
  }

  /** It does happen: kill(0), which names no process, marks the first slot that has none, and the next child
      is born killed. */
  lemma KillZero() returns (states: seq<State>, steps: seq<Step>)
    ensures IsRun(states, steps) && |states[|steps|].table| == 2
    ensures forall k | 0 <= k < |steps| && steps[k].Kill? :: steps[k].pid == 0
    ensures var child := states[|steps|].table[1]; child.state == RUNNABLE && child.pid == 2 && child.killed
  {
    var marked := EMPTY.(killed := true);
    var s1 := Alone(0);
    var s0 := s1.(table := [FIRST.(state := RUNNABLE), EMPTY]);
    var s2 := s1.(table := [FIRST, marked]);
    var s3 := WithChild(0, Child(0, EMBRYO, None).(killed := true), true);
    var s4 := WithChild(0, Child(0, EMBRYO, Some(0)).(killed := true), true);
    var s5 := WithChild(0, Child(0, RUNNABLE, Some(0)).(killed := true), false);
    NextPid(2);
    assert Killed(s1.table, s2.table, 1, 0) && FirstUnused(s2.table, 1);
    assert map[0 := 1] - {0} == map[];
    hide Pid32, Next32;
    states := [s0, s1, s2, s3, s4, s5];
    steps := [Schedule(0, RUNNING), Kill(1, 0), Alloc(0, 1, 0), SetParent(0), Ready(0)];
  }

  // ---- every zombie is reaped at most once, by its parent ----

  /** The j-th step is a wait or waitx that returns the process born as `b`. */
  predicate ReapsAt(states: seq<State>, steps: seq<Step>, j: nat, b: nat) {
    && j < |steps| < |states| && steps[j].Wait? && steps[j].w.Reaped?
    && steps[j].w.p < |states[j].births| && states[j].births[steps[j].w.p] == b
  }

  lemma ReapsGrow(s: State, step: Step, t: State)
    requires |s.births| == |s.table| && Next(s, step, t)
    ensures if step.Wait? && step.w.Reaped? then
              step.w.p < |s.births| && step.cur < |s.births|
              && t.reaps == s.reaps + [Reap(s.births[step.w.p], s.births[step.cur])]
            else t.reaps == s.reaps
  {
  }

  lemma {:induction false} ReapsPrefix(states: seq<State>, steps: seq<Step>, i: nat, k: nat)
    requires IsRun(states, steps) && i <= k < |states|
    ensures states[i].reaps <= states[k].reaps
    decreases k
  {
    hide Next, Init;
    if i < k {
      ReapsPrefix(states, steps, i, k - 1);
      ReapsGrow(states[k - 1], steps[k - 1], states[k]);
    }
  }

  /** Each entry of `reaps` comes from a step. */
  lemma {:induction false} ReapStep(states: seq<State>, steps: seq<Step>, k: nat, i: nat) returns (j: nat)
    requires IsRun(states, steps) && k < |states| && i < |states[k].reaps|
    ensures j < k && ReapsAt(states, steps, j, states[k].reaps[i].child)
    decreases k
  {
    hide Next, Init;
    RunStart(states, steps);
    ReapsGrow(states[k - 1], steps[k - 1], states[k]);
    if i == |states[k - 1].reaps| {
      j := k - 1;
    } else {
      j := ReapStep(states, steps, k - 1, i);
    }
  }

  lemma RunStart(states: seq<State>, steps: seq<Step>)
    requires IsRun(states, steps)
    ensures states[0].reaps == []
  {
  }

  /** Where the reaping of the j-th step is recorded. */
  lemma ReapRecorded(states: seq<State>, steps: seq<Step>, k: nat, j: nat, b: nat)
    requires IsRun(states, steps) && j < k < |states| && ReapsAt(states, steps, j, b)
    ensures |states[j].reaps| < |states[k].reaps| && states[k].reaps[|states[j].reaps|].child == b
  {
    hide Next, Init;
    ReapsGrow(states[j], steps[j], states[j + 1]);
    ReapsPrefix(states, steps, j + 1, k);
  }

  lemma OneReap(states: seq<State>, steps: seq<Step>, k: nat, i: nat, j: nat, b: nat)
    requires IsRun(states, steps) && i < k < |states| && j < k
    requires ReapsAt(states, steps, i, b) && ReapsAt(states, steps, j, b)
    ensures i == j
  {
    hide Init, Next, Tree, Births, Waiters, Forks, Pids, IsRun, ReapsAt;
    RunHolds(states, steps, k);
    ReapRecorded(states, steps, k, i, b);
    ReapRecorded(states, steps, k, j, b);
    if i < j {
      ReapRecorded(states, steps, j, i, b);
    } else if j < i {
      ReapRecorded(states, steps, i, j, b);
    }
  }

  /** In any run, each process that exited is either a zombie in the table, and no wait or waitx has returned
      it, or exactly one step has. */
  lemma ReapedOnce(states: seq<State>, steps: seq<Step>, k: nat, b: nat)
    requires IsRun(states, steps) && k < |states| && b in states[k].exited
    ensures |states[k].births| == |states[k].table|
    ensures (exists p :: IsZombie(states[k], p, b)) <==> !exists j | 0 <= j < k :: ReapsAt(states, steps, j, b)
    ensures forall i, j | 0 <= i < k && 0 <= j < k && ReapsAt(states, steps, i, b) && ReapsAt(states, steps, j, b) ::
              i == j
  {
    hide Init, Next, Tree, Births, Waiters, Forks, Pids, IsRun, ReapsAt;
    RunHolds(states, steps, k);
    if WasReaped(states[k], b) {
      var i :| 0 <= i < |states[k].reaps| && states[k].reaps[i].child == b;
      var j := ReapStep(states, steps, k, i);
      assert ReapsAt(states, steps, j, b);
    }
    forall j: nat | j < k && ReapsAt(states, steps, j, b)
      ensures WasReaped(states[k], b)
    {
      ReapRecorded(states, steps, k, j, b);
    }
    forall i: nat, j: nat | i < k && j < k && ReapsAt(states, steps, i, b) && ReapsAt(states, steps, j, b)
      ensures i == j
    {
      OneReap(states, steps, k, i, j, b);
    }
  }

  /** The one step that returns an exited process is a call by its parent at that time, which gets its pid. */
  lemma ReapedByParent(states: seq<State>, steps: seq<Step>, k: nat, b: nat) returns (j: nat)
    requires IsRun(states, steps) && k < |states| && b in states[k].exited
    requires !exists p :: IsZombie(states[k], p, b)
    ensures j < k && ReapsAt(states, steps, j, b)
    ensures forall i | 0 <= i < k && ReapsAt(states, steps, i, b) :: i == j
    ensures var t, cur, w := states[j].table, steps[j].cur, steps[j].w;
            && |states[j].births| == |t| && IsZombie(states[j], w.p, b) && b in states[j].exited
            && IsChild(t, w.p, cur) && t[w.p].pid == w.pid
            && states[j + 1].table == t[w.p := Cleared(t[w.p])]
  {
    ReapedOnce(states, steps, k, b);
    assert exists i | 0 <= i < k :: ReapsAt(states, steps, i, b);
    j :| 0 <= j < k && ReapsAt(states, steps, j, b);
    hide Init, Tree, Births, Waiters, Forks, Pids;
    RunHolds(states, steps, j);
    assert Next(states[j], steps[j], states[j + 1]);
  }

  /** No wakeup of a parent is lost: in any run, whoever sleeps in wait has children, none of them a zombie,
      and was not killed. */
  lemma NoZombieForgotten(states: seq<State>, steps: seq<Step>, k: nat, p: nat)
    requires IsRun(states, steps) && k < |states| && p < |states[k].table| && SleepsOn(states[k].table[p], Slot(p))
    ensures !HasZombie(states[k].table, p, |states[k].table|) && !states[k].table[p].killed
    ensures exists c :: IsChild(states[k].table, c, p)
  {
    RunHolds(states, steps, k);
  }

  /** In any run, an UNUSED slot has no parent, and every other slot but an embryo hangs below initproc. */
  lemma TableIsTree(states: seq<State>, steps: seq<Step>, k: nat, p: nat) returns (n: nat)
    requires IsRun(states, steps) && k < |states| && p < |states[k].table|
    ensures states[k].table[p].state == UNUSED ==> states[k].table[p].parent.None?
    ensures states[k].table[p].state != UNUSED && states[k].table[p].state != EMBRYO ==>
        Ancestor(states[k].table, p, n) == Some(0)
  {
    RunHolds(states, steps, k);
    n := 0;
    if states[k].table[p].state != UNUSED && states[k].table[p].state != EMBRYO {
      n := RootedAtInit(states[k], p);
    }
  }
}
