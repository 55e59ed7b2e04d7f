/** What a slot of the process table holds, over whole runs: the times of the process that is in it, and no trace of
    the ones that were there before, but for the mark of a kill (proc.c). */
module ProcTimes {
  import opened Words
  import opened ProcTable
  import opened ProcRuns

  /** Fork takes slot `p`. */
  predicate Takes(step: Step, p: nat) {
    step.Alloc? && step.i == p
  }

  /** Step `j` was the last of the first `k` steps in which fork took slot `p`. */
  predicate LastTaken(steps: seq<Step>, p: nat, j: nat, k: nat)
    requires k <= |steps|
  {
    j < k && Takes(steps[j], p) && forall m | j < m < k :: !Takes(steps[m], p)
  }

  /** The run time that slot `p` got in the steps from `j` to before `k`. */
  function RanIn(steps: seq<Step>, p: nat, j: nat, k: nat): nat
    requires j <= k <= |steps|
  {
    if j == k then 0
    else RanIn(steps, p, j, k - 1) + if steps[k - 1].Ran? && steps[k - 1].p == p then steps[k - 1].n else 0
  }

  /** The process in the slot exited at time `etime`, between these steps. */
  predicate ExitedIn(steps: seq<Step>, p: nat, j: nat, k: nat, etime: int)
    requires k <= |steps|
  {
    exists x | j < x < k :: steps[x] == Step.Exit(p, etime)
  }

  /** What one step does to a slot that fork does not take. */
  lemma SlotStep(s: State, step: Step, t: State, p: nat)
    requires |s.births| == |s.table| && Forks(s) && Next(s, step, t) && p < |s.table| && !Takes(step, p)
    ensures p < |t.table| && |t.births| == |t.table| && t.births[p] == s.births[p]
    ensures t.table[p].state != UNUSED ==>
      && s.table[p].state != UNUSED && t.table[p].pid == s.table[p].pid && t.table[p].ctime == s.table[p].ctime
      && t.table[p].rtime == s.table[p].rtime + (if step.Ran? && step.p == p then step.n else 0)
      && (t.table[p].state == ZOMBIE <==> s.table[p].state == ZOMBIE || (step.Exit? && step.cur == p))
      && t.table[p].etime == (if step.Exit? && step.cur == p then step.ticks else s.table[p].etime)
      && (step.Exit? && step.cur == p ==> s.table[p].state != ZOMBIE)
  {
    SameSize(s, step, t);
    if Filling(step) { FillingFills(s, step, t); }
  }

  lemma TakenStep(s: State, step: Step, t: State, p: nat)
    requires |s.births| == |s.table| && Next(s, step, t) && Takes(step, p)
    ensures p < |t.table| && |t.births| == |t.table| && t.births[p] == s.allocs
    ensures t.table[p].pid == s.nextpid && t.table[p].ctime == step.ticks && t.table[p].state == EMBRYO
    ensures t.table[p].rtime == 0 && t.table[p].etime == -1
  {
  }

  /** In every run, whatever the slot held before: the process in it was born, got its pid and its ctime when fork
      last took the slot; its rtime is the run time since then; its etime is -1 until it exits, and then the time at
      which it did. */
  lemma {:induction false} TimesAreItsOwn(states: seq<State>, steps: seq<Step>, k: nat, p: nat, j: nat)
    requires IsRun(states, steps) && k <= |steps| && p < |states[0].table| && LastTaken(steps, p, j, k)
    ensures p < |states[k].table| && |states[k].births| == |states[k].table|
    ensures var x := states[k].table[p]; x.state != UNUSED ==>
      && states[k].births[p] == states[j].allocs && x.pid == states[j].nextpid && x.ctime == steps[j].ticks
      && x.rtime == RanIn(steps, p, j + 1, k)
      && (if x.state == ZOMBIE then ExitedIn(steps, p, j, k, x.etime) else x.etime == -1)
  {
    hide Next, Init, Forks;
    RunForks(states, steps, k - 1);
    RunSize(states, steps, k - 1);
    if j == k - 1 {
      TakenStep(states[j], steps[j], states[k], p);
    } else {
      assert LastTaken(steps, p, j, k - 1);
      TimesAreItsOwn(states, steps, k - 1, p, j);
      SlotStep(states[k - 1], steps[k - 1], states[k], p);
      var x := states[k].table[p];
      if x.state == ZOMBIE {
        if steps[k - 1].Exit? && steps[k - 1].cur == p {
          assert steps[k - 1] == Step.Exit(p, x.etime);
        } else {
          var y :| j < y < k - 1 && steps[y] == Step.Exit(p, x.etime);
          assert steps[y] == Step.Exit(p, x.etime) && j < y < k;
        }
      }
    }
  }

  /** A process other than the first one was born in the run. */
  lemma {:induction false} WasTaken(states: seq<State>, steps: seq<Step>, k: nat, p: nat) returns (j: nat)
    requires IsRun(states, steps) && k <= |steps| && 0 < p < |states[0].table|
    ensures p < |states[k].table| && (states[k].table[p].state != UNUSED ==> LastTaken(steps, p, j, k))
  {
    hide Next, Init, Forks;
    j := 0;
    RunSize(states, steps, k);
    if k == 0 {
      FirstUnusedSlots(states, steps, p);
    } else {
      RunForks(states, steps, k - 1);
      RunSize(states, steps, k - 1);
      if Takes(steps[k - 1], p) {
        j := k - 1;
      } else {
        j := WasTaken(states, steps, k - 1, p);
        SlotStep(states[k - 1], steps[k - 1], states[k], p);
      }
    }
  }

  lemma FirstUnusedSlots(states: seq<State>, steps: seq<Step>, p: nat)
    requires IsRun(states, steps) && 0 < p < |states[0].table|
    ensures states[0].table[p].state == UNUSED
  {
    hide Next;
  }

  /** So waitx reports the times of the child it returns: rtime is what that child ran, and the time between its
      birth and its exit is that and the waiting time. */
  lemma ReapedTimes(states: seq<State>, steps: seq<Step>, k: nat) returns (j: nat, x: nat)
    requires IsRun(states, steps) && k < |steps| && steps[k].Wait? && steps[k].w.Reaped?
    ensures j < x < k && steps[k].w.p < |states[k].table| && LastTaken(steps, steps[k].w.p, j, k)
    ensures steps[x].Exit? && steps[x].cur == steps[k].w.p
    ensures var z := states[k].table[steps[k].w.p];
            && z.rtime == RanIn(steps, steps[k].w.p, j + 1, k) && z.etime == steps[x].ticks && z.ctime == steps[j].ticks
            && z.pid == states[j].nextpid
  {
    var p := steps[k].w.p;
    RunSize(states, steps, k);
    ReapedIsChild(states, steps, k);
    hide Next, Init, IsRun;
    j := WasTaken(states, steps, k, p);
    TimesAreItsOwn(states, steps, k, p, j);
    x :| j < x < k && steps[x] == Step.Exit(p, states[k].table[p].etime);
  }

  lemma ReapedIsChild(states: seq<State>, steps: seq<Step>, k: nat)
    requires IsRun(states, steps) && k < |steps| && steps[k].Wait? && steps[k].w.Reaped?
    ensures 0 < steps[k].w.p < |states[k].table| && states[k].table[steps[k].w.p].state == ZOMBIE
  {
    hide Init, Past, Waiters, Forks, Births, Pids;
    RunHolds(states, steps, k);
    assert Next(states[k], steps[k], states[k + 1]);
  }

  /** A slot that wait emptied stays empty, without a pid or a parent, until fork takes it again; so kill finds nobody
      by the pid of a process that is gone. */
  lemma {:induction false} EmptyStays(states: seq<State>, steps: seq<Step>, m: nat, k: nat, p: nat)
    requires IsRun(states, steps) && m < k <= |steps| && p < |states[0].table| && Empties(steps[m], p)
    requires forall i | m < i < k :: !Takes(steps[i], p)
    ensures p < |states[k].table|
    ensures var x := states[k].table[p]; x.state == UNUSED && x.pid == 0 && x.parent.None?
  {
    hide Init, Forks;
    RunForks(states, steps, k - 1);
    RunSize(states, steps, k);
    assert Next(states[k - 1], steps[k - 1], states[k]);
    if m < k - 1 {
      EmptyStays(states, steps, m, k - 1, p);
      EmptyStep(states[k - 1], steps[k - 1], states[k], p);
    }
  }

  lemma EmptyStep(s: State, step: Step, t: State, p: nat)
    requires |s.births| == |s.table| && Forks(s) && Next(s, step, t) && p < |s.table| && !Takes(step, p)
    requires s.table[p].state == UNUSED && s.table[p].pid == 0 && s.table[p].parent.None?
    ensures p < |t.table| && t.table[p].state == UNUSED && t.table[p].pid == 0 && t.table[p].parent.None?
  {
    SameSize(s, step, t);
    if Filling(step) { FillingFills(s, step, t); }
  }

  /** kill hit slot `p` in the first `k` steps, and nobody emptied it since. */
  predicate KilledSince(steps: seq<Step>, k: nat, p: nat)
    requires k <= |steps|
  {
    exists i | 0 <= i < k :: steps[i].Kill? && steps[i].i == p && forall m | i < m < k :: !Empties(steps[m], p)
  }

  lemma KilledStep(s: State, step: Step, t: State, p: nat)
    requires |s.births| == |s.table| && Forks(s) && Next(s, step, t) && p < |s.table|
    ensures p < |t.table|
    ensures t.table[p].killed <==> (step.Kill? && step.i == p) || (s.table[p].killed && !Empties(step, p))
  {
    SameSize(s, step, t);
    if Filling(step) { FillingFills(s, step, t); }
  }

  /** A process is marked exactly if kill hit its slot since it was last emptied; fork does not clear the mark. */
  lemma {:induction false} MarkedSince(states: seq<State>, steps: seq<Step>, k: nat, p: nat)
    requires IsRun(states, steps) && k <= |steps| && p < |states[0].table|
    ensures p < |states[k].table| && (states[k].table[p].killed <==> KilledSince(steps, k, p))
  {
    hide Next, Init, Forks, Empties;
    if k == 0 {
      FirstUnmarked(states, steps, p);
    } else {
      MarkedSince(states, steps, k - 1, p);
      RunForks(states, steps, k - 1);
      KilledStep(states[k - 1], steps[k - 1], states[k], p);
      KilledMore(steps, k - 1, p);
    }
  }

  lemma KilledMore(steps: seq<Step>, k: nat, p: nat)
    requires k < |steps|
    ensures KilledSince(steps, k + 1, p)
        <==> (steps[k].Kill? && steps[k].i == p) || (KilledSince(steps, k, p) && !Empties(steps[k], p))
  {
    hide Empties;
    if KilledSince(steps, k, p) && !Empties(steps[k], p) {
      var i :| 0 <= i < k && steps[i].Kill? && steps[i].i == p && forall m | i < m < k :: !Empties(steps[m], p);
      assert forall m | i < m < k + 1 :: !Empties(steps[m], p);
    }
    if KilledSince(steps, k + 1, p) && !(steps[k].Kill? && steps[k].i == p) {
      var i :| 0 <= i < k + 1 && steps[i].Kill? && steps[i].i == p && forall m | i < m < k + 1 :: !Empties(steps[m], p);
      assert i < k && !Empties(steps[k], p);
    }
  }

  lemma FirstUnmarked(states: seq<State>, steps: seq<Step>, p: nat)
    requires IsRun(states, steps) && p < |states[0].table|
    ensures !states[0].table[p].killed
  {
    hide Next;
  }
}
