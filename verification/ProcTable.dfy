/** The process table (proc.c). Each method is what one critical section of ptable.lock does. */
module ProcTable {
  import opened Words

  datatype ProcState = UNUSED | EMBRYO | SLEEPING | RUNNABLE | RUNNING | ZOMBIE

  /** What a process sleeps on: the address of a slot (in wait), or of anything else. */
  datatype Chan = Slot(i: nat) | Other(addr: nat)

  /** struct proc; `parent` is the index of a slot. */
  datatype Proc = Proc(state: ProcState, pid: int, parent: Option<nat>, chan: Option<Chan>, killed: bool,
                       ctime: int, rtime: int, etime: int)

  type Table = seq<Proc>

  /** `nextpid++` on a 32-bit int. */
  function Next32(x: int): int {
    if x == 0x7FFF_FFFF then -0x8000_0000 else x + 1
  }

  // ---- what the critical sections do ----

  predicate SleepsOn(p: Proc, c: Chan) {
    p.state == SLEEPING && p.chan == Some(c)
  }

  /** wakeup1 */
  function Woken(t: Table, c: Chan): (r: Table)
    ensures |r| == |t| && forall p {:trigger r[p]} | 0 <= p < |t| ::
        r[p] == if SleepsOn(t[p], c) then t[p].(state := RUNNABLE) else t[p]
  {
    seq(|t|, p requires 0 <= p < |t| => if SleepsOn(t[p], c) then t[p].(state := RUNNABLE) else t[p])
  }

  predicate IsChild(t: Table, p: nat, cur: nat) {
    p < |t| && t[p].parent == Some(cur)
  }

  ghost predicate HasZombie(t: Table, cur: nat, upto: nat) {
    exists p | 0 <= p < upto && p < |t| :: IsChild(t, p, cur) && t[p].state == ZOMBIE
  }

  /** Which slots are woken when `cur` exits: its parent's, and that of init if there are zombies to inherit. */
  ghost predicate WakesOnExit(t: Table, p: nat, cur: nat, init: nat)
    requires p < |t| && cur < |t|
  {
    && t[p].state == SLEEPING
    && ((t[cur].parent.Some? && t[p].chan == Some(Slot(t[cur].parent.value)))
        || (t[p].chan == Some(Slot(init)) && HasZombie(t, cur, |t|)))
  }

  /** The table after exit: `cur` is a ZOMBIE, its children belong to init, and nothing else changed. */
  ghost predicate Exited(t: Table, r: Table, cur: nat, init: nat, ticks: int)
    requires cur < |t|
  {
    && |r| == |t|
    && forall p {:trigger r[p]} | 0 <= p < |t| ::
         r[p] == t[p].(
           state := if p == cur then ZOMBIE else if WakesOnExit(t, p, cur, init) then RUNNABLE else t[p].state,
           parent := if t[p].parent == Some(cur) then Some(init) else t[p].parent,
           etime := if p == cur then ticks else t[p].etime)
  }

  /** A reaped slot. */
  function Cleared(p: Proc): Proc {
    p.(state := UNUSED, pid := 0, parent := None, killed := false)
  }

  /** What one turn of the loop of wait comes to. */
  datatype WaitResult = Reaped(p: nat, pid: int) | NoChildren | Slept

  /** The contract of that turn. */
  ghost predicate Waited(t: Table, r: Table, cur: nat, w: WaitResult)
    requires cur < |t|
  {
    match w
    case Reaped(z, pid) =>
      && z < |t| && IsChild(t, z, cur) && t[z].state == ZOMBIE && !HasZombie(t, cur, z) && pid == t[z].pid
      && r == t[z := Cleared(t[z])]
    case NoChildren =>
      !HasZombie(t, cur, |t|) && (t[cur].killed || forall p | 0 <= p < |t| :: !IsChild(t, p, cur)) && r == t
    case Slept =>
      && !HasZombie(t, cur, |t|) && !t[cur].killed && (exists p | 0 <= p < |t| :: IsChild(t, p, cur))
      && r == t[cur := t[cur].(state := SLEEPING, chan := Some(Slot(cur)))]
  }

  /** The table after kill found slot `i`. */
  predicate Killed(t: Table, r: Table, i: nat, pid: int) {
    && i < |t| && t[i].pid == pid && (forall q | 0 <= q < i :: t[q].pid != pid)
    && r == t[i := t[i].(killed := true, state := if t[i].state == SLEEPING then RUNNABLE else t[i].state)]
  }

  /** The first slot that is UNUSED. */
  predicate FirstUnused(t: Table, i: nat) {
    i < |t| && t[i].state == UNUSED && forall p | 0 <= p < i :: t[p].state != UNUSED
  }

  function Embryo(p: Proc, pid: int, ticks: int): Proc {
    p.(state := EMBRYO, pid := pid, ctime := ticks, rtime := 0, etime := -1)
  }

  class PTable {
    const procs: array<Proc>
    const initproc: nat
    var nextpid: int

    constructor (procs: array<Proc>, initproc: nat)
      ensures this.procs == procs && this.initproc == initproc && nextpid == 1
    {
      this.procs, this.initproc, nextpid := procs, initproc, 1;
    }

    /** allocproc: None if there is no slot, or, after the slot was taken for a while, no memory for the
        kernel stack. */
    method Allocproc(memory: bool, ticks: int) returns (r: Option<nat>)
      modifies this`nextpid, procs
      ensures r.Some? ==>
        && memory && FirstUnused(old(procs[..]), r.value) && nextpid == Next32(old(nextpid))
        && procs[..] == old(procs[..])[r.value := Embryo(old(procs[..])[r.value], old(nextpid), ticks)]
      ensures r.Some? ==>
        && procs[r.value].state == EMBRYO && procs[r.value].pid == old(nextpid)
        && procs[r.value].ctime == ticks && procs[r.value].rtime == 0 && procs[r.value].etime == -1
        && procs[r.value].parent == old(procs[r.value].parent) && procs[r.value].killed == old(procs[r.value].killed)
      ensures r.None? ==>
        if forall p | 0 <= p < procs.Length :: old(procs[..])[p].state != UNUSED then
          procs[..] == old(procs[..]) && nextpid == old(nextpid)
        else
          && !memory && nextpid == Next32(old(nextpid))
          && exists i: nat ::
               && FirstUnused(old(procs[..]), i)
               && procs[..] == old(procs[..])[i := old(procs[..])[i].(pid := old(nextpid))]
    {
      var i := 0;
      while i < procs.Length && procs[i].state != UNUSED
        invariant i <= procs.Length && forall p | 0 <= p < i :: procs[p].state != UNUSED
      {
        i := i + 1;
      }
      if i == procs.Length {
        return None;
      }
      assert FirstUnused(old(procs[..]), i);
      procs[i] := procs[i].(state := EMBRYO);
      procs[i] := procs[i].(pid := nextpid);
      nextpid := Next32(nextpid);
      if !memory {
        procs[i] := procs[i].(state := UNUSED);
        assert procs[..] == old(procs[..])[i := old(procs[..])[i].(pid := old(nextpid))];
        return None;
      }
      procs[i] := procs[i].(ctime := ticks, rtime := 0, etime := -1);
      r := Some(i);
    }

    /** fork, run by `cur` without interruption; -1 if there is no slot or no memory for stack or pages. */
    method Fork(cur: nat, stack: bool, pages: bool, ticks: int) returns (pid: int, ghost np: nat)
      requires cur < procs.Length
      modifies this`nextpid, procs
      ensures stack && pages && (exists p | 0 <= p < procs.Length :: old(procs[..])[p].state == UNUSED) ==>
        && FirstUnused(old(procs[..]), np) && pid == old(nextpid)
        && procs[..] == old(procs[..])[np := Embryo(old(procs[..])[np], pid, ticks).(parent := Some(cur),
           state := RUNNABLE)]
        && procs[np].state == RUNNABLE && procs[np].pid == pid && procs[np].parent == Some(cur)
        && procs[np].ctime == ticks && procs[np].rtime == 0 && procs[np].etime == -1
        && nextpid == Next32(pid)
      ensures !stack || !pages || (forall p | 0 <= p < procs.Length :: old(procs[..])[p].state != UNUSED) ==> pid == -1
      ensures (forall p | 0 <= p < procs.Length :: old(procs[..])[p].state != UNUSED) ==> procs[..] == old(procs[..])
      ensures stack && !pages && (exists p | 0 <= p < procs.Length :: old(procs[..])[p].state == UNUSED) ==>
        && FirstUnused(old(procs[..]), np)
        && procs[..] == old(procs[..])[np := Embryo(old(procs[..])[np], old(nextpid), ticks).(state := UNUSED)]
      ensures !stack ==> forall p | 0 <= p < procs.Length :: procs[p].(pid := 0) == old(procs[p]).(pid := 0)
    {
      np := 0;
      var i := Allocproc(stack, ticks);
      if i.None? {
        return -1, 0;
      }
      np := i.value;
      if !pages {
        procs[i.value] := procs[i.value].(state := UNUSED);
        return -1, np;
      }
      procs[i.value] := procs[i.value].(parent := Some(cur));
      pid := procs[i.value].pid;
      procs[i.value] := procs[i.value].(state := RUNNABLE);
    }

    /** increment_times, on a timer interrupt: whoever runs has run for one tick more. */
    method IncrementTimes()
      modifies procs
      ensures forall p | 0 <= p < procs.Length ::
        procs[p] == old(procs[p]).(rtime := old(procs[p].rtime) + if old(procs[p].state) == RUNNING then 1 else 0)
    {
      for p := 0 to procs.Length
        invariant forall q | 0 <= q < p ::
          procs[q] == old(procs[q]).(rtime := old(procs[q].rtime) + if old(procs[q].state) == RUNNING then 1 else 0)
        invariant forall q | p <= q < procs.Length :: procs[q] == old(procs[q])
      {
        if procs[p].state == RUNNING {
          procs[p] := procs[p].(rtime := procs[p].rtime + 1);
        }
      }
    }

    /** kill: the first slot with this pid is marked, and woken if it sleeps. A slot that fork gave up keeps
        its pid, so the slot found may be UNUSED. */
    method Kill(pid: int) returns (r: int)
      modifies procs
      ensures if exists p | 0 <= p < procs.Length :: old(procs[..])[p].pid == pid then
                r == 0 && exists i | 0 <= i < procs.Length :: Killed(old(procs[..]), procs[..], i, pid)
              else r == -1 && procs[..] == old(procs[..])
      ensures r == 0 ==> exists i | 0 <= i < procs.Length ::
        && old(procs[..])[i].pid == pid && procs[i].pid == pid && procs[i].killed && procs[i].state != SLEEPING
        && (procs[i].state != old(procs[..])[i].state ==> procs[i].state == RUNNABLE)
        && forall q | 0 <= q < procs.Length && q != i :: procs[q] == old(procs[..])[q]
    {
      ghost var t := procs[..];
      for p := 0 to procs.Length
        invariant procs[..] == t && forall q | 0 <= q < p :: procs[q].pid != pid
      {
        if procs[p].pid == pid {
          procs[p] := procs[p].(killed := true);
          if procs[p].state == SLEEPING {
            procs[p] := procs[p].(state := RUNNABLE);
          }
          assert Killed(t, procs[..], p, pid);
          return 0;
        }
      }
      r := -1;
    }

    /** wakeup1 */
    method Wakeup1(c: Chan)
      modifies procs
      ensures procs[..] == Woken(old(procs[..]), c)
    {
      for p := 0 to procs.Length
        invariant forall q | 0 <= q < p :: procs[q] == Woken(old(procs[..]), c)[q]
        invariant forall q | p <= q < procs.Length :: procs[q] == old(procs[q])
      {
        if procs[p].state == SLEEPING && procs[p].chan == Some(c) {
          procs[p] := procs[p].(state := RUNNABLE);
        }
      }
    }

    /** exit, from where it holds ptable.lock; initproc may not call it. */
    method Exit(cur: nat, ticks: int)
      requires cur < procs.Length && cur != initproc && procs[cur].state == RUNNING
      modifies procs
      ensures Exited(old(procs[..]), procs[..], cur, initproc, ticks)
      ensures procs[cur].state == ZOMBIE && procs[cur].etime == ticks && procs[cur].pid == old(procs[cur].pid)
      ensures procs[cur].ctime == old(procs[cur].ctime) && procs[cur].rtime == old(procs[cur].rtime)
      ensures forall p | 0 <= p < procs.Length :: procs[p].parent != Some(cur) || cur == initproc
      ensures forall p | 0 <= p < procs.Length && old(procs[p].parent) == Some(cur) :: procs[p].parent == Some(initproc)
      ensures forall p | 0 <= p < procs.Length && old(procs[p].parent) != Some(cur) ::
          procs[p].parent == old(procs[p].parent)
    {
      ghost var t := procs[..];
      var parent := procs[cur].parent;
      if parent.Some? {
        Wakeup1(Slot(parent.value));
      }
      ghost var u := procs[..];
      for p := 0 to procs.Length
        invariant forall q | 0 <= q < procs.Length ::
          procs[q] == u[q].(state := if SleepsOn(u[q], Slot(initproc))
              && HasZombie(t, cur, p) then RUNNABLE else u[q].state,
                            parent := if q < p && t[q].parent == Some(cur) then Some(initproc) else t[q].parent)
      {
        if procs[p].parent == Some(cur) {
          procs[p] := procs[p].(parent := Some(initproc));
          if procs[p].state == ZOMBIE {
            assert IsChild(t, p, cur);
            Wakeup1(Slot(initproc));
          }
        }
      }
      procs[cur] := procs[cur].(etime := ticks);
      procs[cur] := procs[cur].(state := ZOMBIE);
    }

    /** The loop over the table in wait and waitx. */
    method FindChild(cur: nat) returns (havekids: bool, z: Option<nat>)
      ensures z.Some? ==> z.value < procs.Length && IsChild(procs[..], z.value, cur) && procs[z.value].state == ZOMBIE
                          && !HasZombie(procs[..], cur, z.value)
      ensures z.None? ==> !HasZombie(procs[..], cur, procs.Length)
      ensures havekids <==> exists p | 0 <= p < procs.Length :: IsChild(procs[..], p, cur)
    {
      havekids := false;
      var p := 0;
      while p < procs.Length
        invariant p <= procs.Length && !HasZombie(procs[..], cur, p)
        invariant havekids <==> exists q | 0 <= q < p :: IsChild(procs[..], q, cur)
      {
        if procs[p].parent == Some(cur) {
          assert IsChild(procs[..], p, cur);
          havekids := true;
          if procs[p].state == ZOMBIE {
            return true, Some(p);
          }
        }
        p := p + 1;
      }
      z := None;
    }

    /** One turn of wait's outer loop. */
    method Wait(cur: nat) returns (w: WaitResult)
      requires cur < procs.Length
      modifies procs
      ensures Waited(old(procs[..]), procs[..], cur, w)
      ensures w.Reaped? ==>
        && w.p < procs.Length && procs[w.p].state == UNUSED && procs[w.p].pid == 0
        && procs[w.p].parent == None && !procs[w.p].killed
    {
      var havekids, z := FindChild(cur);
      if z.Some? {
        var p := z.value;
        var pid := procs[p].pid;
        procs[p] := procs[p].(pid := 0, parent := None, killed := false, state := UNUSED);
        return Reaped(p, pid);
      }
      if !havekids || procs[cur].killed {
        return NoChildren;
      }
      procs[cur] := procs[cur].(chan := Some(Slot(cur)), state := SLEEPING);
      w := Slept;
    }

    /** One turn of waitx's outer loop: like wait, and for a reaped child the time it spent neither
        running nor exited, and the time it ran. */
    method Waitx(cur: nat, ticks: int) returns (w: WaitResult, wtime: int, rtime: int)
      requires cur < procs.Length
      modifies procs
      ensures Waited(old(procs[..]), procs[..], cur, w)
      ensures w.Reaped? ==>
        && w.p < procs.Length && procs[w.p].state == UNUSED && procs[w.p].pid == 0
        && procs[w.p].parent == None && !procs[w.p].killed
      ensures w.Reaped? ==>
        var z := old(procs[..])[w.p];
        rtime == z.rtime && wtime == (if z.etime == -1 then ticks else z.etime) - z.ctime - z.rtime
    {
      wtime, rtime := 0, 0;
      var havekids, z := FindChild(cur);
      if z.Some? {
        var p := z.value;
        if procs[p].etime == -1 {
          wtime := ticks - procs[p].ctime - procs[p].rtime;
        } else {
          wtime := procs[p].etime - procs[p].ctime - procs[p].rtime;
        }
        rtime := procs[p].rtime;
        var pid := procs[p].pid;
        procs[p] := procs[p].(state := UNUSED, pid := 0, parent := None, killed := false);
        return Reaped(p, pid), wtime, rtime;
      }
      if !havekids || procs[cur].killed {
        return NoChildren, wtime, rtime;
      }
      procs[cur] := procs[cur].(chan := Some(Slot(cur)), state := SLEEPING);
      w := Slept;
    }
  }
}
