/** Whole runs of the logging protocol of log.c: any interleaving of file system operations, one
    disk write at a time, with crashes anywhere, also inside recovery. */
module LogRuns {
  import opened Words
  import opened Bio
  import opened LogFormat

  /** The log's place and size on disk, MAXOPBLOCKS and LOGSIZE. */
  datatype Config = Config(l: Layout, disksize: nat, maxop: nat, logsize: nat)

  ghost predicate ConfigOK(c: Config) {
    0 < c.logsize < WORDS_PER_BLOCK && 0 < c.l.size && c.l.start + c.l.size <= c.disksize <= TWO32
  }

  type OpId = nat

  /** A log_write by an operation. */
  datatype OpWrite = OpWrite(op: OpId, blockno: nat, data: Block)

  /** An outstanding operation, and how many block numbers it has appended to the log so far. */
  datatype Op = Op(id: OpId, used: nat)

  /** The log_writes of the operations that shared a commit; `durable` once its header was written,
      and never if a crash came first. */
  datatype Group = Group(writes: seq<OpWrite>, durable: bool)

  datatype Phase =
    | Running
    | Committing(base: Image, k: nat)    // `k` writes of the commit have reached the disk
    | Down
    | Recovering(base: Image, k: nat)

  /** `groups` and `pending` record the past: the groups so far in order, and the log_writes since
      the last of them. */
  datatype State = State(
    disk: Image, latest: Image, lh: seq<nat>, ops: seq<Op>, phase: Phase,
    groups: seq<Group>, pending: seq<OpWrite>)

  datatype Step =
    | Begin(id: OpId)
    | LogWrite(i: nat, blockno: nat, data: Block)
    | End(i: nat)
    | CommitWrite
    | CommitDone
    | Crash
    | Reboot
    | RecoveryWrite
    | RecoveryDone

  // ---- what the run has been asked to write ----

  /** The image after the given log_writes, in order. */
  function Effect(img: Image, ws: seq<OpWrite>): (r: Image)
    ensures |r| == |img|
  {
    if ws == [] then img
    else
      var w, before := ws[|ws| - 1], Effect(img, ws[..|ws| - 1]);
      if w.blockno < |img| then before[w.blockno := w.data] else before
  }

  /** The image after the durable groups. */
  function DurableEffect(img: Image, groups: seq<Group>): (r: Image)
    ensures |r| == |img|
  {
    if groups == [] then img
    else
      var g, before := groups[|groups| - 1], DurableEffect(img, groups[..|groups| - 1]);
      if g.durable then Effect(before, g.writes) else before
  }

  predicate Mentions(ws: seq<OpWrite>, id: OpId) {
    exists w <- ws :: w.op == id
  }

  predicate HasOp(ops: seq<Op>, id: OpId) {
    exists j | 0 <= j < |ops| :: ops[j].id == id
  }

  /** No operation of the past has this name. */
  predicate Fresh(s: State, id: OpId) {
    && (forall i | 0 <= i < |s.groups| :: !Mentions(s.groups[i].writes, id))
    && !Mentions(s.pending, id)
    && !HasOp(s.ops, id)
  }

  // ---- the steps ----

  /** begin_op's condition for going ahead. */
  predicate RoomFor(c: Config, s: State) {
    s.phase.Running? && |s.lh| + (|s.ops| + 1) * c.maxop <= c.logsize
  }

  /** The condition under which log_write panics ("too big a transaction"). */
  predicate Panics(c: Config, s: State) {
    |s.lh| >= c.logsize || |s.lh| >= c.l.size - 1
  }

  function Append(lh: seq<nat>, b: nat): seq<nat> {
    if b in lh then lh else lh + [b]
  }

  ghost predicate Next(c: Config, s: State, step: Step, t: State) {
    match step
    case Begin(id) =>
      && RoomFor(c, s) && Fresh(s, id)
      && t == s.(ops := s.ops + [Op(id, 0)])
    case LogWrite(i, b, data) =>
      && s.phase.Running? && i < |s.ops| && b < c.disksize && Home(c.l, b) && !Panics(c, s)
      && t == s.(latest := if b < |s.latest| then s.latest[b := data] else s.latest, lh := Append(s.lh, b),
                 ops := if b in s.lh then s.ops else s.ops[i := s.ops[i].(used := s.ops[i].used + 1)],
                 pending := s.pending + [OpWrite(s.ops[i].id, b, data)])
    case End(i) =>
      && s.phase.Running? && i < |s.ops|
      && var rest := Remove(s.ops, i);
         t == s.(ops := rest, phase := if rest == [] then Committing(s.disk, 0) else Running)
    case CommitWrite =>
      && s.phase.Committing? && Loggable(c.l, |s.latest|, s.lh) && |s.phase.base| == |s.latest|
      && var ws, k := CommitWrites(c.l, s.lh, s.latest), s.phase.k + 1;
         && k <= |ws|
         && var u := s.(disk := LogFormat.Crash(s.phase.base, ws, k), phase := Committing(s.phase.base, k));
            t == if k == CommitPoint(s.lh) then u.(groups := s.groups + [Group(s.pending, true)], pending := []) else u
    case CommitDone =>
      && s.phase.Committing? && Loggable(c.l, |s.latest|, s.lh)
      && s.phase.k == |CommitWrites(c.l, s.lh, s.latest)|
      && t == s.(phase := Running, lh := [], latest := s.disk)
    case Crash =>
      t == s.(latest := [], lh := [], ops := [], phase := Down,
              groups := s.groups + [Group(s.pending, false)], pending := [])
    case Reboot =>
      s.phase.Down? && t == s.(phase := Recovering(s.disk, 0))
    case RecoveryWrite =>
      && s.phase.Recovering? && HeaderOK(c.l, s.phase.base)
      && var ws, k := RecoveryWrites(c.l, s.phase.base), s.phase.k + 1;
         && k <= |ws|
         && t == s.(disk := LogFormat.Crash(s.phase.base, ws, k), phase := Recovering(s.phase.base, k))
    case RecoveryDone =>
      && s.phase.Recovering? && HeaderOK(c.l, s.phase.base)
      && s.phase.k == |RecoveryWrites(c.l, s.phase.base)|
      && t == s.(phase := Running, latest := s.disk)
  }

  /** The operation appends at most MAXOPBLOCKS block numbers to the log, this one included. log_write
      does not check this. */
  predicate WithinBudget(c: Config, s: State, step: Step) {
    step.LogWrite? && step.i < |s.ops| && step.blockno !in s.lh ==> s.ops[step.i].used < c.maxop
  }

  /** A freshly made file system: an empty log. */
  ghost predicate Init(c: Config, img: Image, s: State) {
    && |img| == c.disksize && c.l.start < |img| && HeaderCount(img[c.l.start]) == 0
    && s == State(img, img, [], [], Running, [], [])
  }

  /** `steps[i]` leads from `run[i]` to `run[i + 1]`. */
  ghost predicate IsRun(c: Config, img: Image, run: seq<State>, steps: seq<Step>) {
    && ConfigOK(c) && |run| == |steps| + 1
    && Init(c, img, run[0])
    && forall i | 0 <= i < |steps| :: Next(c, run[i], steps[i], run[i + 1])
  }

  // ---- the invariant ----

  /** What the outstanding operations may still append. */
  function Spare(maxop: nat, ops: seq<Op>): int {
    if ops == [] then 0 else Spare(maxop, ops[..|ops| - 1]) + maxop - ops[|ops| - 1].used
  }

  /** Logged blocks plus what the outstanding operations may still append fit the log. */
  ghost predicate Reserved(c: Config, s: State) {
    && |s.lh| + Spare(c.maxop, s.ops) <= c.logsize
    && forall j | 0 <= j < |s.ops| :: s.ops[j].used <= c.maxop
  }

  /** No operation has log_writes in two groups. */
  ghost predicate Separate(s: State) {
    && (forall i, j, id | 0 <= i < j < |s.groups| && Mentions(s.groups[i].writes, id) ::
          !Mentions(s.groups[j].writes, id))
    && (forall i, id | 0 <= i < |s.groups| && Mentions(s.groups[i].writes, id) ::
          !Mentions(s.pending, id) && !HasOp(s.ops, id))
  }

  ghost predicate RunningOK(c: Config, img: Image, s: State) {
    && ReadyToCommit(c.l, s.lh, s.disk, s.latest) && Distinct(s.lh)
    && HomeEq(c.l, s.disk, DurableEffect(img, s.groups))
    && HomeEq(c.l, s.latest, Effect(DurableEffect(img, s.groups), s.pending))
  }

  ghost predicate CommittingOK(c: Config, img: Image, s: State)
    requires s.phase.Committing?
  {
    var base, k := s.phase.base, s.phase.k;
    && s.ops == [] && ReadyToCommit(c.l, s.lh, base, s.latest) && Distinct(s.lh)
    && k <= |CommitWrites(c.l, s.lh, s.latest)|
    && s.disk == LogFormat.Crash(base, CommitWrites(c.l, s.lh, s.latest), k)
    && (k < CommitPoint(s.lh) ==> HomeEq(c.l, base, DurableEffect(img, s.groups)))
    && (k >= CommitPoint(s.lh) ==> s.pending == [])
    && HomeEq(c.l, s.latest, Effect(DurableEffect(img, s.groups), s.pending))
  }

  ghost predicate RecoveringOK(c: Config, img: Image, s: State)
    requires s.phase.Recovering?
  {
    var base, k := s.phase.base, s.phase.k;
    && HeaderOK(c.l, base) && k <= |RecoveryWrites(c.l, base)|
    && s.disk == LogFormat.Crash(base, RecoveryWrites(c.l, base), k)
    && HomeEq(c.l, Recovered(c.l, base), DurableEffect(img, s.groups))
  }

  ghost predicate PhaseOK(c: Config, img: Image, s: State) {
    && (s.phase.Running? ==> RunningOK(c, img, s))
    && (s.phase.Committing? ==> CommittingOK(c, img, s))
    && (s.phase.Recovering? ==> RecoveringOK(c, img, s))
    && (s.phase.Down? || s.phase.Recovering? ==> s.ops == [] && s.lh == [] && s.pending == [])
  }

  /** Recovery, started now, would bring back the effect of exactly the durable groups. */
  ghost predicate Recoverable(c: Config, img: Image, s: State) {
    && HeaderOK(c.l, s.disk)
    && HomeEq(c.l, Recovered(c.l, s.disk), DurableEffect(img, s.groups))
  }

  ghost predicate Inv(c: Config, img: Image, s: State) {
    && ConfigOK(c) && |img| == |s.disk| == c.disksize
    && Separate(s) && PhaseOK(c, img, s) && Recoverable(c, img, s)
  }

  // ---- reservation ----

  lemma {:induction false} SpareAtMost(maxop: nat, ops: seq<Op>)
    ensures Spare(maxop, ops) <= |ops| * maxop
  {
    if ops != [] {
      SpareAtMost(maxop, ops[..|ops| - 1]);
    }
  }

  lemma {:induction false} SpareUpdate(maxop: nat, ops: seq<Op>, i: nat, o: Op)
    requires i < |ops|
    ensures Spare(maxop, ops[i := o]) == Spare(maxop, ops) + ops[i].used - o.used
    decreases |ops|
  {
    if i < |ops| - 1 {
      assert ops[i := o][..|ops| - 1] == ops[..|ops| - 1][i := o];
      SpareUpdate(maxop, ops[..|ops| - 1], i, o);
    } else {
      assert ops[i := o][..|ops| - 1] == ops[..|ops| - 1];
    }
  }

  function Remove(ops: seq<Op>, i: nat): seq<Op>
    requires i < |ops|
  {
    ops[..i] + ops[i + 1..]
  }

  lemma {:induction false} SpareRemove(maxop: nat, ops: seq<Op>, i: nat)
    requires i < |ops|
    ensures Spare(maxop, Remove(ops, i)) == Spare(maxop, ops) - (maxop - ops[i].used)
    decreases |ops|
  {
    var rest := Remove(ops, i);
    if i < |ops| - 1 {
      var init := ops[..|ops| - 1];
      assert rest[..|rest| - 1] == Remove(init, i);
      SpareRemove(maxop, init, i);
    } else {
      assert rest == ops[..|ops| - 1];
    }
  }

  /** The room left for the others while one operation has not used up its share. */
  lemma {:induction false} SpareOfOne(maxop: nat, ops: seq<Op>, i: nat)
    requires i < |ops| && forall j | 0 <= j < |ops| :: ops[j].used <= maxop
    ensures Spare(maxop, ops) >= maxop - ops[i].used >= 0
    decreases |ops|
  {
    SparePositive(maxop, ops[..|ops| - 1]);
    if i < |ops| - 1 {
      SpareOfOne(maxop, ops[..|ops| - 1], i);
    }
  }

  lemma {:induction false} SparePositive(maxop: nat, ops: seq<Op>)
    requires forall j | 0 <= j < |ops| :: ops[j].used <= maxop
    ensures Spare(maxop, ops) >= 0
  {
    if ops != [] {
      SparePositive(maxop, ops[..|ops| - 1]);
    }
  }

  lemma BeginKeepsReserved(c: Config, s: State, id: OpId, t: State)
    requires Reserved(c, s) && RoomFor(c, s) && t.lh == s.lh && t.ops == s.ops + [Op(id, 0)]
    ensures Reserved(c, t)
  {
    assert t.ops[..|s.ops|] == s.ops;
    SpareAtMost(c.maxop, s.ops);
    assert (|s.ops| + 1) * c.maxop == |s.ops| * c.maxop + c.maxop;
  }

  lemma LogWriteKeepsReserved(c: Config, s: State, i: nat, b: nat, t: State)
    requires Reserved(c, s) && i < |s.ops| && (b in s.lh || s.ops[i].used < c.maxop)
    requires t.lh == Append(s.lh, b)
    requires t.ops == if b in s.lh then s.ops else s.ops[i := s.ops[i].(used := s.ops[i].used + 1)]
    ensures Reserved(c, t)
  {
    if b !in s.lh {
      SpareUpdate(c.maxop, s.ops, i, s.ops[i].(used := s.ops[i].used + 1));
    }
  }

  lemma EndKeepsReserved(c: Config, s: State, i: nat, t: State)
    requires Reserved(c, s) && i < |s.ops| && t.lh == s.lh && t.ops == Remove(s.ops, i)
    ensures Reserved(c, t)
  {
    hide Spare;
    SpareRemove(c.maxop, s.ops, i);
    assert forall j | 0 <= j < |t.ops| :: t.ops[j] == s.ops[if j < i then j else j + 1];
  }

  /** While the operations keep within their budgets, so does the log. */
  lemma ReservedKept(c: Config, s: State, step: Step, t: State)
    requires Reserved(c, s) && Next(c, s, step, t) && WithinBudget(c, s, step)
    ensures Reserved(c, t)
  {
    hide Reserved, Spare, RoomFor, Fresh, Panics, Home, Loggable, HeaderOK, CommitWrites, RecoveryWrites, Append,
        Remove;
    match step
    case Begin(id) => BeginKeepsReserved(c, s, id, t);
    case LogWrite(i, b, _) => LogWriteKeepsReserved(c, s, i, b, t);
    case End(i) => EndKeepsReserved(c, s, i, t);
    case Crash => NoneReserved(c, t);
    case CommitDone => EmptyLogReserved(c, s, t);
    case _ => SameReserved(c, s, t);
  }

  lemma NoneReserved(c: Config, t: State)
    requires t.ops == [] && t.lh == []
    ensures Reserved(c, t)
  {
  }

  lemma EmptyLogReserved(c: Config, s: State, t: State)
    requires Reserved(c, s) && t.ops == s.ops && t.lh == []
    ensures Reserved(c, t)
  {
  }

  lemma SameReserved(c: Config, s: State, t: State)
    requires Reserved(c, s) && t.ops == s.ops && t.lh == s.lh
    ensures Reserved(c, t)
  {
  }

  // ---- no operation is split between two groups ----

  lemma BeginKeepsSeparate(c: Config, s: State, id: OpId, t: State)
    requires Separate(s) && Next(c, s, Begin(id), t)
    ensures Separate(t)
  {
    forall k, x | 0 <= k < |t.groups| && Mentions(t.groups[k].writes, x)
      ensures !Mentions(t.pending, x) && !HasOp(t.ops, x)
    {
      assert !HasOp(s.ops, x) && x != id;
      assert forall j | 0 <= j < |t.ops| :: t.ops[j] == if j < |s.ops| then s.ops[j] else Op(id, 0);
    }
  }

  lemma MentionsAppend(ws: seq<OpWrite>, w: OpWrite, id: OpId)
    ensures Mentions(ws + [w], id) <==> Mentions(ws, id) || w.op == id
  {
    assert w in ws + [w];
  }

  lemma LogWriteKeepsSeparate(c: Config, s: State, i: nat, b: nat, data: Block, t: State)
    requires Separate(s) && Next(c, s, LogWrite(i, b, data), t)
    ensures Separate(t)
  {
    forall k, x | 0 <= k < |t.groups| && Mentions(t.groups[k].writes, x)
      ensures !Mentions(t.pending, x) && !HasOp(t.ops, x)
    {
      assert !HasOp(s.ops, x) && !Mentions(s.pending, x);
      assert s.ops[i].id != x;
      MentionsAppend(s.pending, OpWrite(s.ops[i].id, b, data), x);
      assert forall j | 0 <= j < |t.ops| :: t.ops[j].id == s.ops[j].id;
    }
  }

  lemma EndKeepsSeparate(c: Config, s: State, i: nat, t: State)
    requires Separate(s) && Next(c, s, End(i), t)
    ensures Separate(t)
  {
    forall k, x | 0 <= k < |t.groups| && Mentions(t.groups[k].writes, x)
      ensures !Mentions(t.pending, x) && !HasOp(t.ops, x)
    {
      assert !HasOp(s.ops, x);
      assert forall j | 0 <= j < |t.ops| :: t.ops[j] == s.ops[if j < i then j else j + 1];
    }
  }

  lemma GroupKeepsSeparate(s: State, durable: bool, t: State)
    requires Separate(s) && t.groups == s.groups + [Group(s.pending, durable)] && t.pending == [] && t.ops == []
    ensures Separate(t)
  {
  }

  // ---- disk and cache ----

  lemma EffectAppend(img: Image, ws: seq<OpWrite>, w: OpWrite)
    requires w.blockno < |img|
    ensures Effect(img, ws + [w]) == Effect(img, ws)[w.blockno := w.data]
  {
    assert (ws + [w])[..|ws|] == ws;
  }

  lemma DurableAppend(img: Image, groups: seq<Group>, g: Group)
    ensures DurableEffect(img, groups + [g]) ==
            if g.durable then Effect(DurableEffect(img, groups), g.writes) else DurableEffect(img, groups)
  {
    assert (groups + [g])[..|groups|] == groups;
  }

  lemma LogWriteKeepsPhase(c: Config, img: Image, s: State, i: nat, b: nat, data: Block, t: State)
    requires Inv(c, img, s) && Next(c, s, LogWrite(i, b, data), t)
    ensures PhaseOK(c, img, t)
  {
    hide Effect, DurableEffect, Separate, Recoverable, Fresh;
    EffectAppend(DurableEffect(img, s.groups), s.pending, OpWrite(s.ops[i].id, b, data));
  }

  lemma EndKeepsPhase(c: Config, img: Image, s: State, i: nat, t: State)
    requires Inv(c, img, s) && Next(c, s, End(i), t)
    ensures PhaseOK(c, img, t)
  {
    hide Effect, DurableEffect, Separate, Recoverable, HomeEq, ReadyToCommit, Distinct;
    if t.phase.Committing? {
      assert ReadyToCommit(c.l, s.lh, s.disk, s.latest);
      NothingWritten(c.l, s.lh, s.disk, s.latest);
    }
  }

  lemma NothingWritten(l: Layout, lh: seq<nat>, disk: Image, latest: Image)
    requires ReadyToCommit(l, lh, disk, latest)
    ensures Loggable(l, |latest|, lh) && LogFormat.Crash(disk, CommitWrites(l, lh, latest), 0) == disk
  {
    assert CommitWrites(l, lh, latest)[..0] == [];
  }

  lemma CommitWriteKeeps(c: Config, img: Image, s: State, t: State)
    requires Inv(c, img, s) && Next(c, s, CommitWrite, t)
    ensures Inv(c, img, t)
  {
    hide Effect, DurableEffect, Separate, CommitWrites, Recovered, Distinct, ReadyToCommit;
    CommitWriteKeepsRest(c, s, t);
    var k := s.phase.k + 1;
    CommitIsAtomic(c.l, s.lh, s.phase.base, s.latest, k);
    DurableAppend(img, s.groups, Group(s.pending, true));
    NoEffect(DurableEffect(img, t.groups));
  }

  lemma CommitWriteKeepsRest(c: Config, s: State, t: State)
    requires Separate(s) && s.ops == [] && Next(c, s, CommitWrite, t)
    ensures Separate(t)
  {
    hide CommitWrites, LogFormat.Crash;
    if t.groups != s.groups {
      GroupKeepsSeparate(s, true, t);
    }
  }

  /** With no operation outstanding there is nothing to separate. */
  lemma EmptyKeeps(s: State, t: State)
    requires Separate(s) && t.groups == s.groups && t.pending == s.pending && t.ops == []
    ensures Separate(t)
  {
  }

  lemma NoEffect(img: Image)
    ensures Effect(img, []) == img
  {
  }

  lemma CommitDoneKeeps(c: Config, img: Image, s: State, t: State)
    requires Inv(c, img, s) && Next(c, s, CommitDone, t)
    ensures Inv(c, img, t)
  {
    hide Effect, DurableEffect, Separate, Recovered;
    EmptyKeeps(s, t);
    var ws := CommitWrites(c.l, s.lh, s.latest);
    assert ws[..|ws|] == ws;
    CommitClears(c.l, s.lh, s.phase.base, s.latest);
    ClearedIsStable(c.l, s.disk);
    NoEffect(DurableEffect(img, t.groups));
  }

  lemma CrashKeeps(c: Config, img: Image, s: State, t: State)
    requires Inv(c, img, s) && Next(c, s, Step.Crash, t)
    ensures Inv(c, img, t)
  {
    hide Effect, DurableEffect, Separate, HomeEq, Recovered, HeaderOK;
    DurableAppend(img, s.groups, Group(s.pending, false));
    GroupKeepsSeparate(s, false, t);
  }

  lemma RebootKeeps(c: Config, img: Image, s: State, t: State)
    requires Inv(c, img, s) && Next(c, s, Reboot, t)
    ensures Inv(c, img, t)
  {
    hide DurableEffect, HomeEq, Recovered, Separate, RecoveryWrites, HeaderOK;
    EmptyKeeps(s, t);
    assert RecoveryWrites(c.l, s.disk)[..0] == [];
  }

  lemma RecoveryWriteKeeps(c: Config, img: Image, s: State, t: State)
    requires Inv(c, img, s) && Next(c, s, RecoveryWrite, t)
    ensures Inv(c, img, t)
  {
    hide DurableEffect, Recovered, RecoveryWrites, Separate, HeaderOK, HomeEq;
    EmptyKeeps(s, t);
    CrashInRecovery(c.l, s.phase.base, s.phase.k + 1);
    HomeEqTrans(c.l, Recovered(c.l, t.disk), Recovered(c.l, t.phase.base), DurableEffect(img, t.groups));
  }

  /** A finished recovery leaves a disk on which a next transaction may be built. */
  lemma RecoveryEnds(l: Layout, base: Image)
    requires HeaderOK(l, base)
    ensures LogFormat.Crash(base, RecoveryWrites(l, base), |RecoveryWrites(l, base)|) == Recovered(l, base)
    ensures ReadyToCommit(l, [], Recovered(l, base), Recovered(l, base))
  {
    var ws := RecoveryWrites(l, base);
    assert ws[..|ws|] == ws;
    RecoveryClears(l, base);
  }

  lemma RecoveryDoneKeeps(c: Config, img: Image, s: State, t: State)
    requires Inv(c, img, s) && Next(c, s, RecoveryDone, t)
    ensures Inv(c, img, t)
  {
    hide DurableEffect, Separate, RecoveryWrites, HeaderOK, HomeEq, Recovered, ReadyToCommit, Apply;
    EmptyKeeps(s, t);
    RecoveryEnds(c.l, s.phase.base);
    NoEffect(DurableEffect(img, t.groups));
  }

  lemma BeginKeeps(c: Config, img: Image, s: State, id: OpId, t: State)
    requires Inv(c, img, s) && Next(c, s, Begin(id), t)
    ensures Inv(c, img, t)
  {
    BeginKeepsSeparate(c, s, id, t);
    hide Separate, HeaderOK, HomeEq, Recovered, DurableEffect, ReadyToCommit, Effect, Distinct;
  }

  lemma LogWriteKeeps(c: Config, img: Image, s: State, i: nat, b: nat, data: Block, t: State)
    requires Inv(c, img, s) && Next(c, s, LogWrite(i, b, data), t)
    ensures Inv(c, img, t)
  {
    LogWriteKeepsSeparate(c, s, i, b, data, t);
    LogWriteKeepsPhase(c, img, s, i, b, data, t);
    hide Separate, HeaderOK, HomeEq, Recovered, DurableEffect, PhaseOK;
  }

  lemma EndKeeps(c: Config, img: Image, s: State, i: nat, t: State)
    requires Inv(c, img, s) && Next(c, s, End(i), t)
    ensures Inv(c, img, t)
  {
    EndKeepsSeparate(c, s, i, t);
    EndKeepsPhase(c, img, s, i, t);
    hide Separate, HeaderOK, HomeEq, Recovered, DurableEffect, PhaseOK;
  }

  lemma StepKeeps(c: Config, img: Image, s: State, step: Step, t: State)
    requires Inv(c, img, s) && Next(c, s, step, t)
    ensures Inv(c, img, t)
  {
    hide Inv, Next;
    match step
    case Begin(id) => BeginKeeps(c, img, s, id, t);
    case LogWrite(i, b, data) => LogWriteKeeps(c, img, s, i, b, data, t);
    case End(i) => EndKeeps(c, img, s, i, t);
    case CommitWrite => CommitWriteKeeps(c, img, s, t);
    case CommitDone => CommitDoneKeeps(c, img, s, t);
    case Crash => CrashKeeps(c, img, s, t);
    case Reboot => RebootKeeps(c, img, s, t);
    case RecoveryWrite => RecoveryWriteKeeps(c, img, s, t);
    case RecoveryDone => RecoveryDoneKeeps(c, img, s, t);
  }

  lemma InitHolds(c: Config, img: Image, s: State)
    requires ConfigOK(c) && Init(c, img, s)
    ensures Inv(c, img, s)
  {
    ClearedIsStable(c.l, img);
  }

  lemma {:induction false} RunHolds(c: Config, img: Image, run: seq<State>, steps: seq<Step>, i: nat)
    requires IsRun(c, img, run, steps) && i < |run|
    ensures Inv(c, img, run[i])
  {
    if i == 0 {
      InitHolds(c, img, run[0]);
    } else {
      RunHolds(c, img, run, steps, i - 1);
      StepKeeps(c, img, run[i - 1], steps[i - 1], run[i]);
    }
  }

  /** In the first `i` steps of a run, all operations keep within their budgets. */
  ghost predicate Budgeted(c: Config, run: seq<State>, steps: seq<Step>, i: nat)
    requires i <= |steps| < |run|
  {
    forall j | 0 <= j < i :: WithinBudget(c, run[j], steps[j])
  }

  lemma {:induction false} RunReserved(c: Config, img: Image, run: seq<State>, steps: seq<Step>, i: nat)
    requires IsRun(c, img, run, steps) && i < |run| && Budgeted(c, run, steps, i)
    ensures Reserved(c, run[i])
  {
    hide Reserved, Next, WithinBudget;
    if i == 0 {
      NoneReserved(c, run[0]);
    } else {
      RunReserved(c, img, run, steps, i - 1);
      assert WithinBudget(c, run[i - 1], steps[i - 1]);
      ReservedKept(c, run[i - 1], steps[i - 1], run[i]);
    }
  }

  // ---- what this means for the file system ----

  /** The operations whose log_writes shared the i-th group. */
  predicate InGroup(s: State, i: nat, id: OpId)
    requires i < |s.groups|
  {
    Mentions(s.groups[i].writes, id)
  }

  /** Group atomicity: at any moment of any run, recovery would bring the home blocks to the effect
      of the durable groups in order, and an operation with log_writes in a group has none in any
      other, so each operation is durable as a whole or lost as a whole. */
  lemma GroupAtomicity(c: Config, img: Image, run: seq<State>, steps: seq<Step>, i: nat)
    requires IsRun(c, img, run, steps) && i < |run|
    ensures HeaderOK(c.l, run[i].disk)
    ensures HomeEq(c.l, Recovered(c.l, run[i].disk), DurableEffect(img, run[i].groups))
    ensures forall j, k, id | 0 <= j < |run[i].groups| && 0 <= k < |run[i].groups|
                              && InGroup(run[i], j, id) && InGroup(run[i], k, id) :: j == k
    ensures forall j, id | 0 <= j < |run[i].groups| && InGroup(run[i], j, id) ::
              !Mentions(run[i].pending, id) && !HasOp(run[i].ops, id)
  {
    RunHolds(c, img, run, steps, i);
    hide HomeEq, Recovered, HeaderOK, DurableEffect, PhaseOK;
  }

  /** While an operation is outstanding no commit is in progress, and what the operations see is
      the durable effect with all their pending changes on top. */
  lemma NoCommitDuringOperation(c: Config, img: Image, run: seq<State>, steps: seq<Step>, i: nat)
    requires IsRun(c, img, run, steps) && i < |run| && run[i].ops != []
    ensures run[i].phase.Running?
    ensures HomeEq(c.l, run[i].disk, DurableEffect(img, run[i].groups))
    ensures HomeEq(c.l, run[i].latest, Effect(DurableEffect(img, run[i].groups), run[i].pending))
  {
    RunHolds(c, img, run, steps, i);
  }

  /** The log-space reservation, and room for an operation that still has to append. */
  lemma LogSpace(c: Config, img: Image, run: seq<State>, steps: seq<Step>, i: nat, j: nat)
    requires IsRun(c, img, run, steps) && i < |run| && Budgeted(c, run, steps, i) && j < |run[i].ops|
    ensures |run[i].lh| + Spare(c.maxop, run[i].ops) <= c.logsize
    ensures Distinct(run[i].lh)
    ensures |run[i].lh| + (c.maxop - run[i].ops[j].used) <= c.logsize
    ensures run[i].ops[j].used < c.maxop ==> |run[i].lh| < c.logsize
  {
    RunHolds(c, img, run, steps, i);
    RunReserved(c, img, run, steps, i);
    SpareOfOne(c.maxop, run[i].ops, j);
  }

  /** An operation that has appended few enough blocks never meets the panic of log_write: with a log
      of LOGSIZE blocks on disk, as mkfs makes it, one that may still append two. */
  lemma NoPanic(c: Config, img: Image, run: seq<State>, steps: seq<Step>, i: nat, j: nat)
    requires IsRun(c, img, run, steps) && i < |run| && Budgeted(c, run, steps, i) && j < |run[i].ops|
    requires run[i].ops[j].used < c.maxop
    requires run[i].ops[j].used + c.logsize + 1 < c.maxop + c.l.size
    ensures !Panics(c, run[i])
  {
    LogSpace(c, img, run, steps, i, j);
  }

  // ---- the bound of NoPanic is sharp ----

  /** Some run within the budgets leads to `s`. */
  ghost predicate Reachable(c: Config, img: Image, s: State) {
    exists run, steps :: IsRun(c, img, run, steps) && Budgeted(c, run, steps, |steps|) && run[|run| - 1] == s
  }

  lemma ReachNext(c: Config, img: Image, s: State, step: Step, t: State)
    requires Reachable(c, img, s) && Next(c, s, step, t) && WithinBudget(c, s, step)
    ensures Reachable(c, img, t)
  {
    var run, steps :| IsRun(c, img, run, steps) && Budgeted(c, run, steps, |steps|) && run[|run| - 1] == s;
    hide Next, Init, WithinBudget;
    var run', steps' := run + [t], steps + [step];
    forall i | 0 <= i < |steps'|
      ensures Next(c, run'[i], steps'[i], run'[i + 1]) && WithinBudget(c, run'[i], steps'[i])
    {
      if i < |steps| {
        assert run'[i] == run[i] && run'[i + 1] == run[i + 1] && steps'[i] == steps[i];
      }
    }
    assert IsRun(c, img, run', steps') && Budgeted(c, run', steps', |steps'|);
  }

  /** There is room for other operations besides one, and on the disk for a full log of blocks behind the log. */
  ghost predicate Roomy(c: Config, img: Image) {
    && ConfigOK(c) && 0 < c.maxop && 2 * c.maxop <= c.logsize && c.l.start + c.l.size + c.logsize <= c.disksize
    && |img| == c.disksize && HeaderCount(img[c.l.start]) == 0
  }

  /** Operations up to `top` have logged the first `n` blocks behind the log. */
  ghost predicate Logged(c: Config, s: State, n: nat, top: OpId) {
    && s.phase.Running? && |s.latest| == c.disksize && s.groups == []
    && |s.lh| == n && (forall k | 0 <= k < n :: s.lh[k] == c.l.start + c.l.size + k)
    && (forall w <- s.pending :: w.op <= top) && (forall o <- s.ops :: o.id <= top)
  }

  /** One more operation. */
  lemma BeginOne(c: Config, img: Image, s: State, n: nat, top: OpId) returns (t: State)
    requires Reachable(c, img, s) && Logged(c, s, n, top) && n + (|s.ops| + 1) * c.maxop <= c.logsize
    ensures Reachable(c, img, t) && Logged(c, t, n, top + 1) && t.ops == s.ops + [Op(top + 1, 0)]
  {
    hide Reachable;
    t := s.(ops := s.ops + [Op(top + 1, 0)]);
    assert !Mentions(s.pending, top + 1) && !HasOp(s.ops, top + 1);
    ReachNext(c, img, s, Begin(top + 1), t);
  }

  /** The i-th operation logs one more block. */
  lemma LogOne(c: Config, img: Image, s: State, n: nat, top: OpId, i: nat, data: Block) returns (t: State)
    requires Roomy(c, img) && Reachable(c, img, s) && Logged(c, s, n, top) && i < |s.ops|
    requires s.ops[i].used < c.maxop && n < c.logsize && n < c.l.size - 1
    ensures Reachable(c, img, t) && Logged(c, t, n + 1, top)
    ensures t.ops == s.ops[i := s.ops[i].(used := s.ops[i].used + 1)]
  {
    hide Reachable;
    var b := c.l.start + c.l.size + n;
    assert b !in s.lh;
    t := s.(latest := s.latest[b := data], lh := Append(s.lh, b),
            ops := s.ops[i := s.ops[i].(used := s.ops[i].used + 1)],
            pending := s.pending + [OpWrite(s.ops[i].id, b, data)]);
    ReachNext(c, img, s, LogWrite(i, b, data), t);
  }

  lemma {:induction false} LogMany(c: Config, img: Image, s: State, n: nat, top: OpId, i: nat, m: nat, data: Block)
      returns (t: State)
    requires Roomy(c, img) && Reachable(c, img, s) && Logged(c, s, n, top) && i < |s.ops|
    requires s.ops[i].used + m <= c.maxop && n + m <= c.logsize && n + m < c.l.size
    ensures Reachable(c, img, t) && Logged(c, t, n + m, top)
    ensures t.ops == s.ops[i := s.ops[i].(used := s.ops[i].used + m)]
    decreases m
  {
    hide Reachable, Logged, Roomy;
    if m == 0 {
      t := s;
    } else {
      var u := LogMany(c, img, s, n, top, i, m - 1, data);
      t := LogOne(c, img, u, n + m - 1, top, i, data);
    }
  }

  /** While the first operation goes on, `n` others begin, log one block each, and end. */
  lemma {:induction false} OthersLog(c: Config, img: Image, n: nat, data: Block) returns (s: State)
    requires Roomy(c, img) && n < c.l.size && (n > 0 ==> n - 1 + 2 * c.maxop <= c.logsize)
    ensures Reachable(c, img, s) && Logged(c, s, n, n) && s.ops == [Op(0, 0)]
  {
    hide Reachable;
    if n == 0 {
      var s0 := State(img, img, [], [], Running, [], []);
      StartReachable(c, img, s0);
      s := s0.(ops := [Op(0, 0)]);
      ReachNext(c, img, s0, Begin(0), s);
    } else {
      var u := OthersLog(c, img, n - 1, data);
      var v := BeginOne(c, img, u, n - 1, n - 1);
      var w := LogOne(c, img, v, n - 1, n, 1, data);
      s := w.(ops := Remove(w.ops, 1));
      assert s.ops == [Op(0, 0)];
      ReachNext(c, img, w, End(1), s);
    }
  }

  lemma StartReachable(c: Config, img: Image, s0: State)
    requires Roomy(c, img) && s0 == State(img, img, [], [], Running, [], [])
    ensures Reachable(c, img, s0)
  {
    assert IsRun(c, img, [s0], []) && Budgeted(c, [s0], [], 0) && [s0][0] == s0;
  }

  /** In `s`, this log_write of an operation that has appended at most `u` blocks panics, although the operation
      keeps within its budget. */
  ghost predicate Meets(c: Config, s: State, step: Step, u: nat) {
    && step.LogWrite? && step.i < |s.ops| && s.ops[step.i].used <= u
    && step.blockno < c.disksize && Home(c.l, step.blockno) && WithinBudget(c, s, step) && Panics(c, s)
  }

  /** Others log as many blocks as they can, and then the first operation, `u` blocks at most. Its next log_write
      panics: of a block that is not logged yet, if it may append one. */
  lemma PanicState(c: Config, img: Image, data: Block, u: nat) returns (s: State, step: Step)
    requires Roomy(c, img) && u <= c.maxop
    requires u == c.maxop || u + c.logsize + 1 >= c.maxop + c.l.size
    ensures Reachable(c, img, s) && Meets(c, s, step, u)
    ensures u < c.maxop ==> step.blockno !in s.lh
    ensures s.lh != [] ==> Meets(c, s, step.(blockno := s.lh[0]), u)
  {
    hide Reachable;
    var full := if c.logsize < c.l.size then c.logsize else c.l.size - 1;
    var own := if u < full then u else full;
    var others: nat := full - own;
    var first := if others > c.maxop then others - c.maxop else 0;
    s := OthersLog(c, img, first, data);
    s := BeginOne(c, img, s, first, first);
    s := LogMany(c, img, s, first, first + 1, 1, others - first, data);
    s := LogMany(c, img, s, others, first + 1, 0, own, data);
    step := LogWrite(0, c.l.start + c.l.size + (if own < c.maxop then full else 0), data);
    assert own == c.maxop ==> s.lh[0] == step.blockno;
  }

  /** The bound is sharp, whatever the sizes: an operation within its budget that has appended `u` blocks, or
      less, can meet the panic if and only if that bound does not hold for `u`, or `u` is the whole budget. */
  lemma PanicsExactly(c: Config, img: Image, data: Block, u: nat)
    requires Roomy(c, img)
    ensures (exists s, step :: Reachable(c, img, s) && Meets(c, s, step, u))
            <==> u >= c.maxop || u + c.logsize + 1 >= c.maxop + c.l.size
  {
    if u >= c.maxop || u + c.logsize + 1 >= c.maxop + c.l.size {
      var s, step := PanicState(c, img, data, if u < c.maxop then u else c.maxop);
      assert Reachable(c, img, s) && Meets(c, s, step, u);
    } else {
      forall s, step | Reachable(c, img, s)
        ensures !Meets(c, s, step, u)
      {
        if step.LogWrite? && step.i < |s.ops| && s.ops[step.i].used <= u {
          var run, steps :| IsRun(c, img, run, steps) && Budgeted(c, run, steps, |steps|) && run[|run| - 1] == s;
          NoPanic(c, img, run, steps, |steps|, step.i);
        }
      }
    }
  }

  lemma AgainPanics(c: Config, img: Image, data: Block)
    requires Roomy(c, img)
    ensures (exists s, step :: Reachable(c, img, s) && Meets(c, s, step, c.maxop) && step.blockno in s.lh)
            <==> c.l.size > 1
  {
    if c.l.size > 1 {
      var s, step := PanicState(c, img, data, c.maxop);
      assert Reachable(c, img, s) && Meets(c, s, step.(blockno := s.lh[0]), c.maxop);
    } else {
      forall s, step | Reachable(c, img, s) && Meets(c, s, step, c.maxop)
        ensures step.blockno !in s.lh
      {
        var run, steps :| IsRun(c, img, run, steps) && Budgeted(c, run, steps, |steps|) && run[|run| - 1] == s;
        RunHolds(c, img, run, steps, |steps|);
      }
    }
  }

  /** There are two reasons. A block that is logged already needs no room, but log_write looks for some before it
      looks for the block: so the panic can be met for such a block however big the log on disk is, if only it holds
      a block. It can be met for a new block if and only if that log is too small: LOGSIZE blocks or less, the
      header among them. */
  lemma PanicReasons(c: Config, img: Image, data: Block)
    requires Roomy(c, img)
    ensures (exists s, step :: Reachable(c, img, s) && Meets(c, s, step, c.maxop) && step.blockno in s.lh)
            <==> c.l.size > 1
    ensures (exists s, step :: Reachable(c, img, s) && Meets(c, s, step, c.maxop) && step.blockno !in s.lh)
            <==> c.l.size <= c.logsize
  {
    AgainPanics(c, img, data);
    if c.l.size <= c.logsize {
      var t, next := PanicState(c, img, data, c.maxop - 1);
      assert Reachable(c, img, t) && Meets(c, t, next, c.maxop) && next.blockno !in t.lh;
    } else {
      forall s, step | Reachable(c, img, s) && Meets(c, s, step, c.maxop)
        ensures step.blockno in s.lh
      {
        if step.blockno !in s.lh {
          var run, steps :| IsRun(c, img, run, steps) && Budgeted(c, run, steps, |steps|) && run[|run| - 1] == s;
          NoPanic(c, img, run, steps, |steps|, step.i);
        }
      }
    }
  }

  /** The constants of param.h, and a log of LOGSIZE blocks as mkfs makes it. */
  ghost predicate Shipped(c: Config) {
    && c.maxop == 10 && c.logsize == 30 && c.l.size == 30
    && c.l.start + c.l.size + 30 <= c.disksize <= TWO32
  }

  /** At the shipped sizes the panic of log_write can be reached although every operation appends at most
      MAXOPBLOCKS blocks: exactly by one that has at most one block to go. */
  lemma PanicReachable(c: Config, img: Image, data: Block, u: nat)
    requires Shipped(c) && |img| == c.disksize && HeaderCount(img[c.l.start]) == 0
    ensures (exists s, step :: Reachable(c, img, s) && Meets(c, s, step, u)) <==> u + 1 >= c.maxop
  {
    PanicsExactly(c, img, data, u);
  }
}
