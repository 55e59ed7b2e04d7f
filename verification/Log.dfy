/** The redo log of log.c, running on the buffer cache of bio.c. A panic ends the machine, so a
    method that can panic says so in `ok`; what it wrote before is then a prefix of its writes. */
module Log {
  import opened Words
  import opened Bio
  import opened LogFormat

  const MAXOPBLOCKS: nat := 10
  const LOGSIZE: nat := MAXOPBLOCKS * 3

  function Set(s: seq<nat>): set<nat> {
    set n | n in s
  }

  /** A holder comes and goes. */
  lemma AddRemove<K, V>(m: map<K, V>, k: K, n: map<K, V>)
    requires k !in m && n.Keys == m.Keys + {k} && forall j <- m :: n[j] == m[j]
    ensures n - {k} == m
  {
  }

  lemma AddRemoveTwo<K, V>(m: map<K, V>, k: K, l: K, n: map<K, V>)
    requires k !in m && l !in m && n.Keys == m.Keys + {k, l} && forall j <- m :: n[j] == m[j]
    ensures n - {k, l} == m
  {
  }

  lemma TwoEither<K, V>(k: K, l: K, m: map<K, V>)
    ensures m - {k, l} == m - {l, k}
  {
  }

  class Log {
    const bc: Bcache
    const l: Layout
    var outstanding: nat
    var committing: bool
    var lh: seq<nat>     // lh.block[0 .. lh.n)

    /** Nobody holds a block of the log or a logged block; otherwise bread of it would wait. */
    ghost predicate Undisturbed()
      reads `lh, bc, bc.bufs
    {
      forall b <- bc.Holders() :: Home(l, bc.Holders()[b].blockno) && bc.Holders()[b].blockno !in lh
    }

    lemma UndisturbedUnheld(n: nat)
      requires Undisturbed() && (!Home(l, n) || n in lh)
      ensures bc.Unheld(n)
    {
    }

    /** The cache is sound, nobody is in the way, and the blocks of the log are clean. */
    ghost predicate Ready()
      reads `lh, bc, bc.bufs, bc.ring, bc.disk
    {
      && bc.Valid() && Undisturbed()
      && |bc.latest| == |bc.disk.blocks| && Loggable(l, |bc.latest|, lh)
      && (forall n <- bc.DirtyBlocks() :: Home(l, n))
    }

    /** Between two log_writes: nothing committed on disk, and exactly the logged blocks pinned. */
    ghost predicate Logged()
      reads `lh, bc, bc.bufs, bc.ring, bc.disk
    {
      && bc.Valid()
      && |bc.latest| == |bc.disk.blocks| && Loggable(l, |bc.latest|, lh)
      && Distinct(lh) && |lh| <= LOGSIZE
      && bc.DirtyBlocks() == Set(lh)
      && HeaderCount(bc.disk.blocks[l.start]) == 0
    }

    /** When commit may go on: besides, nobody holds a block of the log or a logged block. */
    ghost predicate Valid()
      reads `lh, bc, bc.bufs, bc.ring, bc.disk
    {
      Logged() && Undisturbed()
    }

    /** The common end of both copy loops: memmove, bwrite, and brelse of both buffers. */
    method CopyAndRelease(from: Buf, to: Buf)
      requires bc.Valid() && from in bc.bufs && to in bc.bufs && from != to
      requires from.locked && from.refcnt == 1 && from.valid && from.data == bc.latest[from.blockno]
      requires to.locked && to.refcnt == 1 && to.valid && from.blockno != to.blockno && from.blockno < |bc.latest|
      modifies bc, bc.bufs, bc.head, bc.disk
      ensures bc.bufs == old(bc.bufs) && bc.Valid() && bc.Holders() == old(bc.Holders()) - {from, to}
      ensures bc.latest == old(bc.latest)[old(to.blockno) := old(from.data)]
      ensures bc.disk.blocks == old(bc.disk.blocks)[old(to.blockno) := old(from.data)]
      ensures bc.disk.writes == old(bc.disk.writes) + [Write(old(to.blockno), old(from.data))]
      ensures bc.DirtyBlocks() == old(bc.DirtyBlocks()) - {old(to.blockno)}
    {
      hide Bcache.Valid, Bcache.DirtyBlocks, Bcache.Held, Bcache.Holders;
      Store(to, from.data);
      ReleaseBoth(from, to);
    }

    method Store(b: Buf, data: Block)
      requires bc.Valid() && b in bc.bufs && b.locked && b.valid
      modifies b`data, b`dirty, b`valid, bc`latest, bc.disk
      ensures bc.Valid()
      ensures bc.Holders() == old(bc.Holders())[b := Holding(true, false, b.dev, b.blockno, b.locked, b.refcnt, data)]
      ensures b.data == data && b.valid && !b.dirty
      ensures b.blockno < |bc.latest| && bc.latest[b.blockno] == data
      ensures bc.latest == old(bc.latest)[b.blockno := data]
      ensures bc.disk.blocks == old(bc.disk.blocks)[b.blockno := data]
      ensures bc.disk.writes == old(bc.disk.writes) + [Write(b.blockno, data)]
      ensures bc.DirtyBlocks() == old(bc.DirtyBlocks()) - {b.blockno}
    {
      hide Bcache.DirtyBlocks, Bcache.Held, Bcache.RingOK, Bcache.LruOK, Bcache.UniqueOK, Bcache.Holders;
      bc.Fill(b, data);
      bc.Bwrite(b);
    }

    method ReleaseBoth(a: Buf, b: Buf)
      requires bc.Valid() && a != b && a in bc.bufs && b in bc.bufs
      requires a.locked && a.refcnt == 1 && (a.valid ==> a.data == bc.latest[a.blockno])
      requires b.locked && b.refcnt == 1 && (b.valid ==> b.data == bc.latest[b.blockno])
      modifies bc`ring, bc`clock, bc.bufs, bc.head
      ensures bc.Valid() && bc.Holders() == old(bc.Holders()) - {a, b} && bc.DirtyBlocks() == old(bc.DirtyBlocks())
    {
      hide Bcache.Valid, Bcache.DirtyBlocks, Bcache.Held, Bcache.Holders;
      bc.Brelse(a);
      bc.Brelse(b);
      assert old(bc.Holders()) - {a} - {b} == old(bc.Holders()) - {a, b};
    }

    /** bread of two blocks, one after the other. */
    method ReadTwo(x: nat, y: nat) returns (a: Buf?, b: Buf?)
      requires bc.Valid() && bc.Unheld(x) && bc.Unheld(y) && x < |bc.latest| && y < |bc.latest| && x != y
      modifies bc, bc.bufs, bc.head, bc.disk
      ensures bc.bufs == old(bc.bufs) && bc.latest == old(bc.latest)
      ensures bc.disk.blocks == old(bc.disk.blocks) && bc.disk.writes == old(bc.disk.writes)
      ensures a != null && b != null ==>
        && bc.Valid() && bc.DirtyBlocks() == old(bc.DirtyBlocks())
        && a in bc.bufs && a.locked && a.refcnt == 1 && a.valid && a.blockno == x && a.data == bc.latest[x]
        && b in bc.bufs && b.locked && b.refcnt == 1 && b.valid && b.blockno == y && b.data == bc.latest[y]
        && bc.Holders() - {a, b} == old(bc.Holders())
      ensures |bc.bufs| > |old(bc.DirtyBlocks())| + |old(bc.Holders())| + 1 ==> a != null && b != null
      ensures |bc.bufs| > |old(bc.DirtyBlocks())| + |old(bc.Holders())| && y in old(bc.DirtyBlocks()) ==>
        a != null && b != null
    {
      hide Bcache.Valid, Bcache.DirtyBlocks, Bcache.Held, Bcache.Free, Bcache.Cached, Bcache.Holders;
      b := null;
      a := bc.Bread(x);
      if a == null { return; }
      b := bc.Bread(y);
      if b == null { return; }
      AddRemoveTwo(old(bc.Holders()), a, b, bc.Holders());
    }

    /** The loop body of install_trans: copy the log block `from` to its home `to`. */
    method InstallBlock(from: nat, to: nat) returns (ok: bool)
      requires bc.Valid() && bc.Unheld(from) && bc.Unheld(to) && from < |bc.latest| && to < |bc.latest| && from != to
      modifies bc, bc.bufs, bc.head, bc.disk
      ensures bc.bufs == old(bc.bufs)
      ensures ok ==>
        && bc.Valid() && bc.Holders() == old(bc.Holders())
        && bc.latest == old(bc.latest)[to := old(bc.latest)[from]]
        && bc.disk.blocks == old(bc.disk.blocks)[to := old(bc.latest)[from]]
        && bc.disk.writes == old(bc.disk.writes) + [Write(to, old(bc.latest)[from])]
        && bc.DirtyBlocks() == old(bc.DirtyBlocks()) - {to}
      ensures !ok ==> bc.disk.blocks == old(bc.disk.blocks) && bc.disk.writes == old(bc.disk.writes)
      ensures |bc.bufs| > |old(bc.DirtyBlocks())| + |old(bc.Holders())| + 1 ==> ok
      ensures |bc.bufs| > |old(bc.DirtyBlocks())| + |old(bc.Holders())| && to in old(bc.DirtyBlocks()) ==> ok
    {
      hide Bcache.Valid, Bcache.DirtyBlocks, Bcache.Held, Bcache.Free, Bcache.Cached, Bcache.Holders, Bcache.Unheld;
      var lbuf, dbuf := ReadTwo(from, to);
      if lbuf == null || dbuf == null { return false; }
      CopyAndRelease(lbuf, dbuf);
      ok := true;
    }

    /** The loop body of write_log: copy the cached block `from` to its place `to` in the log. */
    method LogBlock(from: nat, to: nat) returns (ok: bool)
      requires bc.Valid() && bc.Unheld(from) && bc.Unheld(to) && from < |bc.latest| && to < |bc.latest| && from != to
      modifies bc, bc.bufs, bc.head, bc.disk
      ensures bc.bufs == old(bc.bufs)
      ensures ok ==>
        && bc.Valid() && bc.Holders() == old(bc.Holders())
        && bc.latest == old(bc.latest)[to := old(bc.latest)[from]]
        && bc.disk.blocks == old(bc.disk.blocks)[to := old(bc.latest)[from]]
        && bc.disk.writes == old(bc.disk.writes) + [Write(to, old(bc.latest)[from])]
        && bc.DirtyBlocks() == old(bc.DirtyBlocks()) - {to}
      ensures !ok ==> bc.disk.blocks == old(bc.disk.blocks) && bc.disk.writes == old(bc.disk.writes)
      ensures |bc.bufs| > |old(bc.DirtyBlocks())| + |old(bc.Holders())| + 1 ==> ok
      ensures |bc.bufs| > |old(bc.DirtyBlocks())| + |old(bc.Holders())| && from in old(bc.DirtyBlocks()) ==> ok
    {
      hide Bcache.Valid, Bcache.DirtyBlocks, Bcache.Held, Bcache.Free, Bcache.Cached, Bcache.Holders, Bcache.Unheld;
      var dst, src := ReadTwo(to, from);
      if dst == null || src == null { return false; }
      TwoEither(src, dst, bc.Holders());
      CopyAndRelease(src, dst);
      ok := true;
    }

    /** Enough buffers for install_trans: all its blocks are pinned, or two buffers are to spare. */
    ghost predicate Roomy(pinned: set<nat>)
      reads `lh, bc`bufs, bc.bufs
    {
      && |bc.bufs| > |pinned| + |bc.Holders()|
      && (|bc.bufs| > |pinned| + |bc.Holders()| + 1 || (Distinct(lh) && forall i | 0 <= i < |lh| :: lh[i] in pinned))
    }

    /** The first `k` of the writes `ws` have been made on top of the given state; after a
        panic (`!ok`) only the disk matters. */
    ghost predicate Made(ws: seq<Write>, k: nat, ok: bool, disk0: Image, latest0: Image, writes0: seq<Write>)
      reads bc`latest, bc.disk
    {
      && k <= |ws| && InRange(|disk0|, ws) && |latest0| == |disk0|
      && bc.disk.writes == writes0 + ws[..k]
      && bc.disk.blocks == Apply(disk0, ws[..k])
      && (ok ==> bc.latest == Apply(latest0, ws[..k]))
    }

    lemma NothingMade()
      requires Ready()
      ensures Loggable(l, |bc.latest|, lh) && |bc.latest| == |bc.disk.blocks|
      ensures Made(InstallWrites(l, lh, bc.latest), 0, true, bc.disk.blocks, bc.latest, bc.disk.writes)
      ensures Made(LogWrites(l, lh, bc.latest), 0, true, bc.disk.blocks, bc.latest, bc.disk.writes)
    {
      assert InstallWrites(l, lh, bc.latest)[..0] == [];
      assert LogWrites(l, lh, bc.latest)[..0] == [];
    }

    /** install_trans: copy the logged blocks from the log to their home locations. */
    method InstallTrans() returns (ok: bool, ghost done: nat)
      requires Ready()
      modifies bc, bc.bufs, bc.head, bc.disk
      ensures bc.bufs == old(bc.bufs)
      ensures done <= |lh| && (ok ==> done == |lh|)
      ensures Made(InstallWrites(l, lh, old(bc.latest)), done, ok, old(bc.disk.blocks), old(bc.latest),
          old(bc.disk.writes))
      ensures ok ==> Ready() && bc.Holders() == old(bc.Holders())
      ensures ok ==> bc.DirtyBlocks() == old(bc.DirtyBlocks()) - Set(lh)
      ensures old(Roomy(bc.DirtyBlocks())) ==> ok
    {
      ghost var latest0, disk0, writes0 := bc.latest, bc.disk.blocks, bc.disk.writes;
      ghost var pinned := bc.DirtyBlocks();
      hide Bcache.Valid, Bcache.DirtyBlocks, Bcache.Holders, Bcache.Held, InstallWrites, Ready, Made, Loggable,
          Roomy, Apply, Home, HomeEq;
      NothingMade();
      assert Set(lh[..0]) == {} && pinned - {} == pinned by { assert lh[..0] == []; }
      var tail := 0;
      ok, done := true, 0;
      while tail < |lh|
        invariant done == tail <= |lh| && bc.bufs == old(bc.bufs) && ok && |bc.latest| == |latest0|
        invariant Ready() && Made(InstallWrites(l, lh, latest0), tail, true, disk0, latest0, writes0)
        invariant bc.DirtyBlocks() == pinned - Set(lh[..tail]) && bc.Holders() == old(bc.Holders())
      {
        ok := InstallNext(tail, disk0, latest0, writes0, pinned);
        if !ok { return; }
        tail := tail + 1;
        done := tail;
      }
      assert lh[..tail] == lh;
    }

    method InstallNext(tail: nat, ghost disk0: Image, ghost latest0: Image, ghost writes0: seq<Write>,
                       ghost pinned: set<nat>) returns (ok: bool)
      requires Ready() && tail < |lh| && |latest0| == |bc.latest|
      requires Made(InstallWrites(l, lh, latest0), tail, true, disk0, latest0, writes0)
      requires bc.DirtyBlocks() == pinned - Set(lh[..tail])
      modifies bc, bc.bufs, bc.head, bc.disk
      ensures bc.bufs == old(bc.bufs)
      ensures ok ==> Ready() && |bc.latest| == |latest0|
      ensures Made(InstallWrites(l, lh, latest0), if ok then tail + 1 else tail, ok, disk0, latest0, writes0)
      ensures ok ==> bc.DirtyBlocks() == pinned - Set(lh[..tail + 1]) && bc.Holders() == old(bc.Holders())
      ensures old(Roomy(pinned)) ==> ok
    {
      hide Bcache.Valid, Bcache.DirtyBlocks, Bcache.Holders, Bcache.Held, Apply, InstallWrites;
      ghost var ws := InstallWrites(l, lh, latest0);
      SubsetSize(bc.DirtyBlocks(), pinned);
      InstallStep(l, lh, disk0, latest0, tail);
      InstallStep(l, lh, latest0, latest0, tail);
      AppendAssoc(writes0, ws[..tail], Write(lh[tail], latest0[l.start + tail + 1]));
      assert lh[..tail + 1] == lh[..tail] + [lh[tail]];
      UndisturbedUnheld(l.start + tail + 1);
      UndisturbedUnheld(lh[tail]);
      ok := InstallBlock(l.start + tail + 1, lh[tail]);
    }

    /** write_log: copy the logged blocks from the cache to the log. */
    method WriteLog() returns (ok: bool, ghost done: nat)
      requires Ready()
      modifies bc, bc.bufs, bc.head, bc.disk
      ensures bc.bufs == old(bc.bufs)
      ensures done <= |lh| && (ok ==> done == |lh|)
      ensures Made(LogWrites(l, lh, old(bc.latest)), done, ok, old(bc.disk.blocks), old(bc.latest), old(bc.disk.writes))
      ensures ok ==> Ready() && bc.DirtyBlocks() == old(bc.DirtyBlocks()) && bc.Holders() == old(bc.Holders())
      ensures old(Roomy(bc.DirtyBlocks())) ==> ok
    {
      hide *;
      ghost var latest0, disk0, writes0 := bc.latest, bc.disk.blocks, bc.disk.writes;
      NothingMade();
      var tail := 0;
      ok, done := true, 0;
      while tail < |lh|
        invariant done == tail <= |lh| && bc.bufs == old(bc.bufs) && ok && |bc.latest| == |latest0|
        invariant Ready() && Made(LogWrites(l, lh, latest0), tail, true, disk0, latest0, writes0)
        invariant bc.DirtyBlocks() == old(bc.DirtyBlocks()) && bc.Holders() == old(bc.Holders())
        invariant old(Roomy(bc.DirtyBlocks())) ==> Roomy(bc.DirtyBlocks())
      {
        ok := LogNext(tail, disk0, latest0, writes0);
        if !ok { return; }
        tail := tail + 1;
        done := tail;
      }
    }

    method LogNext(tail: nat, ghost disk0: Image, ghost latest0: Image, ghost writes0: seq<Write>) returns (ok: bool)
      requires Ready() && tail < |lh| && |latest0| == |bc.latest|
      requires Made(LogWrites(l, lh, latest0), tail, true, disk0, latest0, writes0)
      modifies bc, bc.bufs, bc.head, bc.disk
      ensures bc.bufs == old(bc.bufs)
      ensures ok ==> Ready() && |bc.latest| == |latest0|
      ensures Made(LogWrites(l, lh, latest0), if ok then tail + 1 else tail, ok, disk0, latest0, writes0)
      ensures ok ==> bc.DirtyBlocks() == old(bc.DirtyBlocks()) && bc.Holders() == old(bc.Holders())
      ensures old(Roomy(bc.DirtyBlocks())) ==> ok && Roomy(bc.DirtyBlocks())
    {
      hide Bcache.Valid, Bcache.DirtyBlocks, Bcache.Holders, Bcache.Held, Apply, LogWrites;
      ghost var ws := LogWrites(l, lh, latest0);
      LogStep(l, lh, disk0, latest0, tail);
      LogStep(l, lh, latest0, latest0, tail);
      AppendAssoc(writes0, ws[..tail], Write(l.start + tail + 1, latest0[lh[tail]]));
      UndisturbedUnheld(l.start + tail + 1);
      UndisturbedUnheld(lh[tail]);
      ok := LogBlock(lh[tail], l.start + tail + 1);
    }

    /** read_head: the list of logged blocks as the header block on disk has it. */
    method ReadHead() returns (ok: bool)
      requires bc.Valid() && bc.Unheld(l.start) && l.start < |bc.latest|
      requires HeaderCount(bc.latest[l.start]) < WORDS_PER_BLOCK
      modifies this`lh, bc, bc.bufs, bc.head, bc.disk
      ensures bc.bufs == old(bc.bufs) && bc.latest == old(bc.latest)
      ensures bc.disk.blocks == old(bc.disk.blocks) && bc.disk.writes == old(bc.disk.writes)
      ensures ok ==> bc.Valid() && bc.Holders() == old(bc.Holders()) && bc.DirtyBlocks() == old(bc.DirtyBlocks())
      ensures ok ==> lh == HeaderBlocks(bc.latest[l.start])
      ensures |bc.bufs| > |old(bc.DirtyBlocks())| + |old(bc.Holders())| ==> ok
    {
      hide *;
      var buf := bc.Bread(l.start);
      if buf == null { return false; }
      lh := Entries(buf.data);
      AddRemove(old(bc.Holders()), buf, bc.Holders());
      bc.Brelse(buf);
      ok := true;
    }

    /** The copying loop of read_head. */
    static method Entries(h: Block) returns (blocks: seq<nat>)
      requires HeaderCount(h) < WORDS_PER_BLOCK
      ensures blocks == HeaderBlocks(h)
    {
      blocks := [];
      var n: nat := GetU32(h, 0);
      for i := 0 to n
        invariant blocks == HeaderBlocks(h)[..i]
      {
        blocks := blocks + [GetU32(h, i + 1)];
      }
    }

    /** The copying loop of write_head. */
    static method Header(h: Block, blocks: seq<nat>) returns (data: Block)
      requires |blocks| < WORDS_PER_BLOCK && forall i | 0 <= i < |blocks| :: blocks[i] < TWO32
      ensures data == PutHeader(h, blocks)
    {
      data := PutU32(h, 0, |blocks|);
      for i := 0 to |blocks|
        invariant data == PutBlocks(h, blocks, i)
      {
        data := PutU32(data, i + 1, blocks[i]);
      }
    }

    /** write_head: the list in memory replaces the one in the header block. */
    method WriteHead() returns (ok: bool)
      requires Ready()
      modifies bc, bc.bufs, bc.head, bc.disk
      ensures bc.bufs == old(bc.bufs)
      ensures ok ==>
        var w := Write(l.start, PutHeader(old(bc.latest)[l.start], lh));
        && Ready() && bc.DirtyBlocks() == old(bc.DirtyBlocks()) && bc.Holders() == old(bc.Holders())
        && bc.latest == old(bc.latest)[w.blockno := w.data]
        && bc.disk.blocks == old(bc.disk.blocks)[w.blockno := w.data]
        && bc.disk.writes == old(bc.disk.writes) + [w]
      ensures !ok ==> bc.disk.blocks == old(bc.disk.blocks) && bc.disk.writes == old(bc.disk.writes)
      ensures |bc.bufs| > |old(bc.DirtyBlocks())| + |old(bc.Holders())| ==> ok
    {
      hide *;
      NotHome();
      UndisturbedUnheld(l.start);
      var buf := bc.Bread(l.start);
      if buf == null { return false; }
      AddRemove(old(bc.Holders()), buf, bc.Holders());
      StoreHead(buf);
      StillReady();
      ok := true;
    }

    method StoreHead(b: Buf)
      requires bc.Valid() && b in bc.bufs && b.locked && b.valid && b.refcnt == 1
      requires |lh| < WORDS_PER_BLOCK && forall i | 0 <= i < |lh| :: lh[i] < TWO32
      modifies bc, bc.bufs, bc.head, bc.disk
      ensures bc.Valid() && bc.Holders() == old(bc.Holders()) - {b} && bc.bufs == old(bc.bufs)
      ensures var w := Write(old(b.blockno), PutHeader(old(b.data), lh));
              && bc.latest == old(bc.latest)[w.blockno := w.data]
              && bc.disk.blocks == old(bc.disk.blocks)[w.blockno := w.data]
              && bc.disk.writes == old(bc.disk.writes) + [w]
              && bc.DirtyBlocks() == old(bc.DirtyBlocks()) - {w.blockno}
    {
      hide *;
      var data := Header(b.data, lh);
      StoreAndRelease(b, data);
    }

    lemma NotHome()
      requires Ready()
      ensures !Home(l, l.start) && l.start < |bc.latest| == |bc.disk.blocks|
      ensures bc.Valid() && Undisturbed() && bc.DirtyBlocks() - {l.start} == bc.DirtyBlocks()
      ensures Loggable(l, |bc.latest|, lh)
      ensures |lh| < WORDS_PER_BLOCK && forall i | 0 <= i < |lh| :: lh[i] < TWO32
    {
      assert l.start !in bc.DirtyBlocks();
    }

    twostate lemma StillLogged()
      requires old(Logged()) && lh == old(lh) && bc.Valid() && bc.DirtyBlocks() == old(bc.DirtyBlocks())
      requires |bc.latest| == |old(bc.latest)| && bc.disk.blocks == old(bc.disk.blocks)
      ensures Logged()
    {
      hide Bcache.Valid, Bcache.DirtyBlocks, Loggable, Distinct;
    }

    twostate lemma StillReady()
      requires old(Ready()) && lh == old(lh) && bc.Valid() && bc.Holders() == old(bc.Holders())
      requires bc.DirtyBlocks() == old(bc.DirtyBlocks())
      requires |bc.latest| == |old(bc.latest)| && |bc.disk.blocks| == |old(bc.disk.blocks)|
      ensures Ready()
    {
      hide Bcache.Valid, Bcache.DirtyBlocks, Bcache.Holders, Loggable;
    }

    method StoreAndRelease(b: Buf, data: Block)
      requires bc.Valid() && b in bc.bufs && b.locked && b.valid && b.refcnt == 1
      modifies bc, bc.bufs, bc.head, bc.disk
      ensures bc.Valid() && bc.Holders() == old(bc.Holders()) - {b} && bc.bufs == old(bc.bufs)
      ensures bc.latest == old(bc.latest)[old(b.blockno) := data]
      ensures bc.disk.blocks == old(bc.disk.blocks)[old(b.blockno) := data]
      ensures bc.disk.writes == old(bc.disk.writes) + [Write(old(b.blockno), data)]
      ensures bc.DirtyBlocks() == old(bc.DirtyBlocks()) - {old(b.blockno)}
    {
      hide *;
      Store(b, data);
      bc.Brelse(b);
    }

    /** recover_from_log, on a cache that holds nothing yet. However far it gets, the writes it
        makes are the first `done` of RecoveryWrites. */
    method RecoverFromLog() returns (ok: bool, ghost done: nat)
      requires bc.Valid() && bc.Holders() == map[] && bc.DirtyBlocks() == {}
      requires HeaderOK(l, bc.disk.blocks)
      modifies this`lh, bc, bc.bufs, bc.head, bc.disk
      ensures bc.bufs == old(bc.bufs)
      ensures var ws := RecoveryWrites(l, old(bc.disk.blocks));
              && done <= |ws| && (ok ==> done == |ws|)
              && bc.disk.writes == old(bc.disk.writes) + ws[..done]
              && bc.disk.blocks == Crash(old(bc.disk.blocks), ws, done)
      ensures ok ==> Valid() && lh == [] && bc.Holders() == map[]
      ensures |bc.bufs| > 1 ==> ok
    {
      ghost var disk0 := bc.disk.blocks;
      RecoveryPhases(l, disk0, bc.disk.writes);
      assert RecoveryWrites(l, disk0)[..0] == [] && Apply(disk0, []) == disk0;
      bc.NothingPinned();
      hide Bcache.Valid, Bcache.DirtyBlocks, Bcache.Holders, Bcache.Held, Loggable;
      hide RecoveryWrites, InstallWrites, Apply, PutHeader, HeaderBlocks, HeaderCount;
      done := 0;
      ok := ReadHead();
      if !ok { return; }
      assert |bc.bufs| > 1 ==> Roomy({});
      hide Roomy, Ready, Valid;
      ok, done := InstallTrans();
      if !ok { return; }
      ok := EraseHead();
      if ok { done := done + 1; }
    }

    /** The common end of commit and of recovery: log.lh.n = 0; write_head() */
    method EraseHead() returns (ok: bool)
      requires Ready() && bc.DirtyBlocks() == {}
      modifies this`lh, bc, bc.bufs, bc.head, bc.disk
      ensures bc.bufs == old(bc.bufs)
      ensures ok ==>
        var w := Write(l.start, PutHeader(old(bc.latest)[l.start], []));
        && Valid() && lh == [] && bc.Holders() == old(bc.Holders())
        && bc.latest == old(bc.latest)[w.blockno := w.data]
        && bc.disk.blocks == old(bc.disk.blocks)[w.blockno := w.data]
        && bc.disk.writes == old(bc.disk.writes) + [w]
      ensures !ok ==> bc.disk.blocks == old(bc.disk.blocks) && bc.disk.writes == old(bc.disk.writes)
      ensures |bc.bufs| > |old(bc.Holders())| ==> ok
    {
      hide Bcache.Valid, Bcache.DirtyBlocks, Bcache.Holders, Bcache.Held, PutHeader;
      HeaderRoundTrip(bc.latest[l.start], []);
      lh := [];
      ok := WriteHead();
    }

    /** The disk has seen the first `k` writes of committing `blocks`, on top of the given state. */
    ghost predicate CommitMade(blocks: seq<nat>, k: nat, disk0: Image, latest0: Image, writes0: seq<Write>)
      requires |disk0| == |latest0| && Loggable(l, |disk0|, blocks)
      reads bc.disk
    {
      var ws := CommitWrites(l, blocks, latest0);
      && k <= |ws|
      && bc.disk.writes == writes0 + ws[..k]
      && bc.disk.blocks == Crash(disk0, ws, k)
    }

    lemma ReadyFacts()
      requires Valid()
      ensures ReadyToCommit(l, lh, bc.disk.blocks, bc.latest)
      ensures Roomy(bc.DirtyBlocks()) <==> |bc.bufs| > |lh| + |bc.Holders()|
      ensures |bc.DirtyBlocks()| == |lh|
    {
      PinnedRoom();
    }

    lemma PinnedRoom()
      requires Distinct(lh) && bc.DirtyBlocks() == Set(lh)
      ensures Roomy(bc.DirtyBlocks()) <==> |bc.bufs| > |lh| + |bc.Holders()|
      ensures |bc.DirtyBlocks()| == |lh|
    {
      DistinctSize(lh);
      forall i | 0 <= i < |lh|
        ensures lh[i] in bc.DirtyBlocks()
      {
        assert lh[i] in Set(lh);
      }
    }

    /** commit. However far it gets, the writes it makes are the first `done` of CommitWrites;
        when it finishes, the home blocks on disk are what the cache showed. */
    method Commit() returns (ok: bool, ghost done: nat)
      requires Valid()
      modifies this`lh, bc, bc.bufs, bc.head, bc.disk
      ensures bc.bufs == old(bc.bufs)
      ensures CommitMade(old(lh), done, old(bc.disk.blocks), old(bc.latest), old(bc.disk.writes))
      ensures ok ==> done == |CommitWrites(l, old(lh), old(bc.latest))|
      ensures ok ==> Valid() && lh == [] && bc.Holders() == old(bc.Holders())
      ensures ok ==> HomeEq(l, bc.disk.blocks, old(bc.latest)) && HomeEq(l, bc.latest, old(bc.latest))
      ensures |bc.bufs| > |old(lh)| + |old(bc.Holders())| ==> ok
    {
      hide *;
      ok, done := true, 0;
      if |lh| > 0 {
        ghost var disk0, latest0, writes0 := bc.disk.blocks, bc.latest, bc.disk.writes;
        CommitFacts();
        ok, done := CommitLog();
        if !ok { return; }
        ok, done := CommitInstall(disk0, latest0, writes0);
        if !ok { return; }
        ok, done := CommitErase(disk0, latest0, writes0);
      } else {
        EmptyCommit();
      }
    }

    lemma CommitFacts()
      requires Valid()
      ensures Ready() && Distinct(lh) && bc.DirtyBlocks() == Set(lh)
      ensures ReadyToCommit(l, lh, bc.disk.blocks, bc.latest)
      ensures |bc.disk.blocks| == |bc.latest| && Loggable(l, |bc.disk.blocks|, lh)
    {
    }

    lemma EmptyCommit()
      requires Valid() && lh == []
      ensures Loggable(l, |bc.latest|, lh)
      ensures CommitMade(lh, 0, bc.disk.blocks, bc.latest, bc.disk.writes) && CommitWrites(l, lh, bc.latest) == []
      ensures HomeEq(l, bc.disk.blocks, bc.latest) && HomeEq(l, bc.latest, bc.latest)
    {
      bc.NothingPinned();
    }

    /** write_log(); write_head() */
    method CommitLog() returns (ok: bool, ghost done: nat)
      requires Valid() && lh != []
      modifies bc, bc.bufs, bc.head, bc.disk
      ensures bc.bufs == old(bc.bufs)
      ensures CommitMade(lh, done, old(bc.disk.blocks), old(bc.latest), old(bc.disk.writes))
      ensures ok ==> done == CommitPoint(lh) && Ready() && bc.DirtyBlocks() == old(bc.DirtyBlocks())
      ensures ok ==> bc.Holders() == old(bc.Holders())
      ensures ok ==> bc.disk.writes == old(bc.disk.writes) + CommitWrites(l, lh, old(bc.latest))[..CommitPoint(lh)]
      ensures ok ==> bc.disk.blocks == Committed(l, lh, old(bc.disk.blocks), old(bc.latest))
      ensures ok ==> bc.latest == Sealed(l, lh, old(bc.latest))
      ensures |bc.bufs| > |lh| + |old(bc.Holders())| ==> ok
    {
      hide Logged, Undisturbed, Valid, Ready, Roomy, Made, Bcache.Valid, Bcache.DirtyBlocks, Bcache.Holders, Set;
      hide Distinct, CommitWrites, LogWrites, PutHeader, Apply, Loggable, Committed, Sealed, ReadyToCommit;
      ghost var disk0, latest0, writes0 := bc.disk.blocks, bc.latest, bc.disk.writes;
      ReadyFacts();
      CommitFacts();
      ok, done := WriteLog();
      LogIsCommit(done, ok, disk0, latest0, writes0);
      if !ok { return; }
      HeadIsCommit(disk0, latest0, writes0, bc.disk.blocks, bc.latest, bc.disk.writes);
      ok := WriteHead();
      if ok {
        done := done + 1;
        HeadIsMade(disk0, latest0, writes0);
      }
    }

    /** The writes of write_log are the first ones of a commit. */
    lemma LogIsCommit(d: nat, ok: bool, disk0: Image, latest0: Image, writes0: seq<Write>)
      requires |disk0| == |latest0| && Loggable(l, |disk0|, lh) && lh != [] && d <= |lh|
      requires Made(LogWrites(l, lh, latest0), d, ok, disk0, latest0, writes0)
      ensures CommitMade(lh, d, disk0, latest0, writes0) && CommitPoint(lh) <= |CommitWrites(l, lh, latest0)|
      ensures d == |lh| ==> bc.disk.blocks == Apply(disk0, LogWrites(l, lh, latest0))
      ensures d == |lh| ==> bc.disk.writes == writes0 + LogWrites(l, lh, latest0)
      ensures d == |lh| && ok ==> bc.latest == Apply(latest0, LogWrites(l, lh, latest0))
    {
      CommitPhasesHead(l, lh, disk0, latest0, writes0);
      hide CommitWrites, LogWrites, PutHeader, Apply, Loggable, Committed;
    }

    /** And then comes the header. */
    lemma HeadIsCommit(disk0: Image, latest0: Image, writes0: seq<Write>, disk1: Image, latest1: Image,
                       writes1: seq<Write>)
      requires |disk0| == |latest0| && Loggable(l, |disk0|, lh) && lh != []
      requires disk1 == Apply(disk0, LogWrites(l, lh, latest0)) && writes1 == writes0 + LogWrites(l, lh, latest0)
      requires latest1 == Apply(latest0, LogWrites(l, lh, latest0))
      ensures l.start < |disk1| == |latest1| && |lh| < WORDS_PER_BLOCK && forall i | 0 <= i < |lh| :: lh[i] < TWO32
      ensures var w := Write(l.start, PutHeader(latest1[l.start], lh));
              && disk1[w.blockno := w.data] == Committed(l, lh, disk0, latest0)
              && latest1[w.blockno := w.data] == Sealed(l, lh, latest0)
              && writes1 + [w] == writes0 + CommitWrites(l, lh, latest0)[..CommitPoint(lh)]
    {
      CommitPhasesHead(l, lh, disk0, latest0, writes0);
      CommitPhasesHead(l, lh, latest0, latest0, writes0);
      hide CommitWrites, LogWrites, PutHeader, Apply, Committed;
    }

    lemma HeadIsMade(disk0: Image, latest0: Image, writes0: seq<Write>)
      requires |disk0| == |latest0| && Loggable(l, |disk0|, lh) && lh != []
      requires bc.disk.blocks == Committed(l, lh, disk0, latest0)
      requires CommitPoint(lh) <= |CommitWrites(l, lh, latest0)|
      requires bc.disk.writes == writes0 + CommitWrites(l, lh, latest0)[..CommitPoint(lh)]
      ensures CommitMade(lh, CommitPoint(lh), disk0, latest0, writes0)
    {
      CommitPhasesHead(l, lh, disk0, latest0, writes0);
      hide CommitWrites, LogWrites, PutHeader, Apply, Committed;
    }

    lemma ReadyFor(disk0: Image, latest0: Image)
      requires ReadyToCommit(l, lh, disk0, latest0)
      ensures |disk0| == |latest0| && Loggable(l, |disk0|, lh)
    {
    }

    /** install_trans() as commit calls it */
    method CommitInstall(ghost disk0: Image, ghost latest0: Image, ghost writes0: seq<Write>)
      returns (ok: bool, ghost done: nat)
      requires Ready() && lh != [] && Distinct(lh) && bc.DirtyBlocks() == Set(lh)
      requires ReadyToCommit(l, lh, disk0, latest0)
      requires bc.disk.writes == writes0 + CommitWrites(l, lh, latest0)[..CommitPoint(lh)]
      requires bc.disk.blocks == Committed(l, lh, disk0, latest0) && bc.latest == Sealed(l, lh, latest0)
      modifies bc, bc.bufs, bc.head, bc.disk
      ensures bc.bufs == old(bc.bufs)
      ensures CommitMade(lh, done, disk0, latest0, writes0)
      ensures ok ==> done == CommitPoint(lh) + |lh| && Ready() && bc.DirtyBlocks() == {}
      ensures ok ==> bc.Holders() == old(bc.Holders())
      ensures ok ==> bc.disk.blocks == Apply(Committed(l, lh, disk0, latest0), InstalledWrites(lh, latest0))
      ensures ok ==> bc.latest == Apply(Sealed(l, lh, latest0), InstalledWrites(lh, latest0))
      ensures |bc.bufs| > |lh| + |old(bc.Holders())| ==> ok
    {
      hide Bcache.Valid, Bcache.DirtyBlocks, Bcache.Holders, Bcache.Held, Roomy, Distinct, Set, Ready, Made,
          CommitMade, Loggable;
      hide CommitWrites, InstallWrites, InstalledWrites, PutHeader, Apply, Committed, Sealed, Home;
      ReadyFor(disk0, latest0);
      PinnedRoom();
      ok, done := InstallTrans();
      InstallIsCommit(done, ok, disk0, latest0, writes0);
      done := CommitPoint(lh) + done;
    }

    /** The writes of install_trans continue those of the commit it is called from. */
    lemma InstallIsCommit(d: nat, ok: bool, disk0: Image, latest0: Image, writes0: seq<Write>)
      requires |disk0| == |latest0| && Loggable(l, |disk0|, lh) && lh != [] && d <= |lh|
      requires Made(InstallWrites(l, lh, Sealed(l, lh, latest0)), d, ok, Committed(l, lh, disk0, latest0),
                    Sealed(l, lh, latest0), writes0 + CommitWrites(l, lh, latest0)[..CommitPoint(lh)])
      ensures CommitMade(lh, CommitPoint(lh) + d, disk0, latest0, writes0)
      ensures d == |lh| ==> bc.disk.blocks == Apply(Committed(l, lh, disk0, latest0), InstalledWrites(lh, latest0))
      ensures d == |lh| && ok ==> bc.latest == Apply(Sealed(l, lh, latest0), InstalledWrites(lh, latest0))
    {
      hide CommitWrites, InstallWrites, InstalledWrites, PutHeader, Apply, Committed, Home, Sealed;
      CommitInstalls(l, lh, latest0);
      assert InstalledWrites(lh, latest0)[..|lh|] == InstalledWrites(lh, latest0);
      CommitPhasesTail(l, lh, disk0, latest0, writes0, d);
    }

    /** log.lh.n = 0; write_head() as commit calls them */
    method CommitErase(ghost disk0: Image, ghost latest0: Image, ghost writes0: seq<Write>)
      returns (ok: bool, ghost done: nat)
      requires Ready() && lh != [] && bc.DirtyBlocks() == {}
      requires ReadyToCommit(l, lh, disk0, latest0)
      requires CommitMade(lh, CommitPoint(lh) + |lh|, disk0, latest0, writes0)
      requires bc.disk.blocks == Apply(Committed(l, lh, disk0, latest0), InstalledWrites(lh, latest0))
      requires bc.latest == Apply(Sealed(l, lh, latest0), InstalledWrites(lh, latest0))
      modifies this`lh, bc, bc.bufs, bc.head, bc.disk
      ensures bc.bufs == old(bc.bufs)
      ensures CommitMade(old(lh), done, disk0, latest0, writes0)
      ensures ok ==> done == |CommitWrites(l, old(lh), latest0)|
      ensures ok ==> Valid() && lh == [] && bc.Holders() == old(bc.Holders())
      ensures ok ==> HomeEq(l, bc.disk.blocks, latest0) && HomeEq(l, bc.latest, latest0)
      ensures |bc.bufs| > |old(bc.Holders())| ==> ok
    {
      hide Bcache.Valid, Bcache.DirtyBlocks, Bcache.Holders, Bcache.Held, Ready, Valid, ReadyToCommit, Sealed;
      hide CommitWrites, InstalledWrites, PutHeader, Apply, Loggable, Committed, HomeEq;
      ReadyFor(disk0, latest0);
      CommitEnd(disk0, latest0, writes0);
      ok := EraseHead();
      done := CommitPoint(old(lh)) + |old(lh)|;
      if ok { done := done + 1; }
    }

    /** What the last write of a commit does to disk and cache. */
    lemma CommitEnd(disk0: Image, latest0: Image, writes0: seq<Write>)
      requires lh != [] && ReadyToCommit(l, lh, disk0, latest0)
      requires CommitMade(lh, CommitPoint(lh) + |lh|, disk0, latest0, writes0)
      requires bc.disk.blocks == Apply(Committed(l, lh, disk0, latest0), InstalledWrites(lh, latest0))
      requires bc.latest == Apply(Sealed(l, lh, latest0), InstalledWrites(lh, latest0))
      ensures l.start < |bc.latest| == |bc.disk.blocks|
      ensures var cleared, ws := PutHeader(bc.latest[l.start], []), CommitWrites(l, lh, latest0);
              && |ws| == CommitPoint(lh) + |lh| + 1 && ws[..|ws|] == ws
              && bc.disk.writes + [Write(l.start, cleared)] == writes0 + ws
              && bc.disk.blocks[l.start := cleared] == Apply(disk0, ws)
              && HomeEq(l, bc.disk.blocks[l.start := cleared], latest0)
              && HomeEq(l, bc.latest[l.start := cleared], latest0)
    {
      CommitInstalls(l, lh, latest0);
      CommitBringsHome(l, lh, disk0, latest0);
      CommitBringsHome(l, lh, latest0, latest0);
      CommitPhasesEnd(l, lh, disk0, latest0, writes0);
      hide CommitWrites, InstallWrites, InstalledWrites, PutHeader, Apply, Committed, HomeEq;
      HomeEqUpdate(l, bc.disk.blocks, latest0, l.start, PutHeader(bc.latest[l.start], []));
      HomeEqUpdate(l, bc.latest, latest0, l.start, PutHeader(bc.latest[l.start], []));
    }

    /** log_write: record the held buffer's block once, and pin the buffer. Fails (panics) when the
        log is full, even if the block is already recorded, and outside of a transaction. */
    method LogWrite(b: Buf) returns (ok: bool)
      requires Logged() && b in bc.bufs && b.locked && b.valid && Home(l, b.blockno)
      modifies this`lh, b`dirty, bc`latest
      ensures ok <==> |old(lh)| < LOGSIZE == 30 && |old(lh)| < l.size - 1 && outstanding >= 1
      ensures !ok ==> lh == old(lh) && bc.latest == old(bc.latest) && b.dirty == old(b.dirty)
      ensures ok ==> Logged() && bc.Held() == old(bc.Held())
      ensures ok ==> bc.latest == old(bc.latest)[b.blockno := b.data]
      ensures ok ==> lh == if b.blockno in old(lh) then old(lh) else old(lh) + [b.blockno]
    {
      if |lh| >= LOGSIZE || |lh| >= l.size - 1 || outstanding < 1 {
        return false;
      }
      assert b.blockno < |bc.latest|;
      Record(b.blockno);
      hide Bcache.Valid, Bcache.Held, Bcache.DirtyBlocks, Set, Distinct;
      bc.Pin(b);
      ok := true;
    }

    /** The absorbing loop of log_write. */
    method Record(blockno: nat)
      requires Distinct(lh)
      modifies this`lh
      ensures lh == if blockno in old(lh) then old(lh) else old(lh) + [blockno]
      ensures Distinct(lh) && Set(lh) == Set(old(lh)) + {blockno}
    {
      var i := 0;
      while i < |lh| && lh[i] != blockno
        invariant i <= |lh| && blockno !in lh[..i]
      {
        i := i + 1;
      }
      if i == |lh| {
        assert lh[..i] == lh;
        lh := lh + [blockno];
      } else {
        lh := lh[i := blockno];
      }
    }

    /** One turn of begin_op's loop, with log.lock held; on failure the caller sleeps. */
    method BeginOp() returns (granted: bool)
      modifies this`outstanding
      ensures granted <==> !committing && |lh| + (old(outstanding) + 1) * MAXOPBLOCKS <= LOGSIZE
      ensures MAXOPBLOCKS == 10 && LOGSIZE == 30
      ensures outstanding == if granted then old(outstanding) + 1 else old(outstanding)
    {
      if committing {
        return false;
      } else if |lh| + (outstanding + 1) * MAXOPBLOCKS > LOGSIZE {
        return false;
      } else {
        outstanding := outstanding + 1;
        return true;
      }
    }

    /** end_op, run to its end; the last outstanding operation commits. */
    method EndOp() returns (ok: bool, ghost done: nat)
      requires Logged() && outstanding > 0 && !committing && (outstanding == 1 ==> Undisturbed())
      modifies this, bc, bc.bufs, bc.head, bc.disk
      ensures bc.bufs == old(bc.bufs) && outstanding == old(outstanding) - 1
      ensures ok ==> Logged() && !committing && bc.Holders() == old(bc.Holders())
      ensures outstanding > 0 ==>
        && ok && lh == old(lh) && bc.latest == old(bc.latest)
        && bc.disk.blocks == old(bc.disk.blocks) && bc.disk.writes == old(bc.disk.writes)
      ensures outstanding == 0 ==>
        && CommitMade(old(lh), done, old(bc.disk.blocks), old(bc.latest), old(bc.disk.writes))
        && (ok ==> lh == [] && Undisturbed())
        && (ok ==> done == |CommitWrites(l, old(lh), old(bc.latest))|)
        && (ok ==> HomeEq(l, bc.disk.blocks, old(bc.latest)) && HomeEq(l, bc.latest, old(bc.latest)))
      ensures |bc.bufs| > |old(lh)| + |old(bc.Holders())| ==> ok
    {
      hide Logged, Undisturbed, Bcache.Holders, CommitMade, HomeEq, CommitWrites, Bcache.Valid, Loggable;
      ok, done := true, 0;
      outstanding := outstanding - 1;
      if outstanding == 0 {
        committing := true;
        ok, done := Commit();
        committing := false;
      }
    }

    constructor (bc: Bcache, l: Layout)
      ensures this.bc == bc && this.l == l && outstanding == 0 && !committing && lh == []
    {
      this.bc, this.l, outstanding, committing, lh := bc, l, 0, false, [];
    }
  }

  /** A boot: an empty cache over the disk, and recovery. The machine comes up with the image
      that Recovered describes. */
  method Boot(disk: Disk, nbuf: nat, l: Layout) returns (log: Log)
    requires HeaderOK(l, disk.blocks) && nbuf > 1
    modifies disk
    ensures fresh(log) && fresh(log.bc) && fresh(log.bc.bufs) && fresh(log.bc.head)
    ensures log.l == l && log.bc.disk == disk && |log.bc.bufs| == nbuf
    ensures log.Valid() && log.lh == [] && log.outstanding == 0 && !log.committing && log.bc.Holders() == map[]
    ensures disk.blocks == Recovered(l, old(disk.blocks))
    ensures disk.writes == old(disk.writes) + RecoveryWrites(l, old(disk.blocks))
  {
    hide Blank, Bcache.Valid, Bcache.Holders, Bcache.DirtyBlocks, RecoveryWrites, Backwards, HeaderOK;
    var bc := new Bcache(disk, nbuf);
    bc.NothingCached();
    log := new Log(bc, l);
    var ok, done := log.RecoverFromLog();
    ghost var ws := RecoveryWrites(l, old(disk.blocks));
    assert ws[..|ws|] == ws;
  }
}
