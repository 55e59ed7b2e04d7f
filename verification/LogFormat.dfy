/** The on-disk redo log of log.c: the header block, the writes of a commit and of a
    recovery, and what a crash between any two of those writes leaves behind. */
module LogFormat {
  import opened Words
  import opened Bio

  /** Where the log lies: the header block at `start`, log blocks up to `start + size`. */
  datatype Layout = Layout(start: nat, size: nat)

  predicate Home(l: Layout, b: nat) {
    b < l.start || l.start + l.size <= b
  }

  /** A list of home blocks that fits the log and its header block. */
  predicate Loggable(l: Layout, disksize: nat, blocks: seq<nat>) {
    && |blocks| < l.size && l.start + l.size <= disksize <= TWO32
    && |blocks| < WORDS_PER_BLOCK
    && forall i | 0 <= i < |blocks| :: blocks[i] < disksize && Home(l, blocks[i])
  }

  function HeaderCount(h: Block): nat {
    GetU32(h, 0)
  }

  /** lh.block[0..lh.n) as read_head finds it in the header block. */
  function HeaderBlocks(h: Block): (blocks: seq<nat>)
    requires HeaderCount(h) < WORDS_PER_BLOCK
  {
    seq(HeaderCount(h), i requires 0 <= i < HeaderCount(h) => GetU32(h, i + 1))
  }

  /** The header block after write_head stored the first `k` block numbers. */
  function PutBlocks(h: Block, blocks: seq<nat>, k: nat): Block
    requires k <= |blocks| < WORDS_PER_BLOCK && forall i | 0 <= i < |blocks| :: blocks[i] < TWO32
  {
    if k == 0 then PutU32(h, 0, |blocks|) else PutU32(PutBlocks(h, blocks, k - 1), k, blocks[k - 1])
  }

  function PutHeader(h: Block, blocks: seq<nat>): Block
    requires |blocks| < WORDS_PER_BLOCK && forall i | 0 <= i < |blocks| :: blocks[i] < TWO32
  {
    PutBlocks(h, blocks, |blocks|)
  }

  lemma {:induction false} PutBlocksWords(h: Block, blocks: seq<nat>, k: nat, j: nat)
    requires k <= |blocks| < WORDS_PER_BLOCK && forall i | 0 <= i < |blocks| :: blocks[i] < TWO32
    requires j < WORDS_PER_BLOCK
    ensures GetU32(PutBlocks(h, blocks, k), j) ==
            if j == 0 then |blocks| else if j <= k then blocks[j - 1] else GetU32(h, j)
  {
    if k == 0 {
      PutGetU32(h, 0, |blocks|, j);
    } else {
      PutBlocksWords(h, blocks, k - 1, j);
      PutGetU32(PutBlocks(h, blocks, k - 1), k, blocks[k - 1], j);
    }
  }

  /** What write_head stores, read_head reads back; nothing else of the block changes. */
  lemma HeaderRoundTrip(h: Block, blocks: seq<nat>)
    requires |blocks| < WORDS_PER_BLOCK && forall i | 0 <= i < |blocks| :: blocks[i] < TWO32
    ensures HeaderCount(PutHeader(h, blocks)) == |blocks|
    ensures HeaderBlocks(PutHeader(h, blocks)) == blocks
    ensures forall j | |blocks| < j < WORDS_PER_BLOCK :: GetU32(PutHeader(h, blocks), j) == GetU32(h, j)
  {
    forall j | 0 <= j < WORDS_PER_BLOCK
      ensures GetU32(PutHeader(h, blocks), j) ==
              if j == 0 then |blocks| else if j <= |blocks| then blocks[j - 1] else GetU32(h, j)
    {
      PutBlocksWords(h, blocks, |blocks|, j);
    }
  }

  // ---- the writes of each phase ----

  /** write_log: `data(b)` is the cached contents of home block `b`. */
  function LogWrites(l: Layout, blocks: seq<nat>, latest: Image): (ws: seq<Write>)
    requires Loggable(l, |latest|, blocks)
    ensures |ws| == |blocks| && InRange(|latest|, ws)
  {
    seq(|blocks|, i requires 0 <= i < |blocks| => Write(l.start + 1 + i, latest[blocks[i]]))
  }

  /** install_trans, reading the log blocks of `img`. */
  function InstallWrites(l: Layout, blocks: seq<nat>, img: Image): (ws: seq<Write>)
    requires Loggable(l, |img|, blocks)
    ensures |ws| == |blocks| && InRange(|img|, ws)
  {
    seq(|blocks|, i requires 0 <= i < |blocks| => Write(blocks[i], img[l.start + 1 + i]))
  }

  /** An image whose header names a transaction that fits. */
  predicate HeaderOK(l: Layout, img: Image) {
    && l.start < |img|
    && HeaderCount(img[l.start]) < WORDS_PER_BLOCK
    && Loggable(l, |img|, HeaderBlocks(img[l.start]))
  }

  /** All the writes of recover_from_log on `img`. */
  function RecoveryWrites(l: Layout, img: Image): (ws: seq<Write>)
    requires HeaderOK(l, img)
    ensures InRange(|img|, ws)
  {
    InstallWrites(l, HeaderBlocks(img[l.start]), img) + [Write(l.start, PutHeader(img[l.start], []))]
  }

  /** The disk once recovery has finished. */
  function Recovered(l: Layout, img: Image): Image
    requires HeaderOK(l, img)
  {
    Apply(img, RecoveryWrites(l, img))
  }

  /** All the writes of commit when the cache shows `latest`. */
  function CommitWrites(l: Layout, blocks: seq<nat>, latest: Image): (ws: seq<Write>)
    requires Loggable(l, |latest|, blocks)
    ensures InRange(|latest|, ws)
  {
    if blocks == [] then []
    else CommitHead(l, blocks, latest) + CommitRest(l, blocks, latest)
  }

  /** The writes up to and including the one that commits. */
  function CommitHead(l: Layout, blocks: seq<nat>, latest: Image): (ws: seq<Write>)
    requires Loggable(l, |latest|, blocks)
    ensures InRange(|latest|, ws) && |ws| == CommitPoint(blocks)
  {
    LogWrites(l, blocks, latest) + [Write(l.start, PutHeader(latest[l.start], blocks))]
  }

  function CommitRest(l: Layout, blocks: seq<nat>, latest: Image): (ws: seq<Write>)
    requires Loggable(l, |latest|, blocks)
    ensures InRange(|latest|, ws)
  {
    InstalledWrites(blocks, latest) + [Write(l.start, PutHeader(PutHeader(latest[l.start], blocks), []))]
  }

  /** How many writes a commit makes until its header write has reached the disk. */
  function CommitPoint(blocks: seq<nat>): nat {
    |blocks| + 1
  }

  /** The home writes of a transaction. */
  function InstalledWrites(blocks: seq<nat>, latest: Image): (ws: seq<Write>)
    requires forall i | 0 <= i < |blocks| :: blocks[i] < |latest|
    ensures |ws| == |blocks| && InRange(|latest|, ws)
  {
    seq(|blocks|, i requires 0 <= i < |blocks| => Write(blocks[i], latest[blocks[i]]))
  }

  ghost predicate HomeEq(l: Layout, a: Image, b: Image) {
    |a| == |b| && forall n | 0 <= n < |a| && Home(l, n) :: a[n] == b[n]
  }

  lemma HomeEqTrans(l: Layout, a: Image, b: Image, d: Image)
    requires HomeEq(l, a, b) && HomeEq(l, b, d)
    ensures HomeEq(l, a, d)
  {
  }

  lemma HomeEqUpdate(l: Layout, a: Image, b: Image, n: nat, data: Block)
    requires HomeEq(l, a, b) && n < |a| && !Home(l, n)
    ensures HomeEq(l, a[n := data], b)
  {
  }

  // ---- images and writes ----

  lemma {:induction false} ApplyConcat(img: Image, ws: seq<Write>, vs: seq<Write>)
    requires InRange(|img|, ws) && InRange(|img|, vs)
    ensures InRange(|img|, ws + vs)
    ensures Apply(img, ws + vs) == Apply(Apply(img, ws), vs)
  {
    if vs == [] {
      assert ws + vs == ws;
    } else {
      assert (ws + vs)[..|ws + vs| - 1] == ws + vs[..|vs| - 1];
      ApplyConcat(img, ws, vs[..|vs| - 1]);
    }
  }

  lemma AppendAssoc<T>(a: seq<T>, b: seq<T>, x: T)
    ensures a + (b + [x]) == a + b + [x]
  {
  }

  lemma ApplyLast(img: Image, ws: seq<Write>, w: Write)
    requires InRange(|img|, ws + [w])
    ensures InRange(|img|, ws) && w.blockno < |img|
    ensures Apply(img, ws + [w]) == Apply(img, ws)[w.blockno := w.data]
  {
    assert (ws + [w])[..|ws|] == ws;
    assert (ws + [w])[|ws|] == w;
    assert forall i | 0 <= i < |ws| :: ws[i] == (ws + [w])[i];
  }

  /** A block that no write names keeps its contents. */
  lemma {:induction false} ApplyMiss(img: Image, ws: seq<Write>, n: nat)
    requires InRange(|img|, ws) && n < |img| && forall w <- ws :: w.blockno != n
    ensures Apply(img, ws)[n] == img[n]
  {
    if ws != [] {
      ApplyMiss(img, ws[..|ws| - 1], n);
    }
  }

  /** A block that some write names ends up the same whatever it held before. */
  lemma {:induction false} ApplyHit(a: Image, b: Image, ws: seq<Write>, n: nat)
    requires |a| == |b| && InRange(|a|, ws) && n < |a| && exists w <- ws :: w.blockno == n
    ensures Apply(a, ws)[n] == Apply(b, ws)[n]
  {
    var w := ws[|ws| - 1];
    if w.blockno != n {
      var v :| v in ws && v.blockno == n;
      assert v in ws[..|ws| - 1];
      ApplyHit(a, b, ws[..|ws| - 1], n);
    }
  }

  /** The blocks that the writes are to. */
  function BlocksOf(ws: seq<Write>): set<nat> {
    set i | 0 <= i < |ws| :: ws[i].blockno
  }

  lemma BlocksMore(ws: seq<Write>, w: Write)
    ensures BlocksOf(ws + [w]) == BlocksOf(ws) + {w.blockno}
  {
    var more := ws + [w];
    forall n
      ensures n in BlocksOf(more) <==> n in BlocksOf(ws) || n == w.blockno
    {
      if n in BlocksOf(ws) {
        var i :| 0 <= i < |ws| && ws[i].blockno == n;
        assert more[i].blockno == n;
      }
      assert more[|ws|].blockno == w.blockno;
    }
  }

  /** Writes do the same to images that agree at home. */
  lemma {:induction false} ApplyHome(l: Layout, a: Image, b: Image, ws: seq<Write>)
    requires HomeEq(l, a, b) && InRange(|a|, ws)
    ensures HomeEq(l, Apply(a, ws), Apply(b, ws))
  {
    if ws != [] {
      ApplyHome(l, a, b, ws[..|ws| - 1]);
    }
  }

  /** Redo is idempotent: replaying all writes over any prefix of them changes nothing. */
  lemma Replay(img: Image, ws: seq<Write>, k: nat)
    requires InRange(|img|, ws) && k <= |ws|
    ensures Apply(Apply(img, ws[..k]), ws) == Apply(img, ws)
  {
    var mid := Apply(img, ws[..k]);
    forall n | 0 <= n < |img|
      ensures Apply(mid, ws)[n] == Apply(img, ws)[n]
    {
      if exists w <- ws :: w.blockno == n {
        ApplyHit(mid, img, ws, n);
      } else {
        ApplyMiss(img, ws[..k], n);
        ApplyMiss(mid, ws, n);
        ApplyMiss(img, ws, n);
      }
    }
  }

  // ---- crashes ----

  /** The image a crash leaves after `k` of the writes `ws` reached the disk. */
  function Crash(img: Image, ws: seq<Write>, k: nat): Image
    requires InRange(|img|, ws) && k <= |ws|
  {
    Apply(img, ws[..k])
  }

  /** Only writes at home: the log area is as it was. */
  lemma LogUntouched(l: Layout, img: Image, ws: seq<Write>, n: nat)
    requires InRange(|img|, ws) && forall i | 0 <= i < |ws| :: Home(l, ws[i].blockno)
    requires n < |img| && !Home(l, n)
    ensures Apply(img, ws)[n] == img[n]
  {
    ApplyMiss(img, ws, n);
  }

  /** One step of install_trans, on any image `base` of the same size as the one whose log is read. */
  lemma InstallStep(l: Layout, blocks: seq<nat>, base: Image, img: Image, k: nat)
    requires Loggable(l, |img|, blocks) && |base| == |img| && k < |blocks|
    ensures var ws := InstallWrites(l, blocks, img);
            && ws[..k + 1] == ws[..k] + [Write(blocks[k], img[l.start + k + 1])]
            && Apply(base, ws[..k + 1]) == Apply(base, ws[..k])[blocks[k] := img[l.start + k + 1]]
            && Apply(img, ws[..k])[l.start + k + 1] == img[l.start + k + 1]
  {
    InstallWriteAt(l, blocks, img, k);
    hide InstallWrites, Apply, Loggable;
    ApplyNext(base, InstallWrites(l, blocks, img), k);
  }

  lemma InstallWriteAt(l: Layout, blocks: seq<nat>, img: Image, k: nat)
    requires Loggable(l, |img|, blocks) && k < |blocks|
    ensures InstallWrites(l, blocks, img)[k] == Write(blocks[k], img[l.start + k + 1])
    ensures Apply(img, InstallWrites(l, blocks, img)[..k])[l.start + k + 1] == img[l.start + k + 1]
  {
    hide Apply;
    LogUntouched(l, img, InstallWrites(l, blocks, img)[..k], l.start + k + 1);
  }

  /** One more write. */
  lemma ApplyNext(img: Image, ws: seq<Write>, k: nat)
    requires InRange(|img|, ws) && k < |ws|
    ensures ws[..k + 1] == ws[..k] + [ws[k]]
    ensures Apply(img, ws[..k + 1]) == Apply(img, ws[..k])[ws[k].blockno := ws[k].data]
  {
    assert ws[..k + 1] == ws[..k] + [ws[k]];
    ApplyLast(img, ws[..k], ws[k]);
  }

  /** The writes of a recovery, phase by phase. */
  lemma RecoveryPhases(l: Layout, img: Image, before: seq<Write>)
    requires HeaderOK(l, img)
    ensures var ws, installs, cleared := RecoveryWrites(l, img), InstallWrites(l, HeaderBlocks(img[l.start]), img),
        PutHeader(img[l.start], []);
            && |ws| == |installs| + 1 && ws[..|ws|] == ws && installs[..|installs|] == installs
            && (forall d | 0 <= d <= |installs| :: ws[..d] == installs[..d])
            && Apply(img, installs)[l.start] == img[l.start]
            && Apply(img, ws) == Apply(img, installs)[l.start := cleared]
            && before + ws == before + installs + [Write(l.start, cleared)]
            && HeaderCount(cleared) == 0
  {
    var installs := InstallWrites(l, HeaderBlocks(img[l.start]), img);
    var clear := Write(l.start, PutHeader(img[l.start], []));
    LogUntouched(l, img, installs, l.start);
    ApplyLast(img, installs, clear);
    AppendAssoc(before, installs, clear);
    HeaderRoundTrip(img[l.start], []);
  }

  /** One step of write_log. */
  lemma LogStep(l: Layout, blocks: seq<nat>, base: Image, latest: Image, k: nat)
    requires Loggable(l, |latest|, blocks) && |base| == |latest| && k < |blocks|
    ensures var ws := LogWrites(l, blocks, latest);
            && ws[..k + 1] == ws[..k] + [Write(l.start + k + 1, latest[blocks[k]])]
            && Apply(base, ws[..k + 1]) == Apply(base, ws[..k])[l.start + k + 1 := latest[blocks[k]]]
            && forall n | 0 <= n < |base| && Home(l, n) :: Apply(base, ws[..k])[n] == base[n]
  {
    var ws := LogWrites(l, blocks, latest);
    assert ws[k] == Write(l.start + k + 1, latest[blocks[k]]);
    forall n | 0 <= n < |base| && Home(l, n)
      ensures Apply(base, ws[..k])[n] == base[n]
    {
      ApplyMiss(base, ws[..k], n);
    }
    hide LogWrites, Apply, Loggable;
    ApplyNext(base, ws, k);
  }

  /** A crash inside recovery is harmless: recovering again gives the same home blocks. */
  lemma CrashInRecovery(l: Layout, img: Image, k: nat)
    requires HeaderOK(l, img) && k <= |RecoveryWrites(l, img)|
    ensures HeaderOK(l, Crash(img, RecoveryWrites(l, img), k))
    ensures HomeEq(l, Recovered(l, Crash(img, RecoveryWrites(l, img), k)), Recovered(l, img))
  {
    var ws := RecoveryWrites(l, img);
    var mid := Crash(img, ws, k);
    var blocks := HeaderBlocks(img[l.start]);
    if k <= |blocks| {
      forall n | l.start <= n < l.start + l.size
        ensures mid[n] == img[n]
      {
        LogUntouched(l, img, ws[..k], n);
      }
      assert RecoveryWrites(l, mid) == ws;
      Replay(img, ws, k);
    } else {
      assert ws[..k] == ws;
      HeaderRoundTrip(img[l.start], []);
      assert mid[l.start] == PutHeader(img[l.start], []);
      ClearedIsStable(l, mid);
    }
  }

  /** With an empty transaction in the header, recovery leaves every home block alone. */
  lemma ClearedIsStable(l: Layout, img: Image)
    requires l.start < |img| && l.start + l.size <= |img| <= TWO32 && l.size > 0
    requires HeaderCount(img[l.start]) == 0
    ensures HeaderOK(l, img) && HomeEq(l, Recovered(l, img), img)
  {
    var ws := RecoveryWrites(l, img);
    assert forall w <- ws :: w.blockno == l.start;
    forall n | 0 <= n < |img| && Home(l, n)
      ensures Recovered(l, img)[n] == img[n]
    {
      ApplyMiss(img, ws, n);
    }
  }

  /** The machine crashes again and again while recovering. */
  ghost predicate CrashLoop(l: Layout, imgs: seq<Image>) {
    && imgs != []
    && (forall i | 0 <= i < |imgs| :: HeaderOK(l, imgs[i]))
    && (forall i | 0 < i < |imgs| :: NextCrash(l, imgs[i - 1], imgs[i]))
  }

  ghost predicate NextCrash(l: Layout, img: Image, next: Image)
    requires HeaderOK(l, img)
  {
    exists k | 0 <= k <= |RecoveryWrites(l, img)| :: next == Crash(img, RecoveryWrites(l, img), k)
  }

  /** However often recovery is cut short, the recovery that finishes gives the home blocks
      the first one would have given. */
  lemma {:induction false} CrashLoopConverges(l: Layout, imgs: seq<Image>)
    requires CrashLoop(l, imgs)
    ensures HomeEq(l, Recovered(l, imgs[|imgs| - 1]), Recovered(l, imgs[0]))
  {
    if |imgs| > 1 {
      var before := imgs[|imgs| - 2];
      CrashLoopConverges(l, imgs[..|imgs| - 1]);
      assert NextCrash(l, before, imgs[|imgs| - 1]);
      var k :| 0 <= k <= |RecoveryWrites(l, before)| && imgs[|imgs| - 1] == Crash(before, RecoveryWrites(l, before), k);
      CrashInRecovery(l, before, k);
    }
  }

  /** A state from which commit may start: nothing is committed on disk, and the cache differs
      from the disk only on the blocks of the transaction. */
  ghost predicate ReadyToCommit(l: Layout, blocks: seq<nat>, disk: Image, latest: Image) {
    && |disk| == |latest| && Loggable(l, |disk|, blocks)
    && HeaderCount(disk[l.start]) == 0
    && (forall n | 0 <= n < |disk| && n !in blocks :: disk[n] == latest[n])
  }

  lemma {:induction false} LogWritesLand(l: Layout, blocks: seq<nat>, disk: Image, latest: Image, k: nat)
    requires |disk| == |latest| && Loggable(l, |disk|, blocks) && k <= |blocks|
    ensures forall i | 0 <= i < k :: Apply(disk, LogWrites(l, blocks,
        latest)[..k])[l.start + 1 + i] == latest[blocks[i]]
    ensures forall n | 0 <= n < |disk| && !(l.start < n <= l.start + k) ::
              Apply(disk, LogWrites(l, blocks, latest)[..k])[n] == disk[n]
  {
    if k > 0 {
      var ws := LogWrites(l, blocks, latest);
      assert ws[..k][..k - 1] == ws[..k - 1];
      LogWritesLand(l, blocks, disk, latest, k - 1);
    }
  }

  lemma {:induction false} InstalledWritesLand(blocks: seq<nat>, disk: Image, latest: Image)
    requires |disk| == |latest| && forall i | 0 <= i < |blocks| :: blocks[i] < |disk|
    ensures forall n | 0 <= n < |disk| ::
              Apply(disk, InstalledWrites(blocks, latest))[n] == if n in blocks then latest[n] else disk[n]
  {
    if blocks != [] {
      var init := blocks[..|blocks| - 1];
      var ws := InstalledWrites(blocks, latest);
      assert ws[..|ws| - 1] == InstalledWrites(init, latest);
      InstalledWritesLand(init, disk, latest);
      assert forall n :: n in blocks <==> n in init || n == blocks[|blocks| - 1];
    }
  }

  /** The image right after the header write. */
  function Committed(l: Layout, blocks: seq<nat>, disk: Image, latest: Image): Image
    requires |disk| == |latest| && Loggable(l, |disk|, blocks)
  {
    Apply(disk, LogWrites(l, blocks, latest))[l.start := PutHeader(latest[l.start], blocks)]
  }

  lemma CommittedHeader(l: Layout, blocks: seq<nat>, disk: Image, latest: Image)
    requires |disk| == |latest| && Loggable(l, |disk|, blocks)
    ensures var img := Committed(l, blocks, disk, latest);
            |img| == |disk| && HeaderOK(l, img) && HeaderBlocks(img[l.start]) == blocks
            && InstallWrites(l, blocks, img) == InstalledWrites(blocks, latest)
            && forall n | 0 <= n < |img| && Home(l, n) :: img[n] == disk[n]
  {
    var ws := LogWrites(l, blocks, latest);
    assert ws[..|blocks|] == ws;
    LogWritesLand(l, blocks, disk, latest, |blocks|);
    HeaderRoundTrip(latest[l.start], blocks);
  }

  /** Recovering right after the header write yields the post-transaction home blocks. */
  lemma RecoverCommitted(l: Layout, blocks: seq<nat>, disk: Image, latest: Image)
    requires ReadyToCommit(l, blocks, disk, latest)
    ensures HeaderOK(l, Committed(l, blocks, disk, latest))
    ensures HomeEq(l, Recovered(l, Committed(l, blocks, disk, latest)), latest)
  {
    hide Committed, LogWrites, InstallWrites, InstalledWrites, PutHeader, HeaderBlocks, Apply;
    var img := Committed(l, blocks, disk, latest);
    CommittedHeader(l, blocks, disk, latest);
    var installs := InstalledWrites(blocks, latest);
    var clear := Write(l.start, PutHeader(img[l.start], []));
    assert RecoveryWrites(l, img) == installs + [clear];
    ApplyLast(img, installs, clear);
    InstalledWritesLand(blocks, img, latest);
  }

  lemma CommitHeadLands(l: Layout, blocks: seq<nat>, disk: Image, latest: Image)
    requires |disk| == |latest| && Loggable(l, |disk|, blocks)
    ensures Apply(disk, CommitHead(l, blocks, latest)) == Committed(l, blocks, disk, latest)
  {
    hide LogWrites, PutHeader, Apply;
    ApplyLast(disk, LogWrites(l, blocks, latest), Write(l.start, PutHeader(latest[l.start], blocks)));
  }

  /** From its header write on, a commit makes exactly the writes recovery would make. */
  lemma CommitRestIsRecovery(l: Layout, blocks: seq<nat>, disk: Image, latest: Image)
    requires |disk| == |latest| && Loggable(l, |disk|, blocks)
    ensures HeaderOK(l, Committed(l, blocks, disk, latest))
    ensures CommitRest(l, blocks, latest) == RecoveryWrites(l, Committed(l, blocks, disk, latest))
  {
    CommittedHeader(l, blocks, disk, latest);
    hide LogWrites, InstalledWrites, InstallWrites, HeaderBlocks, PutHeader, Apply;
    assert Committed(l, blocks, disk, latest)[l.start] == PutHeader(latest[l.start], blocks);
  }

  lemma CommitTail(l: Layout, blocks: seq<nat>, disk: Image, latest: Image, k: nat)
    requires |disk| == |latest| && Loggable(l, |disk|, blocks) && blocks != []
    requires CommitPoint(blocks) <= k <= |CommitWrites(l, blocks, latest)|
    ensures HeaderOK(l, Committed(l, blocks, disk, latest))
    ensures var img := Committed(l, blocks, disk, latest);
            k - CommitPoint(blocks) <= |RecoveryWrites(l, img)|
            && Crash(disk, CommitWrites(l, blocks, latest), k) == Crash(img, RecoveryWrites(l, img),
               k - CommitPoint(blocks))
  {
    CommitHeadLands(l, blocks, disk, latest);
    CommitRestIsRecovery(l, blocks, disk, latest);
    hide CommitHead, CommitRest, Committed, RecoveryWrites, Apply;
    var head, rest := CommitHead(l, blocks, latest), CommitRest(l, blocks, latest);
    assert CommitWrites(l, blocks, latest)[..k] == head + rest[..k - |head|];
    ApplyConcat(disk, head, rest[..k - |head|]);
  }

  /** Crash atomicity of commit: whichever write is the last to reach the disk, recovery gives
      the old home blocks before the header write and the new ones from it on. */
  lemma CommitIsAtomic(l: Layout, blocks: seq<nat>, disk: Image, latest: Image, k: nat)
    requires ReadyToCommit(l, blocks, disk, latest) && k <= |CommitWrites(l, blocks, latest)|
    ensures HeaderOK(l, Crash(disk, CommitWrites(l, blocks, latest), k))
    ensures HomeEq(l, Recovered(l, Crash(disk, CommitWrites(l, blocks, latest), k)),
                   if k < CommitPoint(blocks) then disk else latest)
  {
    if k < CommitPoint(blocks) {
      if blocks != [] {
        assert CommitWrites(l, blocks, latest)[..k] == LogWrites(l, blocks, latest)[..k];
      }
      LogWritesLand(l, blocks, disk, latest, k);
      ClearedIsStable(l, Crash(disk, CommitWrites(l, blocks, latest), k));
    } else {
      CommitTail(l, blocks, disk, latest, k);
      CrashInRecovery(l, Committed(l, blocks, disk, latest), k - CommitPoint(blocks));
      RecoverCommitted(l, blocks, disk, latest);
    }
  }

  /** What the cache shows once the header of a commit has been written. */
  function Sealed(l: Layout, blocks: seq<nat>, latest: Image): Image
    requires Loggable(l, |latest|, blocks)
  {
    Committed(l, blocks, latest, latest)
  }

  /** The writes of a commit up to its header write, phase by phase. */
  lemma CommitPhasesHead(l: Layout, blocks: seq<nat>, disk: Image, latest: Image, before: seq<Write>)
    requires |disk| == |latest| && Loggable(l, |disk|, blocks) && blocks != []
    ensures var ws, logs, n := CommitWrites(l, blocks, latest), LogWrites(l, blocks, latest), |blocks|;
            var header := PutHeader(latest[l.start], blocks);
            && |ws| == 2 * n + 2
            && logs[..n] == logs
            && (forall d | 0 <= d <= n :: ws[..d] == logs[..d])
            && Apply(latest, logs)[l.start] == latest[l.start]
            && before + ws[..n + 1] == before + logs + [Write(l.start, header)]
            && Apply(disk, ws[..n + 1]) == Apply(disk, logs)[l.start := header] == Committed(l, blocks, disk, latest)
  {
    var logs := LogWrites(l, blocks, latest);
    assert logs[..|blocks|] == logs;
    LogWritesLand(l, blocks, latest, latest, |blocks|);
    hide LogWrites, PutHeader, Apply, InstalledWrites;
    assert CommitWrites(l, blocks, latest)[..|blocks| + 1] == CommitHead(l, blocks, latest);
    CommitHeadLands(l, blocks, disk, latest);
    AppendAssoc(before, logs, Write(l.start, PutHeader(latest[l.start], blocks)));
  }

  /** What install_trans writes during a commit. */
  lemma CommitInstalls(l: Layout, blocks: seq<nat>, latest: Image)
    requires Loggable(l, |latest|, blocks)
    ensures InstallWrites(l, blocks, Sealed(l, blocks, latest)) == InstalledWrites(blocks, latest)
    ensures Sealed(l, blocks, latest)[l.start] == PutHeader(latest[l.start], blocks)
    ensures Apply(Sealed(l, blocks, latest), InstalledWrites(blocks, latest))[l.start] == PutHeader(latest[l.start],
        blocks)
  {
    CommittedHeader(l, blocks, latest, latest);
    LogUntouched(l, Sealed(l, blocks, latest), InstallWrites(l, blocks, Sealed(l, blocks, latest)), l.start);
  }

  /** The writes of a commit after its header write, phase by phase. */
  lemma CommitTailWrites(l: Layout, blocks: seq<nat>, latest: Image, before: seq<Write>, d: nat)
    requires Loggable(l, |latest|, blocks) && blocks != [] && d <= |blocks|
    ensures var ws, n, installs := CommitWrites(l, blocks, latest), |blocks|, InstalledWrites(blocks, latest);
            && |ws| == 2 * n + 2
            && ws[..n + 1 + d] == CommitHead(l, blocks, latest) + installs[..d]
            && before + ws[..n + 1 + d] == before + ws[..n + 1] + installs[..d]
  {
    var head, installs := CommitHead(l, blocks, latest), InstalledWrites(blocks, latest);
    var ws, erase := CommitWrites(l, blocks, latest), Write(l.start, PutHeader(PutHeader(latest[l.start], blocks), []));
    assert ws == head + (installs + [erase]);
    hide CommitWrites, CommitHead, InstalledWrites, PutHeader, InRange, Loggable;
    Prefixes(before, ws, head, installs, erase, |blocks| + 1, d);
  }

  lemma CommitPhasesTail(l: Layout, blocks: seq<nat>, disk: Image, latest: Image, before: seq<Write>, d: nat)
    requires |disk| == |latest| && Loggable(l, |disk|, blocks) && blocks != [] && d <= |blocks|
    ensures var ws, n, installs := CommitWrites(l, blocks, latest), |blocks|, InstalledWrites(blocks, latest);
            && |ws| == 2 * n + 2
            && before + ws[..n + 1 + d] == before + ws[..n + 1] + installs[..d]
            && Apply(disk, ws[..n + 1 + d]) == Apply(Committed(l, blocks, disk, latest), installs[..d])
  {
    CommitTailWrites(l, blocks, latest, before, d);
    CommitHeadLands(l, blocks, disk, latest);
    hide CommitWrites, CommitHead, InstalledWrites, Apply, Committed, PutHeader, InRange, Loggable;
    ApplyConcat(disk, CommitHead(l, blocks, latest), InstalledWrites(blocks, latest)[..d]);
  }

  lemma Prefixes<T>(before: seq<T>, s: seq<T>, a: seq<T>, b: seq<T>, x: T, m: nat, d: nat)
    requires s == a + (b + [x]) && |a| == m && d <= |b|
    ensures s[..m] == a && s[..m + d] == a + b[..d]
    ensures before + s[..m + d] == before + s[..m] + b[..d]
  {
    assert s[..m] == a;
    assert s[..m + d] == a + b[..d];
  }

  /** The last write of a commit. */
  lemma CommitPhasesEnd(l: Layout, blocks: seq<nat>, disk: Image, latest: Image, before: seq<Write>)
    requires |disk| == |latest| && Loggable(l, |disk|, blocks) && blocks != []
    ensures var ws, n, installs := CommitWrites(l, blocks, latest), |blocks|, InstalledWrites(blocks, latest);
            var cleared := PutHeader(PutHeader(latest[l.start], blocks), []);
            && |ws| == 2 * n + 2 && ws[..|ws|] == ws && installs[..n] == installs
            && before + ws == before + ws[..2 * n + 1] + [Write(l.start, cleared)]
            && Apply(disk, ws) == Apply(Committed(l, blocks, disk, latest), installs)[l.start := cleared]
  {
    var ws, n, installs := CommitWrites(l, blocks, latest), |blocks|, InstalledWrites(blocks, latest);
    CommitPhasesTail(l, blocks, disk, latest, before, n);
    hide Apply, PutHeader, InstalledWrites, LogWrites;
    var w := Write(l.start, PutHeader(PutHeader(latest[l.start], blocks), []));
    assert installs[..n] == installs;
    assert ws == ws[..2 * n + 1] + [w];
    ApplyLast(disk, ws[..2 * n + 1], w);
    AppendAssoc(before, ws[..2 * n + 1], w);
  }

  /** Installing a committed transaction brings home what the cache showed. */
  lemma CommitBringsHome(l: Layout, blocks: seq<nat>, disk: Image, latest: Image)
    requires |disk| == |latest| && Loggable(l, |disk|, blocks)
    requires forall n | 0 <= n < |disk| && n !in blocks :: disk[n] == latest[n]
    ensures HomeEq(l, Apply(Committed(l, blocks, disk, latest), InstalledWrites(blocks, latest)), latest)
  {
    CommittedHeader(l, blocks, disk, latest);
    InstalledWritesLand(blocks, Committed(l, blocks, disk, latest), latest);
  }

  /** A finished commit leaves the header empty. */
  lemma CommitClears(l: Layout, blocks: seq<nat>, disk: Image, latest: Image)
    requires ReadyToCommit(l, blocks, disk, latest)
    ensures HeaderCount(Apply(disk, CommitWrites(l, blocks, latest))[l.start]) == 0
  {
    if blocks != [] {
      CommitPhasesEnd(l, blocks, disk, latest, []);
      HeaderRoundTrip(PutHeader(latest[l.start], blocks), []);
    }
  }

  /** A finished recovery leaves the header empty. */
  lemma RecoveryClears(l: Layout, img: Image)
    requires HeaderOK(l, img)
    ensures HeaderCount(Recovered(l, img)[l.start]) == 0
  {
    RecoveryPhases(l, img, []);
  }

  /** Commit, a crash, and then any number of crashes inside recovery. */
  lemma CommitSurvivesCrashes(l: Layout, blocks: seq<nat>, disk: Image, latest: Image, k: nat, imgs: seq<Image>)
    requires ReadyToCommit(l, blocks, disk, latest) && k <= |CommitWrites(l, blocks, latest)|
    requires CrashLoop(l, imgs) && imgs[0] == Crash(disk, CommitWrites(l, blocks, latest), k)
    ensures HomeEq(l, Recovered(l, imgs[|imgs| - 1]), if k < CommitPoint(blocks) then disk else latest)
  {
    CommitIsAtomic(l, blocks, disk, latest, k);
    CrashLoopConverges(l, imgs);
  }
}
