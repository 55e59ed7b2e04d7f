/** filewrite (file.c) on a file: one write split into transactions. */
module FileWrite {
  import opened Words
  import opened Bio
  import opened FsFormat
  import opened Ownership
  import opened Supply
  import opened Content
  import opened Fs
  import Log

  /** The most bytes that filewrite gives to one transaction. */
  const MAXCHUNK: nat := (Log.MAXOPBLOCKS - 1 - 1 - 2) / 2 * 512

  /** struct file of an open inode. */
  class File {
    const ip: Inode
    const writable: bool
    var off: uint32

    constructor (ip: Inode, writable: bool, off: uint32)
      ensures this.ip == ip && this.writable == writable && this.off == off
    {
      this.ip, this.writable, this.off := ip, writable, off;
    }
  }

  /** How many blocks a chunk may log. */
  function Budget(whole: bool): nat {
    if whole then Log.MAXOPBLOCKS else Log.MAXOPBLOCKS + 1
  }

  /** The transaction bound: in a file without holes a chunk fits wherever it starts, in others it may be
      one block too much. */
  lemma ChunkFits(v: View, off: nat, n: nat)
    requires v.Sized() && n <= MAXCHUNK && off <= v.ino.size
    ensures MaxLogged(v, off, n) <= Budget(Whole(v))
  {
    hide View.Ptr, Missing, Whole;
    if n > 0 {
      assert (off + n - 1) / BSIZE <= off / BSIZE + (off % BSIZE + n - 1) / BSIZE;
      MissingSize(v, off, n);
    }
  }

  /** How many bytes arrive: all, or, if the file cannot hold them, the whole chunks that it can hold. */
  function Arrive(size: nat, off: nat, n: int): nat {
    if n <= 0 || off > size || off > MAXBYTES then 0
    else if off + n <= MAXBYTES then n
    else (MAXBYTES - off) / MAXCHUNK * MAXCHUNK
  }

  lemma ArriveBound(size: nat, off: nat, n: int)
    ensures n <= 0 || off > size ==> Arrive(size, off, n) == 0
    ensures n > 0 ==> Arrive(size, off, n) <= n
  {
    assert MAXCHUNK == 1536;
  }

  /** In numbers: a file has at most 71680 bytes, and a transaction writes at most 1536. */
  lemma ArriveIs(size: nat, off: nat, n: nat)
    requires n > 0 && off <= size <= 71680
    ensures off + n <= 71680 ==> Arrive(size, off, n) == n && Turns(size, off, n) == (n + 1535) / 1536
    ensures off + n > 71680 ==>
      && Arrive(size, off, n) == (71680 - off) / 1536 * 1536 && Turns(size, off, n) == (71680 - off) / 1536 + 1
  {
    assert MAXCHUNK == 1536 && MAXBYTES == 71680;
    assert (n - 1) / 1536 + 1 == (n + 1535) / 1536;
  }

  /** A chunk that starts after whole chunks is written if and only if it belongs to the bytes that arrive. */
  lemma ChunkArrives(size: nat, off: nat, n: nat, i: nat, n1: nat)
    requires i < n && i % MAXCHUNK == 0 && off <= size <= MAXBYTES && i <= Arrive(size, off, n)
    requires n1 == if n - i > MAXCHUNK then MAXCHUNK else n - i
    ensures off + i + n1 <= MAXBYTES <==> i + n1 <= Arrive(size, off, n)
    ensures off + i + n1 > MAXBYTES ==> i == Arrive(size, off, n) < n
  {
    assert MAXCHUNK == 1536;
  }

  lemma SplicedNothing(v: View, off: nat)
    requires v.OK({}) && off <= v.ino.size <= MAXBYTES
    ensures Spliced(v, v, off, [])
  {
    WrittenNothing(v, off, []);
    SplicedInside(v, v, off, []);
  }

  lemma SplicedSize(v: View, w: View, off: nat, src: seq<byte>)
    requires Spliced(v, w, off, src)
    ensures v.OK({}) && v.Sized() && w.Sized() && w.OK({}) && off + |src| <= w.ino.size <= MAXBYTES
    ensures OthersKept(v, w) && FilledFor(v, w, off, |src|) && (Whole(v) ==> Whole(w))
  {
    hide View.Ptr, View.PointersOK, View.NoSharing, View.Conserved, Contents, OthersKept, Present, Filled;
    if Whole(v) { FilledPresent(v, w, off, |src|); }
  }

  /** The next chunk. */
  lemma SplicedMore(v: View, w: View, x: View, off: nat, src: seq<byte>, i: nat, m: nat)
    requires i + m <= |src| && Spliced(v, w, off, src[..i]) && Spliced(w, x, off + i, src[i..i + m])
    ensures Spliced(v, x, off, src[..i + m])
  {
    hide Spliced;
    SplicedTwice(v, w, x, off, src[..i], src[i..i + m]);
    assert src[..i] + src[i..i + m] == src[..i + m];
  }

  lemma SpliceTwice(c: seq<byte>, off: nat, a: seq<byte>, b: seq<byte>)
    requires off <= |c|
    ensures off + |a| <= |Splice(c, off, a)| && Splice(Splice(c, off, a), off + |a|, b) == Splice(c, off, a + b)
  {
  }

  /** Writing nothing changes nothing in the inode. */
  lemma SplicedNone(v: View, w: View, off: nat)
    requires Spliced(v, w, off, [])
    ensures w.ino == v.ino && w.InodeOnDisk(w.inum) == v.InodeOnDisk(v.inum)
  {
    hide View.PointersOK, View.NoSharing, View.Conserved, View.Ptr, Contents, OthersKept, View.InodeOnDisk, Splice,
        FilledFor, Missing;
    NothingMissing(v, off);
    AddrsFilled(v, w, off, 0);
    assert Max(v.ino.size, off) == v.ino.size;
  }

  /** Two writes in a row are one. */
  lemma SplicedTwice(v: View, w: View, x: View, off: nat, a: seq<byte>, b: seq<byte>)
    requires Spliced(v, w, off, a) && Spliced(w, x, off + |a|, b)
    ensures Spliced(v, x, off, a + b)
  {
    hide View.OK, View.Ptr, Contents, OthersKept, View.InodeOnDisk, Splice, FilledFor;
    OthersKeptTrans(v, w, x);
    FilledForMore(v, w, x, off, |a|, |b|);
    if b == [] { SplicedNone(w, x, off + |a|); }
    SpliceTwice(Contents(v, v.inum, v.ino.size), off, a, b);
  }

  /** One turn of filewrite's loop: begin_op, writei, end_op. With too few free blocks it panics before end_op. */
  method WriteChunk(fs: Fs, f: File, src: seq<byte>) returns (ok: bool, r: int)
    requires fs.ViewOf(f.ip).OK({}) && f.ip.size <= MAXBYTES && 0 < |src| <= MAXCHUNK
    modifies fs, f`off, f.ip`addrs, f.ip`size
    ensures ok <==> !Fits(old(fs.ViewOf(f.ip)), old(f.off), |src|) || Enough(old(fs.ViewOf(f.ip)), old(f.off), |src|)
    ensures ok ==> Turn(old(fs.ViewOf(f.ip)), fs.ViewOf(f.ip), old(f.off), src, fs.Now())
    ensures ok && !Fits(old(fs.ViewOf(f.ip)), old(f.off), |src|) ==> r == -1 && f.off == old(f.off)
    ensures ok && Fits(old(fs.ViewOf(f.ip)), old(f.off), |src|) ==> r == |src| && f.off == old(f.off) + |src|
    ensures ok ==> |fs.logged| <= Budget(old(Whole(fs.ViewOf(f.ip)))) && fs.Traced() && fs.Acts(f.ip)
    ensures fs.past == if ok then old(fs.past) + [fs.Now()] else old(fs.past)
  {
    hide View.OK, Whole, Spliced, View.Ptr, MaxLogged, Contents, Fs.Traced, Missing, FreeOf, Budget,
        Fs.Acts;
    OKIsSized(fs.ViewOf(f.ip), {});
    if f.off <= f.ip.size { ChunkFits(fs.ViewOf(f.ip), f.off, |src|); }
    fs.BeginOp(f.ip);
    ok, r := fs.Writei(f.ip, src, f.off);
    if !ok { return; }
    assert fs.logged - {} == fs.logged;
    if r > 0 {
      f.off := f.off + r;
    }
    fs.EndOp();
  }

  /** writei does not refuse. */
  predicate Fits(v: View, off: nat, n: nat) {
    off <= v.ino.size && off + n <= MAXBYTES
  }

  /** There are enough free blocks. */
  ghost predicate Enough(v: View, off: nat, n: nat)
    requires v.Sized()
  {
    |Missing(v, off, n)| <= |FreeOf(v)|
  }

  /** What one chunk does, as transaction `t`. */
  ghost predicate Turn(v: View, w: View, off: nat, src: seq<byte>, t: Transaction) {
    && t.start == v.blocks && t.end == w.blocks
    && if Fits(v, off, |src|) then Spliced(v, w, off, src) else w == v && t.trace == [] && t.logged == {}
  }

  /** Where filewrite is after `i` bytes. */
  ghost predicate Progress(v: View, w: View, off: nat, src: seq<byte>, i: nat) {
    && v.Sized() && w.Sized() && w.OK({}) && w.ino.size <= MAXBYTES
    && if off > v.ino.size then i == 0 && w == v else i <= |src| && Spliced(v, w, off, src[..i])
  }

  lemma ProgressStart(v: View, off: nat, src: seq<byte>)
    requires v.OK({}) && v.ino.size <= MAXBYTES
    ensures Progress(v, v, off, src, 0)
  {
    if off <= v.ino.size {
      assert src[..0] == [];
      SplicedNothing(v, off);
    }
  }

  lemma ProgressNext(v: View, w: View, x: View, off: nat, src: seq<byte>, i: nat, m: nat)
    requires Progress(v, w, off, src, i) && off <= v.ino.size && i + m <= |src|
    requires Spliced(w, x, off + i, src[i..i + m])
    ensures Progress(v, x, off, src, i + m)
  {
    hide Spliced, View.OK;
    SplicedMore(v, w, x, off, src, i, m);
    SplicedSize(w, x, off + i, src[i..i + m]);
  }

  lemma ProgressWhole(v: View, w: View, off: nat, src: seq<byte>, i: nat)
    requires Progress(v, w, off, src, i)
    ensures Whole(v) ==> Whole(w)
    ensures off <= v.ino.size ==> off + i <= w.ino.size
  {
    hide View.OK, Whole, Spliced;
    if off <= v.ino.size { SplicedSize(v, w, off, src[..i]); }
  }

  lemma BudgetMonotone(a: bool, b: bool)
    requires a ==> b
    ensures Budget(b) <= Budget(a)
  {
  }

  lemma ProgressFacts(v: View, w: View, off: nat, src: seq<byte>, i: nat)
    requires Progress(v, w, off, src, i)
    ensures v.Sized() && w.Sized() && w.OK({}) && w.ino.size <= MAXBYTES
    ensures if off > v.ino.size then i == 0 && w == v else i <= |src| && Spliced(v, w, off, src[..i])
  {
  }

  /** If there are too few free blocks for the next chunk, there were too few for all bytes that arrive. */
  lemma ProgressEnough(v: View, w: View, off: nat, src: seq<byte>, i: nat, m: nat, all: nat)
    requires Progress(v, w, off, src, i) && off <= v.ino.size && 0 < m && i + m <= all
    ensures !Enough(w, off + i, m) ==> !Enough(v, off, all)
  {
    hide Spliced, View.OK, Missing, FreeOf, FilledFor;
    SplicedSize(v, w, off, src[..i]);
    MissingNext(v, w, off, i, m, all);
  }

  lemma ProgressTakes(v: View, w: View, off: nat, src: seq<byte>, i: nat)
    requires Progress(v, w, off, src, i)
    ensures off <= v.ino.size ==> Enough(v, off, i)
  {
    hide Spliced, View.OK, FreeOf, Filled, Lacks;
    if off <= v.ino.size {
      SplicedSize(v, w, off, src[..i]);
      FilledTakes(v, w, off / BSIZE, off / BSIZE + Touched(off, i));
    }
  }

  // ---- the transactions of one filewrite ----

  /** How many bytes come before the k-th chunk of `n`. */
  function Upto(n: nat, k: nat): nat {
    if k * MAXCHUNK < n then k * MAXCHUNK else n
  }

  function Chunk(src: seq<byte>, k: nat): seq<byte> {
    src[Upto(|src|, k)..Upto(|src|, k + 1)]
  }

  /** How many transactions it takes to write what arrives, and to find that no more does. */
  function Turns(size: nat, off: nat, n: nat): nat {
    if n == 0 then 0
    else if Arrive(size, off, n) == n then (n - 1) / MAXCHUNK + 1
    else Arrive(size, off, n) / MAXCHUNK + 1
  }

  /** The k-th transaction writes the k-th chunk, starts with the blocks as the one before it left them, and stays
      within the budget. */
  ghost predicate Split(views: seq<View>, ops: seq<Transaction>, off: nat, src: seq<byte>, from: nat, budget: nat) {
    && |views| == |ops| + 1
    && forall k | 0 <= k < |ops| ::
         && Turn(views[k], views[k + 1], off + Upto(|src|, k), Chunk(src, k), ops[k])
         && ops[k].OK(from) && |ops[k].logged| <= budget
  }

  /** The k-th chunk would fit into the file, but there are not enough free blocks for it. */
  ghost predicate Stuck(v: View, off: nat, src: seq<byte>, k: nat) {
    && v.Sized() && Fits(v, off + Upto(|src|, k), |Chunk(src, k)|)
    && !Enough(v, off + Upto(|src|, k), |Chunk(src, k)|)
  }

  lemma SplitMore(views: seq<View>, ops: seq<Transaction>, off: nat, src: seq<byte>, from: nat, budget: nat, w: View,
                  t: Transaction)
    requires Split(views, ops, off, src, from, budget)
    requires Turn(views[|ops|], w, off + Upto(|src|, |ops|), Chunk(src, |ops|), t)
    requires t.OK(from) && |t.logged| <= budget
    ensures Split(views + [w], ops + [t], off, src, from, budget)
  {
    hide Turn, Upto, Chunk, Transaction.OK;
    forall k | 0 <= k < |ops + [t]|
      ensures Turn((views + [w])[k], (views + [w])[k + 1], off + Upto(|src|, k), Chunk(src, k), (ops + [t])[k])
      ensures (ops + [t])[k].OK(from) && |(ops + [t])[k].logged| <= budget
    {
      if k < |ops| {
        assert (views + [w])[k] == views[k] && (views + [w])[k + 1] == views[k + 1] && (ops + [t])[k] == ops[k];
      }
    }
  }

  /** The next chunk. */
  lemma ChunkIs(addr: seq<byte>, n: nat, k: nat, i: nat, n1: nat)
    requires n <= |addr| && i == Upto(n, k) < n && n1 == if n - i > MAXCHUNK then MAXCHUNK else n - i
    ensures Chunk(Bytes(addr, n), k) == addr[i..i + n1] && Upto(n, k + 1) == i + n1 && i % MAXCHUNK == 0
  {
    assert MAXCHUNK == 1536;
    assert addr[..n][i..i + n1] == addr[i..i + n1];
  }

  lemma TurnsLeft(size: nat, off: nat, n: nat, k: nat)
    requires Upto(n, k) < n
    ensures off <= size <= MAXBYTES && Upto(n, k) < Arrive(size, off, n) ==> k < Turns(size, off, n)
    ensures off > size ==> Turns(size, off, n) == 1
    ensures Upto(n, k) == Arrive(size, off, n) ==> Turns(size, off, n) == k + 1
    ensures Upto(n, k + 1) == n == Arrive(size, off, n) ==> Turns(size, off, n) == k + 1
  {
    assert MAXCHUNK == 1536;
  }

  /** filewrite on `v` has come to `w`, by the transactions `ops`, and `i` bytes are written. */
  ghost predicate SoFar(v: View, w: View, off: nat, addr: seq<byte>, n: int, i: nat, views: seq<View>,
                        ops: seq<Transaction>, from: nat) {
    && n <= |addr| && v.ino.size <= MAXBYTES && Progress(v, w, off, addr, i)
    && Split(views, ops, off, Bytes(addr, n), from, Budget(Whole(v))) && views[|ops|] == w && views[0] == v
    && i == Upto(|Bytes(addr, n)|, |ops|) && (i == 0 ==> ops == [])
    && (off <= v.ino.size ==> i <= Arrive(v.ino.size, off, n)) && (off > v.ino.size ==> i == 0)
    && (i == n > 0 ==> |ops| == Turns(v.ino.size, off, n))
  }

  lemma SoFarFacts(v: View, w: View, off: nat, addr: seq<byte>, n: int, i: nat, views: seq<View>, ops: seq<Transaction>,
                   from: nat)
    requires SoFar(v, w, off, addr, n, i, views, ops, from)
    ensures v.Sized() && w.OK({}) && w.ino.size <= MAXBYTES && (Whole(v) ==> Whole(w))
    ensures Split(views, ops, off, Bytes(addr, n), from, Budget(Whole(v)))
    ensures |views| == |ops| + 1 && views[0] == v && views[|ops|] == w && (n > 0 ==> i <= n)
  {
    hide View.OK, Whole, Spliced, Progress, Turn, Transaction.OK, Chunk;
    ProgressFacts(v, w, off, addr, i);
    ProgressWhole(v, w, off, addr, i);
  }

  lemma SoFarStart(v: View, off: nat, addr: seq<byte>, n: int, from: nat)
    requires v.OK({}) && v.ino.size <= MAXBYTES && n <= |addr|
    ensures SoFar(v, v, off, addr, n, 0, [v], [], from)
  {
    hide View.OK, Whole, Progress, Turn, Transaction.OK, Turns;
    ProgressStart(v, off, addr);
  }

  /** The next chunk, as filewrite meets it: whether it fits, and how many transactions there are. */
  lemma NextChunk(v: View, w: View, off: nat, addr: seq<byte>, n: int, i: nat, n1: nat, views: seq<View>,
                  ops: seq<Transaction>, from: nat)
    requires SoFar(v, w, off, addr, n, i, views, ops, from) && i < n
    requires n1 == if n - i > MAXCHUNK then MAXCHUNK else n - i
    ensures Chunk(Bytes(addr, n), |ops|) == addr[i..i + n1] && Upto(n, |ops| + 1) == i + n1
    ensures Fits(w, off + i, n1) <==> off <= v.ino.size && i + n1 <= Arrive(v.ino.size, off, n)
    ensures !Fits(w, off + i, n1) ==>
        Turns(v.ino.size, off, n) == |ops| + 1 && (off <= v.ino.size ==> i == Arrive(v.ino.size, off, n) < n)
    ensures Fits(w, off + i, n1) ==> |ops| < Turns(v.ino.size, off, n)
    ensures Fits(w, off + i, n1) && i + n1 == n ==> Turns(v.ino.size, off, n) == |ops| + 1
    ensures w.Sized() && v.Sized()
    ensures Fits(w, off + i, n1) && !Enough(w, off + i, n1) ==>
      !Enough(v, off, Arrive(v.ino.size, off, n)) && Stuck(w, off, Bytes(addr, n), |ops|)
  {
    hide Spliced, View.OK, Chunk, Upto, Arrive, Turns, Enough, Progress, Split;
    ChunkIs(addr, n, |ops|, i, n1);
    TurnsLeft(v.ino.size, off, n, |ops|);
    ProgressFacts(v, w, off, addr, i);
    ProgressWhole(v, w, off, addr, i);
    ArriveBound(v.ino.size, off, n);
    if off <= v.ino.size {
      ChunkArrives(v.ino.size, off, n, i, n1);
      if i + n1 <= Arrive(v.ino.size, off, n) {
        ProgressEnough(v, w, off, addr, i, n1, Arrive(v.ino.size, off, n));
      }
    }
  }

  /** After its transaction. */
  lemma AfterChunk(v: View, w: View, x: View, off: nat, addr: seq<byte>, n: int, i: nat, n1: nat, views: seq<View>,
                   ops: seq<Transaction>, from: nat, t: Transaction)
    requires SoFar(v, w, off, addr, n, i, views, ops, from) && i < n
    requires n1 == if n - i > MAXCHUNK then MAXCHUNK else n - i
    requires Turn(w, x, off + i, addr[i..i + n1], t) && t.OK(from) && |t.logged| <= Budget(Whole(w))
    ensures Split(views + [x], ops + [t], off, Bytes(addr, n), from, Budget(Whole(v)))
    ensures if Fits(w, off + i, n1) then SoFar(v, x, off, addr, n, i + n1, views + [x], ops + [t], from) else x == w
  {
    hide Spliced, View.OK, Chunk, Upto, Arrive, Turns, Progress, Whole, Budget, Transaction.OK, Split, Fits, Turn;
    NextChunk(v, w, off, addr, n, i, n1, views, ops, from);
    SoFarFacts(v, w, off, addr, n, i, views, ops, from);
    BudgetMonotone(Whole(v), Whole(w));
    SplitMore(views, ops, off, Bytes(addr, n), from, Budget(Whole(v)), x, t);
    TurnFits(w, x, off + i, addr[i..i + n1], t);
    if Fits(w, off + i, n1) { ProgressNext(v, w, x, off, addr, i, n1); }
  }

  /** All that arrives is written. */
  lemma AllWritten(v: View, w: View, off: nat, addr: seq<byte>, n: int, i: nat, views: seq<View>, ops: seq<Transaction>,
                   from: nat)
    requires SoFar(v, w, off, addr, n, i, views, ops, from)
    requires i >= n || (off <= v.ino.size ==> i == Arrive(v.ino.size, off, n) < n)
    ensures i == Arrive(v.ino.size, off, n) && i <= |addr|
    ensures if off > v.ino.size then w == v else Spliced(v, w, off, addr[..i]) && Enough(v, off, i)
    ensures i >= n ==> |ops| == Turns(v.ino.size, off, |Bytes(addr, n)|)
  {
    hide Spliced, View.OK, Chunk, Arrive, Turns, Enough, Progress, Split;
    ProgressFacts(v, w, off, addr, i);
    ProgressTakes(v, w, off, addr, i);
    ArriveBound(v.ino.size, off, n);
    NoTurns(v.ino.size, off);
  }

  lemma NoTurns(size: nat, off: nat)
    ensures Turns(size, off, 0) == 0
  {
  }

  lemma TurnFits(v: View, w: View, off: nat, src: seq<byte>, t: Transaction)
    requires Turn(v, w, off, src, t)
    ensures if Fits(v, off, |src|) then Spliced(v, w, off, src) else w == v
  {
  }

  /** `views` are the file before and after each transaction. The file becomes the splice of the bytes that arrive,
      and `r` says whether these are all; each chunk is a transaction of its own within its budget. A panic
      exactly if there are not enough free blocks, and then at the first chunk that lacks them. */
  method Filewrite(fs: Fs, f: File, addr: seq<byte>, n: int) returns (ok: bool, r: int, ghost views: seq<View>)
    requires fs.ViewOf(f.ip).OK({}) && f.ip.size <= MAXBYTES
    requires n <= |addr| && n < TWO32 / 2
    modifies fs, f`off, f.ip`addrs, f.ip`size
    ensures !f.writable ==>
      ok && r == -1 && fs.ViewOf(f.ip) == old(fs.ViewOf(f.ip)) && f.off == old(f.off) && fs.past == old(fs.past)
    ensures f.writable ==>
      (ok <==> old(f.off) > old(f.ip.size)
               || Enough(old(fs.ViewOf(f.ip)), old(f.off), Arrive(old(f.ip.size), old(f.off), n)))
    ensures f.writable && ok ==>
      && r == (if n == Arrive(old(f.ip.size), old(f.off), n) then n else -1)
      && f.off == old(f.off) + Arrive(old(f.ip.size), old(f.off), n)
      && if old(f.off) > old(f.ip.size) then fs.ViewOf(f.ip) == old(fs.ViewOf(f.ip))
         else Arrive(old(f.ip.size), old(f.off), n) <= |addr|
              && Spliced(old(fs.ViewOf(f.ip)), fs.ViewOf(f.ip), old(f.off), addr[..Arrive(old(f.ip.size), old(f.off),
                 n)])
    ensures f.writable ==>
      && old(fs.past) <= fs.past
      && Split(views, fs.past[|old(fs.past)|..], old(f.off), Bytes(addr, n), fs.sb.inodestart,
               Budget(old(Whole(fs.ViewOf(f.ip)))))
      && views != [] && views[0] == old(fs.ViewOf(f.ip)) && (ok ==> views[|views| - 1] == fs.ViewOf(f.ip))
    // one transaction for each chunk that is tried
    ensures f.writable ==>
      var m := |fs.past| - |old(fs.past)|;
      if ok then m == Turns(old(f.ip.size), old(f.off), |Bytes(addr, n)|)
      else m < Turns(old(f.ip.size), old(f.off), |Bytes(addr, n)|)
           && |views| == m + 1 && Stuck(views[m], old(f.off), Bytes(addr, n), m)
  {
    hide View.OK, View.Ptr, Whole, SoFar, Split, Turn, Fits, Enough, Arrive, Turns, Budget, Chunk, Spliced, Upto,
        Transaction.OK, Stuck, View.Sized, Fs.Acts;
    ghost var v, off, past := fs.ViewOf(f.ip), f.off, fs.past;
    views := [v];
    OKIsSized(v, {});
    if !f.writable {
      return true, -1, views;
    }
    ghost var ops: seq<Transaction> := [];
    SoFarStart(v, off, addr, n, fs.sb.inodestart);
    var i := 0;
    while i < n
      invariant SoFar(v, fs.ViewOf(f.ip), off, addr, n, i, views, ops, fs.sb.inodestart)
      invariant f.off == off + i && fs.past == past + ops
    {
      var n1 := if n - i > MAXCHUNK then MAXCHUNK else n - i;
      ghost var w := fs.ViewOf(f.ip);
      SoFarFacts(v, w, off, addr, n, i, views, ops, fs.sb.inodestart);
      NextChunk(v, w, off, addr, n, i, n1, views, ops, fs.sb.inodestart);
      ok, r := WriteChunk(fs, f, addr[i..i + n1]);
      assert fs.past[|past|..] == if ok then ops + [fs.Now()] else ops;
      if !ok { return; }
      AfterChunk(v, w, fs.ViewOf(f.ip), off, addr, n, i, n1, views, ops, fs.sb.inodestart, fs.Now());
      if r < 0 {
        AllWritten(v, w, off, addr, n, i, views, ops, fs.sb.inodestart);
        views := views + [fs.ViewOf(f.ip)];
        break;
      }
      assert r == n1;  // no "short filewrite"
      ops, views := ops + [fs.Now()], views + [fs.ViewOf(f.ip)];
      i := i + r;
    }
    if i >= n {
      assert fs.past[|past|..] == ops;
      AllWritten(v, fs.ViewOf(f.ip), off, addr, n, i, views, ops, fs.sb.inodestart);
      SoFarFacts(v, fs.ViewOf(f.ip), off, addr, n, i, views, ops, fs.sb.inodestart);
    }
    return true, if i == n then n else -1, views;
  }

  /** The bytes that filewrite is to write. */
  function Bytes(addr: seq<byte>, n: int): seq<byte>
    requires n <= |addr|
  {
    if n <= 0 then [] else addr[..n]
  }
}
