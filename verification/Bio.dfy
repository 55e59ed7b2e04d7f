/** The memory disk (memide.c) and the buffer cache in front of it (bio.c). */
module Bio {
  import opened Words

  /** A disk image: the contents of every block. */
  type Image = seq<Block>

  /** One block write reaching the disk. */
  datatype Write = Write(blockno: nat, data: Block)

  predicate InRange(size: nat, ws: seq<Write>) {
    forall i | 0 <= i < |ws| :: ws[i].blockno < size
  }

  /** The image after the writes `ws` reached the disk in order. */
  function Apply(img: Image, ws: seq<Write>): (r: Image)
    requires InRange(|img|, ws)
    ensures |r| == |img|
  {
    if ws == [] then img
    else
      var w := ws[|ws| - 1];
      Apply(img, ws[..|ws| - 1])[w.blockno := w.data]
  }

  const ROOTDEV: nat := 1

  /** struct buf. The sleeplock is the flag `locked`; which process holds it is not kept. */
  class Buf {
    var valid: bool    // B_VALID
    var dirty: bool    // B_DIRTY
    var dev: nat
    var blockno: nat
    var locked: bool
    var refcnt: nat
    var prev: Buf
    var next: Buf
    var data: Block
    /** When `refcnt` last fell to 0 (0: never). */
    ghost var released: nat

    constructor ()
      ensures prev == next == this
      ensures !valid && !dirty && dev == 0 && blockno == 0 && !locked && refcnt == 0 && released == 0
    {
      valid, dirty, dev, blockno, locked, refcnt := false, false, 0, 0, false, 0;
      prev, next, data, released := this, this, ZeroBlock(), 0;
    }
  }

  class Disk {
    var blocks: Image
    /** Every block write since the machine was built, in order. */
    ghost var writes: seq<Write>

    constructor (img: Image)
      ensures blocks == img && writes == []
    {
      blocks, writes := img, [];
    }

    /** iderw: flush a dirty buffer, or fill one that is not valid. */
    method Iderw(b: Buf)
      requires b.locked && (b.dirty || !b.valid) && b.dev == ROOTDEV && b.blockno < |blocks|
      modifies this, b`dirty, b`valid, b`data
      ensures b.valid && !b.dirty
      ensures old(b.dirty) ==>
        && b.data == old(b.data)
        && blocks == old(blocks)[b.blockno := b.data]
        && writes == old(writes) + [Write(b.blockno, b.data)]
      ensures !old(b.dirty) ==> blocks == old(blocks) && b.data == blocks[b.blockno] && writes == old(writes)
    {
      if b.dirty {
        b.dirty := false;
        blocks := blocks[b.blockno := b.data];
        writes := writes + [Write(b.blockno, b.data)];
      } else {
        b.data := blocks[b.blockno];
      }
      b.valid := true;
    }
  }

  /** The buffers of `ring`, in this order, form one doubly linked cycle. */
  ghost predicate Linked(ring: seq<Buf>)
    reads ring`next, ring`prev
  {
    && (forall i {:trigger ring[i].next} | 0 <= i < |ring| :: ring[i].next == ring[After(i, |ring|)])
    && (forall i {:trigger ring[i].prev} | 0 <= i < |ring| :: ring[i].prev == ring[Before(i, |ring|)])
  }

  /** The ring after its k-th element was unlinked. */
  ghost function Without(ring: seq<Buf>, k: nat): seq<Buf>
    requires 1 <= k < |ring|
  {
    ring[..k] + ring[k + 1..]
  }

  /** The ring after `b` was put right behind the head. */
  ghost function PushedFront(ring: seq<Buf>, b: Buf): seq<Buf>
    requires |ring| > 0
  {
    [ring[0], b] + ring[1..]
  }

  lemma DistinctAt<T>(s: seq<T>, i: nat)
    requires Distinct(s) && i < |s|
    ensures forall m | 0 <= m < |s| && m != i :: s[m] != s[i]
  {
  }

  function After(i: nat, n: nat): nat {
    if i + 1 == n then 0 else i + 1
  }

  function Before(i: nat, n: nat): int {
    if i == 0 then n - 1 else i - 1
  }

  /** Unlink the k-th element of a ring by swinging its neighbours' pointers. */
  method Unlink(b: Buf, ghost ring: seq<Buf>, ghost k: nat)
    requires Linked(ring) && Distinct(ring) && 1 <= k < |ring| && ring[k] == b
    modifies ring`next, ring`prev
    ensures Linked(Without(ring, k))
  {
    hide Distinct;
    ghost var n, r := |ring|, Without(ring, k);
    DistinctAt(ring, After(k, n));
    DistinctAt(ring, k - 1);
    assert ring[k].next == ring[After(k, n)] && ring[k].prev == ring[k - 1];
    b.next.prev := b.prev;
    b.prev.next := b.next;
    forall i {:trigger r[i].next} | 0 <= i < |r|
      ensures r[i].next == r[After(i, n - 1)]
    {
      var j := if i < k then i else i + 1;
      assert r[i] == ring[j] && old(ring[j].next) == ring[After(j, n)];
    }
    forall i {:trigger r[i].prev} | 0 <= i < |r|
      ensures r[i].prev == r[Before(i, n - 1)]
    {
      var j := if i < k then i else i + 1;
      assert r[i] == ring[j] && old(ring[j].prev) == ring[Before(j, n)];
    }
  }

  /** Link `b` in right behind the head of a ring. */
  method LinkBehind(head: Buf, b: Buf, ghost ring: seq<Buf>)
    requires |ring| > 0 && ring[0] == head && Linked(ring) && Distinct(ring) && b !in ring
    modifies ring`next, ring`prev, b`next, b`prev
    ensures Linked(PushedFront(ring, b))
  {
    ghost var n := |ring|;
    ghost var first := if 1 == n then 0 else 1;
    assert ring[0].next == ring[first] && ring[0].prev == ring[n - 1];
    b.next := head.next;
    b.prev := head;
    head.next.prev := b;
    head.next := b;
    ghost var r := PushedFront(ring, b);
    forall i | 0 <= i < |r|
      ensures r[i].next == r[After(i, |r|)] && r[i].prev == r[Before(i, |r|)]
    {
      if i > 1 {
        assert r[i] == ring[i - 1];
        assert old(ring[i - 1].next) == ring[if i == n then 0 else i];
        assert old(ring[i - 1].prev) == ring[i - 2];
      }
    }
  }

  /** `ring` is the head followed by a permutation of `bufs`. */
  ghost predicate RingOf(head: Buf, bufs: seq<Buf>, ring: seq<Buf>) {
    && |ring| == |bufs| + 1
    && ring[0] == head
    && head !in bufs
    && Distinct(bufs)
    && Distinct(ring)
    && (forall b <- bufs :: b in ring)
    && (forall i | 1 <= i < |ring| :: ring[i] in bufs)
  }

  lemma RingOfPushed(head: Buf, bufs: seq<Buf>, ring: seq<Buf>, b: Buf)
    requires RingOf(head, bufs, ring) && b !in bufs && b != head
    ensures RingOf(head, bufs + [b], PushedFront(ring, b)) && b !in ring
    ensures Backwards(ring[1..], bufs) ==> Backwards(PushedFront(ring, b)[1..], bufs + [b])
  {
  }

  lemma RingOfMoved(head: Buf, bufs: seq<Buf>, ring: seq<Buf>, k: nat)
    requires RingOf(head, bufs, ring) && 1 <= k < |ring|
    ensures RingOf(head, bufs, PushedFront(Without(ring, k), ring[k]))
  {
    var moved := PushedFront(Without(ring, k), ring[k]);
    forall c <- bufs
      ensures c in moved
    {
      var i :| 0 <= i < |ring| && ring[i] == c;
      assert moved[if i == k then 1 else if i < k then i + 1 else i] == c;
    }
  }

  lemma RingPosition(head: Buf, bufs: seq<Buf>, ring: seq<Buf>, b: Buf) returns (k: nat)
    requires RingOf(head, bufs, ring) && b in bufs
    ensures 1 <= k < |ring| && ring[k] == b && ring[0] == head && Distinct(ring)
    ensures Distinct(Without(ring, k)) && b !in Without(ring, k)
    ensures forall i | 0 <= i < |ring| :: ring[i] == head || ring[i] in bufs
  {
    k :| 1 <= k < |ring| && ring[k] == b;
  }

  lemma RingTail(head: Buf, bufs: seq<Buf>, ring: seq<Buf>)
    requires RingOf(head, bufs, ring)
    ensures forall i | 2 <= i < |ring| :: ring[i] != ring[1] && ring[i] in bufs
  {
  }

  /** `r` lists `s` backwards. */
  ghost predicate Backwards<T>(r: seq<T>, s: seq<T>) {
    |r| == |s| && forall i | 0 <= i < |r| :: r[i] == s[|s| - 1 - i]
  }

  ghost predicate Blank(b: Buf)
    reads b`valid, b`dirty, b`dev, b`locked, b`refcnt, b`released
  {
    !b.valid && !b.dirty && b.dev == 0 && !b.locked && b.refcnt == 0 && b.released == 0
  }

  /** The loop of binit. */
  method MakeRing(head: Buf, nbuf: nat) returns (bufs: seq<Buf>, ghost ring: seq<Buf>)
    requires head.next == head.prev == head
    modifies head`next, head`prev
    ensures |bufs| == nbuf && fresh(bufs) && RingOf(head, bufs, ring) && Linked(ring)
    ensures Backwards(ring[1..], bufs)
    ensures forall b <- bufs :: Blank(b)
  {
    bufs, ring := [], [head];
    while |bufs| < nbuf
      invariant |bufs| <= nbuf && fresh(bufs)
      invariant RingOf(head, bufs, ring) && Linked(ring)
      invariant Backwards(ring[1..], bufs)
      invariant forall b <- bufs :: Blank(b)
    {
      var b := new Buf();
      RingOfPushed(head, bufs, ring, b);
      LinkBehind(head, b, ring);
      bufs := bufs + [b];
      ring := PushedFront(ring, b);
    }
  }

  lemma {:induction false} SubsetSize<T>(a: set<T>, b: set<T>)
    requires a <= b
    ensures |a| <= |b|
    decreases a
  {
    if a != {} {
      var x :| x in a;
      SubsetSize(a - {x}, b - {x});
    }
  }

  lemma {:induction false} DistinctSize<T>(s: seq<T>)
    requires Distinct(s)
    ensures |set x | x in s| == |s|
  {
    if s != [] {
      var init, x := s[..|s| - 1], s[|s| - 1];
      DistinctSize(init);
      assert (set y | y in s) == (set y | y in init) + {x};
      assert x !in init;
    }
  }

  /** What a buffer is like that some process holds. */
  datatype Holding = Holding(valid: bool, dirty: bool, dev: nat, blockno: nat, locked: bool, refcnt: nat, data: Block)

  class Bcache {
    const disk: Disk
    const head: Buf
    var bufs: seq<Buf>          // bcache.buf
    /** The ring from `head` on: most recently released first. */
    ghost var ring: seq<Buf>
    /** The block contents a reader must see: the disk with every logged or written change on top. */
    ghost var latest: Image
    ghost var clock: nat

    ghost predicate RingOK()
      reads `bufs, `ring, ring`next, ring`prev
    {
      RingOf(head, bufs, ring) && Linked(ring)
    }

    /** The ring is in order of release, the most recent first. */
    ghost predicate LruOK()
      reads `bufs, `ring, `clock, ring`released, bufs`released
    {
      && (forall i, j | 1 <= i < j < |ring| :: ring[i].released >= ring[j].released)
      && (forall b <- bufs :: b.released <= clock)
    }

    /** At most one buffer holds a block of a real device. */
    ghost predicate UniqueOK()
      reads `bufs, bufs`dev, bufs`blockno
    {
      forall b, c | b in bufs && c in bufs && b != c && b.dev != 0 && b.dev == c.dev :: b.blockno != c.blockno
    }

    /** The blocks pinned in the cache by B_DIRTY. */
    ghost function DirtyBlocks(): set<nat>
      reads `bufs, bufs`dirty, bufs`blockno
    {
      set b | b in bufs && b.dirty :: b.blockno
    }

    /** What a buffer says about the disk. */
    ghost predicate BufOK(b: Buf)
      reads `latest, b`valid, b`dirty, b`dev, b`blockno, b`locked, b`refcnt, b`data
    {
      && (b.valid ==> b.dev == ROOTDEV && b.blockno < |latest|)
      && (b.dirty ==> b.valid)
      && (b.locked ==> b.refcnt > 0)
      && (b.valid && !b.locked ==> b.data == latest[b.blockno])
    }

    ghost predicate DataOK()
      reads `latest, `bufs, disk, bufs`valid, bufs`dirty, bufs`dev, bufs`blockno, bufs`locked, bufs`refcnt, bufs`data
    {
      && |latest| == |disk.blocks|
      && (forall b <- bufs :: BufOK(b))
      && (forall n | 0 <= n < |latest| && n !in DirtyBlocks() :: latest[n] == disk.blocks[n])
    }

    ghost predicate Valid()
      reads this, bufs, ring, disk
    {
      RingOK() && LruOK() && UniqueOK() && DataOK()
    }

    /** binit: link the head to itself, then put every buffer right behind it. */
    constructor (disk: Disk, nbuf: nat)
      ensures Valid() && this.disk == disk && |bufs| == nbuf && fresh(bufs) && fresh(head)
      ensures latest == disk.blocks
      ensures Backwards(ring[1..], bufs)
      ensures forall b <- bufs :: Blank(b)
    {
      this.disk, latest, clock, bufs := disk, disk.blocks, 0, [];
      head := new Buf();
      new;
      ghost var r;
      bufs, r := MakeRing(head, nbuf);
      ring := r;
    }

    /** Everything about `c` but its place in the ring is as it was. */
    twostate predicate Kept(c: Buf)
      reads c
    {
      && c.valid == old(c.valid) && c.dirty == old(c.dirty)
      && c.dev == old(c.dev) && c.blockno == old(c.blockno)
      && c.locked == old(c.locked) && c.refcnt == old(c.refcnt) && c.data == old(c.data)
    }

    /** The buffers some process holds or waits for. */
    ghost function Held(): set<Buf>
      reads `bufs, bufs`refcnt
    {
      set b | b in bufs && b.refcnt > 0
    }

    /** The held buffers as they are. */
    ghost function Holders(): (r: map<Buf, Holding>)
      reads `bufs, bufs`valid, bufs`dirty, bufs`dev, bufs`blockno, bufs`locked, bufs`refcnt, bufs`data
      ensures r.Keys == Held()
    {
      map b | b in bufs && b.refcnt > 0 :: Holding(b.valid, b.dirty, b.dev, b.blockno, b.locked, b.refcnt, b.data)
    }

    /** Nobody holds or waits for the block. */
    ghost predicate Unheld(blockno: nat)
      reads `bufs, bufs`valid, bufs`dirty, bufs`dev, bufs`blockno, bufs`locked, bufs`refcnt, bufs`data
    {
      forall b <- Holders() :: Holders()[b].blockno != blockno
    }

    lemma NobodyLeft()
      requires Held() == {}
      ensures Holders() == map[]
    {
    }

    lemma NobodyHolds(n: nat)
      requires Holders() == map[]
      ensures Unheld(n)
    {
    }

    lemma NothingCached()
      requires forall b <- bufs :: Blank(b)
      ensures Holders() == map[] && DirtyBlocks() == {}
    {
    }

    /** Only `b` changed. */
    twostate lemma HoldersMove(b: Buf)
      requires bufs == old(bufs) && b in bufs && forall c <- bufs | c != b :: Kept(c)
      ensures Holders() ==
        if b.refcnt > 0 then
          old(Holders())[b := Holding(b.valid, b.dirty, b.dev, b.blockno, b.locked, b.refcnt, b.data)]
        else old(Holders()) - {b}
    {
      assert forall c <- bufs | c != b :: Kept(c);
    }

    ghost predicate Cached(dev: nat, blockno: nat)
      reads `bufs, bufs`dev, bufs`blockno
    {
      exists b <- bufs :: b.dev == dev && b.blockno == blockno
    }

    /** The first loop of bget: the buffer that holds the block, if any. */
    method Lookup(dev: nat, blockno: nat) returns (b: Buf?)
      requires RingOK()
      ensures b != null ==> b in bufs && b.dev == dev && b.blockno == blockno
      ensures b == null ==> !Cached(dev, blockno)
    {
      ghost var i := 1;
      b := head.next;
      while b != head
        invariant 1 <= i <= |ring| && b == ring[if i == |ring| then 0 else i]
        invariant forall j | 1 <= j < i :: !(ring[j].dev == dev && ring[j].blockno == blockno)
        decreases |ring| - i
      {
        if b.dev == dev && b.blockno == blockno {
          return;
        }
        b := b.next;
        i := i + 1;
      }
      b := null;
    }

    /** The second loop of bget: the least recently released buffer that is clean and unreferenced. */
    method Victim() returns (b: Buf?)
      requires RingOK() && LruOK()
      ensures b != null ==> b in bufs && Free(b) && forall c <- bufs | Free(c) :: b.released <= c.released
      ensures b != null ==> exists k | 1 <= k < |ring| :: ring[k] == b && forall j | k < j < |ring| :: !Free(ring[j])
      ensures b == null ==> forall c <- bufs :: !Free(c)
    {
      ghost var i := |ring| - 1;
      b := head.prev;
      while b != head
        invariant 0 <= i < |ring| && b == ring[i]
        invariant forall j | i < j < |ring| :: !Free(ring[j])
        decreases i
      {
        if b.refcnt == 0 && !b.dirty {
          return;
        }
        b := b.prev;
        i := i - 1;
      }
      b := null;
    }

    ghost predicate Free(b: Buf)
      reads b`refcnt, b`dirty
    {
      b.refcnt == 0 && !b.dirty
    }

    method Ref(b: Buf)
      requires Valid() && b in bufs
      modifies b`refcnt
      ensures Valid() && b.refcnt == old(b.refcnt) + 1
    {
      hide RingOf, Linked, Distinct, LruOK, UniqueOK;
      b.refcnt := b.refcnt + 1;
      assert forall c <- bufs :: old(BufOK(c)) ==> BufOK(c);
    }

    /** Give a free buffer to a block that is not cached. */
    method Recycle(b: Buf, dev: nat, blockno: nat)
      requires Valid() && b in bufs && Free(b) && !Cached(dev, blockno)
      modifies b`dev, b`blockno, b`valid, b`dirty, b`refcnt
      ensures Valid() && b.dev == dev && b.blockno == blockno
      ensures !b.valid && !b.dirty && !b.locked && b.refcnt == 1
      ensures DirtyBlocks() == old(DirtyBlocks())
    {
      hide RingOf, Linked, Distinct, LruOK;
      b.dev, b.blockno, b.valid, b.dirty, b.refcnt := dev, blockno, false, false, 1;
      assert forall c <- bufs :: old(BufOK(c)) ==> BufOK(c);
      assert DirtyBlocks() == old(DirtyBlocks());
    }

    /** bget, up to the point where the buffer is chosen and referenced (bcache.lock held);
        null stands for the panic "bget: no buffers". */
    method Bget(dev: nat, blockno: nat) returns (b: Buf?)
      requires Valid()
      modifies bufs`valid, bufs`dirty, bufs`dev, bufs`blockno, bufs`refcnt
      ensures Valid() && DirtyBlocks() == old(DirtyBlocks())
      ensures b != null ==> b in bufs && b.dev == dev && b.blockno == blockno
      ensures b != null ==> Held() == old(Held()) + {b} && (b !in old(Held()) ==> b.refcnt == 1 && !b.locked)
      ensures forall c <- bufs | c != b :: Kept(c)
      // a cached block is found, and stays as it is
      ensures old(Cached(dev, blockno)) ==>
        && b != null && old(b.dev) == dev && old(b.blockno) == blockno && b.refcnt == old(b.refcnt) + 1
        && b.valid == old(b.valid) && b.dirty == old(b.dirty) && b.locked == old(b.locked) && b.data == old(b.data)
      // otherwise the least recently released clean and unreferenced buffer is recycled
      ensures !old(Cached(dev, blockno)) && b != null ==>
        && old(Free(b)) && !b.locked && !b.valid && !b.dirty && b.refcnt == 1
        && (forall c <- bufs | old(Free(c)) :: b.released <= c.released)
        && exists k | 1 <= k < |ring| :: ring[k] == b && forall j | k < j < |ring| :: !old(Free(ring[j]))
      ensures b == null <==> !old(Cached(dev, blockno)) && forall c <- bufs :: !old(Free(c))
    {
      hide RingOf, Linked, Distinct, LruOK, UniqueOK;
      b := Lookup(dev, blockno);
      if b != null {
        Ref(b);
        return;
      }
      b := Victim();
      if b != null {
        Recycle(b, dev, blockno);
      }
    }

    /** Dirty buffers pin different blocks, so there are no more of them than pinned blocks. */
    lemma {:induction false} DirtyCount(some: set<Buf>)
      requires UniqueOK() && forall b <- some :: b in bufs && b.dirty && b.dev == ROOTDEV
      ensures |some| <= |set b | b in some :: b.blockno|
      decreases some
    {
      if some != {} {
        var b :| b in some;
        var rest := some - {b};
        var image := set c | c in rest :: c.blockno;
        DirtyCount(rest);
        assert b.blockno !in image;
        assert (set c | c in some :: c.blockno) == image + {b.blockno};
      }
    }

    /** bget cannot fail while fewer blocks are pinned or held than there are buffers. */
    lemma FreeExists()
      requires Valid() && |Held()| + |DirtyBlocks()| < |bufs|
      ensures exists b <- bufs :: Free(b)
    {
      var all := set b | b in bufs;
      var pinned := set b | b in bufs && b.dirty;
      DistinctSize(bufs);
      DirtyCount(pinned);
      assert (set b | b in pinned :: b.blockno) == DirtyBlocks();
      if forall b <- bufs :: !Free(b) {
        assert all <= Held() + pinned;
        SubsetSize(all, Held() + pinned);
      }
    }

    /** A block whose own buffer is clean is pinned by no buffer. */
    lemma NotPinned(b: Buf)
      requires Valid() && b in bufs && b.dev == ROOTDEV && !b.dirty
      ensures b.blockno !in DirtyBlocks()
    {
    }

    /** bget, of a block that no process holds or waits for. */
    method GetUnheld(blockno: nat) returns (b: Buf?)
      requires Valid() && Unheld(blockno)
      modifies bufs`valid, bufs`dirty, bufs`dev, bufs`blockno, bufs`refcnt
      ensures Valid() && DirtyBlocks() == old(DirtyBlocks())
      ensures b != null ==>
        && b in bufs && b.dev == ROOTDEV && b.blockno == blockno && !b.locked && b.refcnt == 1
        && b !in old(Held()) && Held() == old(Held()) + {b}
      ensures forall c <- bufs | c != b :: Kept(c)
      ensures b == null <==> !old(Cached(ROOTDEV, blockno)) && forall c <- bufs :: !old(Free(c))
      ensures blockno in old(DirtyBlocks()) || |old(Held())| + |old(DirtyBlocks())| < |bufs| ==> b != null
    {
      hide Valid, DirtyBlocks, Unheld;
      UnheldBuffers(blockno);
      BufferThere(blockno);
      b := Bget(ROOTDEV, blockno);
    }

    /** bread for the disk, of a block that no process holds or waits for: the locked buffer it returns shows the
        latest contents. A panic exactly if the block is in no buffer, and none can be recycled; that cannot be
        for a pinned block, nor while there are more buffers than held ones and pinned blocks. */
    method Bread(blockno: nat) returns (b: Buf?)
      requires Valid() && blockno < |latest| && Unheld(blockno)
      modifies bufs`valid, bufs`dirty, bufs`dev, bufs`blockno, bufs`refcnt, bufs`locked, bufs`data, disk
      ensures Valid() && DirtyBlocks() == old(DirtyBlocks())
      ensures disk.blocks == old(disk.blocks) && disk.writes == old(disk.writes)
      ensures b != null ==>
        && b in bufs && b.dev == ROOTDEV && b.blockno == blockno && b.valid && b.locked && b.refcnt == 1
        && b.data == latest[blockno]
        && b !in old(Held()) && Held() == old(Held()) + {b}
        && Holders() == old(Holders())[b := Holding(true, b.dirty, ROOTDEV, blockno, true, 1, latest[blockno])]
      ensures forall c <- bufs | c != b :: Kept(c)
      ensures b == null <==> !old(Cached(ROOTDEV, blockno)) && forall c <- bufs :: !old(Free(c))
      ensures blockno in old(DirtyBlocks()) || |old(Held())| + |old(DirtyBlocks())| < |bufs| ==> b != null
    {
      hide Valid, DirtyBlocks, Unheld, Cached, Free, Holders;
      b := GetUnheld(blockno);
      if b != null {
        LockAndFill(b);
        HoldersMove(b);
      }
    }

    /** There is a buffer for a pinned block, and for any while there are more buffers than needed. */
    lemma BufferThere(blockno: nat)
      requires Valid()
      ensures blockno in DirtyBlocks() || |Held()| + |DirtyBlocks()| < |bufs| ==>
        Cached(ROOTDEV, blockno) || exists c <- bufs :: Free(c)
    {
      hide Valid, DirtyBlocks;
      if blockno in DirtyBlocks() {
        DirtyIsCached(blockno);
      } else if |Held()| + |DirtyBlocks()| < |bufs| {
        FreeExists();
      }
    }

    lemma UnheldBuffers(blockno: nat)
      ensures Unheld(blockno) <==> forall c <- Held() :: c.blockno != blockno
    {
      assert forall c <- Held() :: Holders()[c].blockno == c.blockno;
    }

    /** The rest of bread: acquiresleep on a free sleeplock, and iderw if nothing was read yet. */
    method LockAndFill(b: Buf)
      requires Valid() && b in bufs && !b.locked && b.refcnt > 0 && b.dev == ROOTDEV && b.blockno < |latest|
      modifies b`locked, b`valid, b`data, b`dirty, disk
      ensures Valid() && DirtyBlocks() == old(DirtyBlocks())
      ensures disk.blocks == old(disk.blocks) && disk.writes == old(disk.writes)
      ensures b.locked && b.valid && b.data == latest[b.blockno] && b.dirty == old(b.dirty)
    {
      hide RingOf, Linked, Distinct, LruOK;
      b.locked := true;
      if !b.valid {
        assert b.blockno !in DirtyBlocks() by { NotPinned(b); }
        disk.Iderw(b);
      }
      assert forall c <- bufs | c != b :: old(BufOK(c)) ==> BufOK(c);
      assert DirtyBlocks() == old(DirtyBlocks());
    }

    lemma NothingPinned()
      requires Valid() && DirtyBlocks() == {}
      ensures latest == disk.blocks
    {
    }

    lemma DirtyIsCached(blockno: nat)
      requires Valid() && blockno in DirtyBlocks()
      ensures Cached(ROOTDEV, blockno)
    {
    }

    /** The holder of a buffer overwrites its data. */
    method Fill(b: Buf, data: Block)
      requires Valid() && b in bufs && b.locked
      modifies b`data
      ensures Valid() && Held() == old(Held()) && DirtyBlocks() == old(DirtyBlocks()) && b.data == data
      ensures Holders() == old(Holders())[b := Holding(b.valid, b.dirty, b.dev, b.blockno, b.locked, b.refcnt, data)]
    {
      hide RingOf, Linked, Distinct, LruOK, UniqueOK, Holders;
      LockedIsHeld(b);
      b.data := data;
      assert forall c <- bufs :: old(BufOK(c)) ==> BufOK(c);
      HoldersMove(b);
    }

    /** bwrite: the held buffer goes to disk and is clean afterwards. */
    method Bwrite(b: Buf)
      requires Valid() && b in bufs && b.locked && b.valid
      modifies this`latest, b`valid, b`dirty, b`data, disk
      ensures Valid() && Held() == old(Held())
      ensures Holders() == old(Holders())[b := Holding(true, false, b.dev, b.blockno, b.locked, b.refcnt, b.data)]
      ensures b.valid && !b.dirty && b.data == old(b.data) && b.blockno < |latest|
      ensures latest == old(latest)[b.blockno := b.data]
      ensures disk.blocks == old(disk.blocks)[b.blockno := b.data]
      ensures disk.writes == old(disk.writes) + [Write(b.blockno, b.data)]
      ensures DirtyBlocks() == old(DirtyBlocks()) - {b.blockno}
    {
      hide RingOf, Linked, Distinct, LruOK, Holders;
      LockedIsHeld(b);
      b.dirty := true;
      disk.Iderw(b);
      latest := latest[b.blockno := b.data];
      OthersWritten(b);
      HoldersMove(b);
    }

    /** After a write through the held buffer `b`, the others still show what they should. */
    twostate lemma OthersWritten(b: Buf)
      requires bufs == old(bufs) && b in bufs && old(Valid()) && old(b.valid)
      requires b.valid && !b.dirty && b.dev == old(b.dev) && b.blockno == old(b.blockno) && b.locked && b.refcnt > 0
      requires latest == old(latest)[b.blockno := b.data] && disk.blocks == old(disk.blocks)[b.blockno := b.data]
      requires forall c <- bufs | c != b :: Kept(c)
      ensures DataOK() && DirtyBlocks() == old(DirtyBlocks()) - {b.blockno}
    {
      hide RingOK, LruOK;
      assert forall c <- bufs | c != b :: old(BufOK(c)) && Kept(c) && (c.valid ==> c.blockno != b.blockno);
      assert DirtyBlocks() == old(DirtyBlocks()) - {b.blockno};
    }

    lemma LockedIsHeld(b: Buf)
      requires DataOK() && b in bufs && b.locked
      ensures b.refcnt > 0 && b in Held()
    {
      assert BufOK(b);
    }

    /** The part of log_write that concerns the cache: the changed buffer is pinned. */
    method Pin(b: Buf)
      requires Valid() && b in bufs && b.locked && b.valid
      modifies this`latest, b`dirty
      ensures Valid() && Held() == old(Held()) && b.dirty
      ensures latest == old(latest)[b.blockno := b.data]
      ensures DirtyBlocks() == old(DirtyBlocks()) + {b.blockno}
    {
      hide RingOf, Linked, Distinct, LruOK;
      b.dirty := true;
      latest := latest[b.blockno := b.data];
      assert forall c <- bufs | c != b :: BufOK(c) && c.dirty == old(c.dirty) && (c.valid ==> c.blockno != b.blockno);
      assert DirtyBlocks() == old(DirtyBlocks()) + {b.blockno};
    }

    /** brelse, by a holder whose changes, if any, were logged or written. */
    method Brelse(b: Buf)
      requires Valid() && b in bufs && b.locked
      requires b.valid ==> b.data == latest[b.blockno]
      modifies this`ring, this`clock, b`locked, b`refcnt, b`released
      modifies bufs`next, bufs`prev, head`next, head`prev
      ensures Valid() && DirtyBlocks() == old(DirtyBlocks())
      ensures !b.locked && b.refcnt == old(b.refcnt) - 1
      ensures b.refcnt == 0 ==> Holders() == old(Holders()) - {b}
      ensures Held() == if b.refcnt == 0 then old(Held()) - {b} else old(Held())
      ensures b.refcnt > 0 ==> ring == old(ring)
      // the last release makes it the most recently released buffer
      ensures b.refcnt == 0 ==>
        && |ring| > 1 && ring[1] == b && b.released == clock == old(clock) + 1
        && exists k | 1 <= k < |ring| :: old(ring)[k] == b && ring == PushedFront(Without(old(ring), k), b)
    {
      hide RingOK, LruOK, UniqueOK, DataOK, DirtyBlocks, Held, Holders;
      Unlock(b);
      if b.refcnt == 0 {
        MoveToFront(b);
      }
    }

    /** releasesleep, and one reference less. */
    method Unlock(b: Buf)
      requires DataOK() && b in bufs && b.locked
      requires b.valid ==> b.data == latest[b.blockno]
      modifies b`locked, b`refcnt
      ensures DataOK() && DirtyBlocks() == old(DirtyBlocks())
      ensures !b.locked && b.refcnt == old(b.refcnt) - 1
      ensures b.refcnt == 0 ==> Holders() == old(Holders()) - {b}
      ensures Held() == if b.refcnt == 0 then old(Held()) - {b} else old(Held())
    {
      LockedIsHeld(b);
      b.locked := false;
      b.refcnt := b.refcnt - 1;
      assert forall c <- bufs :: old(BufOK(c)) ==> BufOK(c);
      HoldersMove(b);
    }

    method MoveToFront(b: Buf)
      requires RingOK() && LruOK() && b in bufs
      modifies this`ring, this`clock, b`released, bufs`next, bufs`prev, head`next, head`prev
      ensures RingOK() && LruOK()
      ensures |ring| > 1 && ring[1] == b && b.released == clock == old(clock) + 1
      ensures exists k | 1 <= k < |ring| :: old(ring)[k] == b && ring == PushedFront(Without(old(ring), k), b)
    {
      hide RingOf, Linked, Distinct;
      ghost var k := Relink(b);
      clock := clock + 1;
      b.released := clock;
      forall i, j | 1 <= i < j < |ring|
        ensures ring[i].released >= ring[j].released
      {
        var j0 := if j <= k then j - 1 else j;
        assert ring[j] == old(ring)[j0] && ring[j] in bufs;
        if i > 1 {
          var i0 := if i <= k then i - 1 else i;
          assert ring[i] == old(ring)[i0];
        }
      }
    }

    method Relink(b: Buf) returns (ghost k: nat)
      requires RingOK() && b in bufs
      modifies this`ring, bufs`next, bufs`prev, head`next, head`prev
      ensures RingOK() && 1 <= k < |ring| == |old(ring)| && old(ring)[k] == b
      ensures ring == PushedFront(Without(old(ring), k), b)
      ensures forall i | 2 <= i < |ring| :: ring[i] != b && ring[i] in bufs
    {
      hide RingOf, Distinct;
      k := RingPosition(head, bufs, ring, b);
      RingOfMoved(head, bufs, ring, k);
      Unlink(b, ring, k);
      LinkBehind(head, b, Without(ring, k));
      ring := PushedFront(Without(ring, k), b);
      RingTail(head, bufs, ring);
    }
  }
}
