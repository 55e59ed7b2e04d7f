/** What itrunc (fs.c) leaves: exactly the blocks of one inode become free. */
module Truncate {
  import opened Words
  import opened Bio
  import opened FsFormat
  import opened Ownership
  import opened Content

  /** The order in which itrunc frees: the data blocks, then the indirect block. */
  function Order(n: nat): nat
    requires n <= MAXFILE
  {
    if n < MAXFILE then DataSlot(n) else INDIRECT
  }

  /** The first `n` slots in that order were freed. */
  function Gone(v: View, n: nat): set<nat>
    requires v.Sized() && n <= MAXFILE + 1
  {
    if n == 0 then {} else Gone(v, n - 1) + ({v.Ptr(v.inum, Order(n - 1))} - {0})
  }

  lemma {:induction false} GoneIs(v: View, n: nat, b: nat)
    requires v.Sized() && n <= MAXFILE + 1
    ensures b in Gone(v, n) <==> b != 0 && exists m | 0 <= m < n :: v.Ptr(v.inum, Order(m)) == b
  {
    hide View.Ptr;
    if n > 0 {
      GoneIs(v, n - 1, b);
    }
  }

  /** All slots come up in the order. */
  lemma GoneIsAll(v: View, b: nat)
    requires v.Sized()
    ensures b in Gone(v, MAXFILE + 1) <==> b != 0 && exists k | 0 <= k < NSLOTS :: v.Ptr(v.inum, k) == b
  {
    hide View.Ptr, Gone;
    GoneIs(v, MAXFILE + 1, b);
    assert forall m | 0 <= m <= MAXFILE :: Order(m) < NSLOTS;
    forall k: nat | k < NSLOTS && v.Ptr(v.inum, k) == b
      ensures exists m | 0 <= m < MAXFILE + 1 :: v.Ptr(v.inum, Order(m)) == b
    {
      var m := if k < NDIRECT then k else if k == INDIRECT then MAXFILE else k - 1;
      assert Order(m) == k;
    }
  }

  /** Between `v` and `blocks`, the blocks in `gone` were freed, and nothing else changed. */
  ghost predicate Freed(v: View, blocks: Image, gone: set<nat>) {
    && v.Sized() && |blocks| == |v.blocks|
    && (forall b | 0 <= b < |blocks| && !(v.sb.bmapstart <= b < v.sb.DataStart()) :: blocks[b] == v.blocks[b])
    && forall x | 0 <= x < v.sb.size :: UseBit(v.sb, blocks, x) <==> v.InUse(x) && x !in gone
  }

  /** The bits after bfree. */
  lemma FreeOne(v: View, blocks: Image, gone: set<nat>, b: nat)
    requires Freed(v, blocks, gone) && b < v.sb.size
    ensures v.sb.BBlock(b) < |blocks|
    ensures Freed(v, blocks[v.sb.BBlock(b) := WithMapBit(blocks[v.sb.BBlock(b)], b % BPB, false)], gone + {b})
  {
    hide MapBit, WithMapBit;
    var at := v.sb.BBlock(b);
    MetadataApart(v, v.inum, b);
    var w := blocks[at := WithMapBit(blocks[at], b % BPB, false)];
    forall x | 0 <= x < v.sb.size
      ensures UseBit(v.sb, w, x) <==> v.InUse(x) && x !in gone + {b}
    {
      MetadataApart(v, v.inum, x);
      if v.sb.BBlock(x) == at {
        MapBitUpdate(blocks[at], b % BPB, false, x % BPB);
      }
    }
  }

  /** itrunc never meets a block that is free already. */
  lemma NotYetFree(v: View, blocks: Image, n: nat)
    requires v.OK({}) && n <= MAXFILE && Freed(v, blocks, Gone(v, n)) && v.Ptr(v.inum, Order(n)) != 0
    ensures v.Ptr(v.inum, Order(n)) < v.sb.size && UseBit(v.sb, blocks, v.Ptr(v.inum, Order(n)))
  {
    hide View.Ptr, Gone, UseBit;
    var b := v.Ptr(v.inum, Order(n));
    assert v.IsSlot(v.inum, Order(n));
    GoneIs(v, n, b);
    forall m: nat | m < n
      ensures v.Ptr(v.inum, Order(m)) != b
    {
      assert v.IsSlot(v.inum, Order(m)) && (v.inum, Order(m)) != (v.inum, Order(n));
    }
  }

  lemma FreedNothing(v: View)
    requires v.Sized()
    ensures Freed(v, v.blocks, Gone(v, 0))
  {
  }

  /** The pointer that comes up next, in terms of the inode. */
  lemma OrderIs(v: View, n: nat)
    requires v.OK({}) && n <= MAXFILE
    ensures v.ino.addrs[INDIRECT] != 0 ==> v.sb.DataStart() <= v.ino.addrs[INDIRECT] < |v.blocks|
    ensures v.Ptr(v.inum, Order(n)) ==
            if n < NDIRECT then v.ino.addrs[n]
            else if n == MAXFILE then v.ino.addrs[INDIRECT]
            else if v.ino.addrs[INDIRECT] == 0 then 0
            else GetU32(v.blocks[v.ino.addrs[INDIRECT]], n - NDIRECT)
  {
    hide GetU32, GetInode, UseBit;
    assert v.IsSlot(v.inum, INDIRECT) && v.Ptr(v.inum, INDIRECT) == v.ino.addrs[INDIRECT];
  }

  /** The next turn of itrunc's loops. */
  lemma FreeNext(v: View, blocks: Image, n: nat)
    requires v.OK({}) && n <= MAXFILE && Freed(v, blocks, Gone(v, n))
    ensures var b := v.Ptr(v.inum, Order(n));
            if b == 0 then Gone(v, n + 1) == Gone(v, n)
            else
              && b < v.sb.size && UseBit(v.sb, blocks,
                 b) && v.sb.bmapstart <= v.sb.BBlock(b) < v.sb.DataStart() <= |blocks|
              && Freed(v, blocks[v.sb.BBlock(b) := WithMapBit(blocks[v.sb.BBlock(b)], b % BPB, false)], Gone(v, n + 1))
  {
    hide View.PointersOK, View.NoSharing, View.Conserved, View.Ptr, MapBit, WithMapBit;
    var b := v.Ptr(v.inum, Order(n));
    if b != 0 {
      NotYetFree(v, blocks, n);
      FreeOne(v, blocks, Gone(v, n), b);
      assert Gone(v, n + 1) == Gone(v, n) + {b};
      MetadataApart(v, v.inum, b);
    }
  }

  lemma {:induction false} NoIndirect(v: View, n: nat)
    requires v.OK({}) && v.ino.addrs[INDIRECT] == 0 && NDIRECT <= n <= MAXFILE + 1
    ensures Gone(v, n) == Gone(v, NDIRECT)
  {
    hide View.OK, View.Ptr;
    if n > NDIRECT {
      NoIndirect(v, n - 1);
      OrderIs(v, n - 1);
    }
  }

  lemma IndirectKept(v: View, blocks: Image, gone: set<nat>)
    requires v.OK({}) && Freed(v, blocks, gone) && v.ino.addrs[INDIRECT] != 0
    ensures v.ino.addrs[INDIRECT] < |blocks| && blocks[v.ino.addrs[INDIRECT]] == v.blocks[v.ino.addrs[INDIRECT]]
  {
    hide View.Ptr;
    OrderIs(v, MAXFILE);
  }

  /** The view when all is freed, before the inode is written back. */
  function Emptied(v: View, blocks: Image): View {
    View(v.sb, blocks, v.inum, v.ino.(size := 0, addrs := NoAddrs()))
  }

  function NoAddrs(): (a: Addrs)
    ensures forall j | 0 <= j < NADDRS :: a[j] == 0
  {
    seq(NADDRS, _ => 0)
  }

  lemma AllZero(a: Addrs)
    requires forall j | 0 <= j < NADDRS :: a[j] == 0
    ensures a == NoAddrs()
  {
  }

  lemma EmptiedPtrs(v: View, blocks: Image, gone: set<nat>, i: nat, k: nat)
    requires v.OK({}) && Freed(v, blocks, gone) && v.IsSlot(i, k)
    ensures Emptied(v, blocks).Sized()
    ensures Emptied(v, blocks).InodeOnDisk(i) == v.InodeOnDisk(i)
    ensures Emptied(v, blocks).Ptr(i, k) == if i == v.inum then 0 else v.Ptr(i, k)
  {
    hide View.NoSharing, View.Conserved, GetInode, GetU32, UseBit;
    MetadataApart(v, i, 0);
    assert v.IsSlot(i, INDIRECT);
  }

  lemma EmptiedIsOK(v: View, blocks: Image)
    requires v.OK({}) && Freed(v, blocks, Gone(v, MAXFILE + 1))
    ensures Emptied(v, blocks).OK({}) && OthersKept(v, Emptied(v, blocks)) && Present(Emptied(v, blocks), 0)
  {
    var w := Emptied(v, blocks);
    forall i: nat, k: nat | v.IsSlot(i, k)
      ensures w.Sized() && w.InodeOnDisk(i) == v.InodeOnDisk(i) && w.Ptr(i, k) == if i == v.inum then 0 else v.Ptr(i, k)
    {
      EmptiedPtrs(v, blocks, Gone(v, MAXFILE + 1), i, k);
    }
    assert v.IsSlot(v.inum, 0);
    EmptiedBits(v, blocks, w);
    EmptiedOthers(v, w);
    hide View.OK, OthersKept, Freed, View.InodeOnDisk, View.Ptr;
    assert forall k | 0 <= k < NSLOTS :: v.IsSlot(v.inum, k);
  }

  lemma EmptiedOthers(v: View, w: View)
    requires v.OK({}) && w.Sized() && w.sb == v.sb && w.inum == v.inum
    requires forall i: nat, k: nat | v.IsSlot(i, k) :: w.InodeOnDisk(i) == v.InodeOnDisk(i)
    requires forall i: nat, k: nat | v.IsSlot(i, k) :: w.Ptr(i, k) == if i == v.inum then 0 else v.Ptr(i, k)
    requires forall b | v.sb.DataStart() <= b < |v.blocks| :: w.blocks[b] == v.blocks[b]
    ensures OthersKept(v, w)
  {
    hide View.Ptr, View.InodeOnDisk;
    forall i: nat | i < v.sb.ninodes
      ensures w.InodeOnDisk(i) == v.InodeOnDisk(i)
    {
      assert v.IsSlot(i, 0);
    }
  }

  lemma EmptiedBits(v: View, blocks: Image, w: View)
    requires v.OK({}) && Freed(v, blocks, Gone(v, MAXFILE + 1)) && w.Sized() && w.sb == v.sb
        && w.blocks == blocks && w.inum == v.inum
    requires forall i: nat, k: nat | v.IsSlot(i, k) :: w.Ptr(i, k) == if i == v.inum then 0 else v.Ptr(i, k)
    ensures w.OK({})
  {
    hide View.Ptr, Gone, UseBit;
    assert forall i, k :: w.IsSlot(i, k) <==> v.IsSlot(i, k);
    var gone := Gone(v, MAXFILE + 1);
    forall x: nat
      ensures x in gone <==> x != 0 && exists k | 0 <= k < NSLOTS :: v.Ptr(v.inum, k) == x
    {
      GoneIsAll(v, x);
    }
    forall i: nat, k: nat | v.IsSlot(i, k) && i != v.inum && v.Ptr(i, k) != 0
      ensures v.Ptr(i, k) !in gone
    {
      assert forall l: nat | l < NSLOTS :: v.IsSlot(v.inum, l) && (i, k) != (v.inum, l);
    }
    forall x | 0 <= x < v.sb.size
      ensures w.InUse(x) <==> x < v.sb.DataStart() || w.Owned(x)
    {
      if v.Owned(x) {
        var i, k :| v.IsSlot(i, k) && v.Ptr(i, k) == x;
        assert w.IsSlot(i, k);
      }
      if x in gone {
        var k :| 0 <= k < NSLOTS && v.Ptr(v.inum, k) == x;
        assert v.IsSlot(v.inum, k);
      }
    }
  }

  /** What itrunc promises: the file has no block and no byte left, on disk as in memory; its blocks
      and no others became free; the other files are as before. */
  ghost predicate Truncated(v: View, w: View) {
    && v.OK({}) && w.OK({}) && OthersKept(v, w)
    && w.ino == v.ino.(size := 0, addrs := w.ino.addrs) && w.InodeOnDisk(w.inum) == w.ino
    && (forall k | 0 <= k < NSLOTS :: w.Ptr(w.inum, k) == 0) && Present(w, 0)
    && forall b | 0 <= b < v.sb.size ::
         w.InUse(b) <==> v.InUse(b) && !(b != 0 && exists k | 0 <= k < NSLOTS :: v.Ptr(v.inum, k) == b)
  }

  lemma TruncatedBy(v: View, blocks: Image)
    requires v.OK({}) && Freed(v, blocks, Gone(v, MAXFILE + 1))
    ensures var x := Emptied(v, blocks);
            x.Sized() && x.sb.IBlock(x.inum) < |x.blocks| && Truncated(v, Iupdated(x))
  {
    hide View.PointersOK, View.NoSharing, View.Conserved, View.Ptr, Gone, GetInode, MapBit, PutInode;
    var x := Emptied(v, blocks);
    EmptiedIsOK(v, blocks);
    IupdateKeeps(x, 0);
    var w := Iupdated(x);
    OthersKeptTrans(v, x, w);
    forall b | 0 <= b < v.sb.size
      ensures w.InUse(b) <==> v.InUse(b) && !(b != 0 && exists k | 0 <= k < NSLOTS :: v.Ptr(v.inum, k) == b)
    {
      MetadataApart(x, x.inum, b);
      GoneIsAll(v, b);
    }
    forall k | 0 <= k < NSLOTS
      ensures w.Ptr(w.inum, k) == 0
    {
      NoPtrs(w, k);
    }
  }

  lemma NoPtrs(w: View, k: nat)
    requires w.Sized() && k < NSLOTS && forall j | 0 <= j < NADDRS :: w.ino.addrs[j] == 0
    ensures w.Ptr(w.inum, k) == 0
  {
  }
}
