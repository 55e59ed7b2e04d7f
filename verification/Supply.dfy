/** How many blocks bmap (fs.c) takes: the slots of a stretch of a file that are still empty, against the
    blocks that are free. */
module Supply {
  import opened Words
  import opened Bio
  import opened FsFormat
  import opened Ownership

  /** The blocks that balloc may hand out. */
  ghost function FreeOf(v: View): set<nat>
    requires v.Sized()
  {
    set b: nat | b < v.sb.size && !v.InUse(b)
  }

  /** The slots behind which the blocks from `lo` to before `hi` of a file lie: their own, and that of the
      indirect block. */
  predicate Needs(k: nat, lo: nat, hi: nat) {
    if k == INDIRECT then lo < hi && NDIRECT < hi else lo <= (if k < INDIRECT then k else k - 1) < hi
  }

  /** Those of them that the current inode does not have. */
  function Lacks(v: View, lo: nat, hi: nat): set<nat>
    requires v.Sized()
  {
    set k: nat | k < NSLOTS && Needs(k, lo, hi) && v.Ptr(v.inum, k) == 0
  }

  lemma NeedsOne(bn: nat, k: nat)
    requires bn < MAXFILE && k < NSLOTS
    ensures Needs(k, bn, bn + 1) <==> k == DataSlot(bn) || (k == INDIRECT && bn >= NDIRECT)
  {
  }

  lemma LacksOne(v: View, bn: nat)
    requires v.Sized() && bn < MAXFILE
    ensures Data(v, v.inum, bn) != 0 <==> Lacks(v, bn, bn + 1) == {}
  {
    hide Needs, View.Inode;
    NeedsOne(bn, DataSlot(bn));
    if Data(v, v.inum, bn) == 0 {
      assert DataSlot(bn) in Lacks(v, bn, bn + 1);
    } else {
      forall k: nat {:trigger Needs(k, bn, bn + 1)} | k < NSLOTS
        ensures k !in Lacks(v, bn, bn + 1)
      {
        NeedsOne(bn, k);
      }
    }
  }

  /** From `v` to `w` exactly the slots that the blocks from `lo` to before `hi` lacked were filled. */
  ghost predicate Filled(v: View, w: View, lo: nat, hi: nat) {
    && v.Sized() && w.Sized() && w.sb == v.sb && w.inum == v.inum
    && forall k: nat | k < NSLOTS ::
         if Needs(k, lo, hi) && v.Ptr(v.inum, k) == 0 then w.Ptr(w.inum, k) != 0
         else w.Ptr(w.inum, k) == v.Ptr(v.inum, k)
  }

  lemma FilledNothing(v: View, lo: nat)
    requires v.Sized()
    ensures Filled(v, v, lo, lo) && Lacks(v, lo, lo) == {}
  {
  }

  /** What is lacked at the end is what was lacked in the middle, and what is lacked from there on. */
  lemma LacksMore(u: View, v: View, lo: nat, mid: nat, from: nat, hi: nat)
    requires Filled(u, v, lo, mid) && lo <= from <= mid <= hi
    ensures Lacks(u, lo, hi) == Lacks(u, lo, mid) + Lacks(v, from, hi)
    ensures |Lacks(u, lo, hi)| == |Lacks(u, lo, mid)| + |Lacks(v, from, hi)|
  {
    hide View.Ptr;
    forall k: nat
      ensures Needs(k, lo, hi) <==> Needs(k, lo, mid) || Needs(k, from, hi)
    {
    }
    hide Needs;
    assert Lacks(u, lo, mid) !! Lacks(v, from, hi);
  }

  lemma LacksLess(v: View, lo: nat, mid: nat, hi: nat)
    requires v.Sized() && mid <= hi
    ensures Lacks(v, lo, mid) <= Lacks(v, lo, hi) && |Lacks(v, lo, mid)| <= |Lacks(v, lo, hi)|
  {
    hide View.Ptr;
    SubsetSize(Lacks(v, lo, mid), Lacks(v, lo, hi));
  }

  lemma FilledTrans(u: View, v: View, w: View, lo: nat, mid: nat, from: nat, hi: nat)
    requires Filled(u, v, lo, mid) && Filled(v, w, from, hi) && lo <= from <= mid <= hi
    ensures Filled(u, w, lo, hi)
  {
    hide View.Ptr;
    forall k: nat
      ensures Needs(k, lo, hi) <==> Needs(k, lo, mid) || Needs(k, from, hi)
    {
    }
    hide Needs;
  }

  /** bmap fills what its block lacks. */
  lemma MappedFills(v: View, w: View, bn: nat, addr: nat)
    requires Mapped(v, w, bn, addr)
    ensures Filled(v, w, bn, bn + 1)
  {
    hide View.PointersOK, View.NoSharing, View.Conserved, View.Ptr, View.InodeOnDisk, Needs;
    MappedOthers(v, w, bn, addr);
    forall k: nat {:trigger w.Ptr(w.inum, k)} | k < NSLOTS
      ensures if Needs(k, bn, bn + 1) && v.Ptr(v.inum, k) == 0 then w.Ptr(w.inum, k) != 0
              else w.Ptr(w.inum, k) == v.Ptr(v.inum, k)
    {
      NeedsOne(bn, k);
      assert SlotKept(v, w, k);
    }
  }

  lemma MappedOthers(v: View, w: View, bn: nat, addr: nat)
    requires Mapped(v, w, bn, addr)
    ensures v.Sized() && w.Sized() && w.sb == v.sb && w.inum == v.inum && v.OK({}) && w.OK({}) && bn < MAXFILE
  {
  }

  lemma FilledSame(v: View, u: View, w: View, lo: nat, hi: nat)
    requires Filled(v, u, lo, hi) && w.Sized() && w.sb == u.sb && w.inum == u.inum && SamePtrs(u, w)
    ensures Filled(v, w, lo, hi)
  {
    hide View.Ptr, Needs;
    assert forall k: nat | k < NSLOTS :: u.IsSlot(u.inum, k);
  }

  // ---- supply ----

  /** The blocks behind the given slots of the current inode. */
  ghost function Behind(w: View, slots: set<nat>): set<nat>
    requires w.Sized() && forall k <- slots :: k < NSLOTS
  {
    set k | k in slots :: w.Ptr(w.inum, k)
  }

  lemma {:induction false} BehindSize(w: View, slots: set<nat>)
    requires w.Sized() && forall k <- slots :: k < NSLOTS
    ensures |Behind(w, slots)| <= |slots|
    ensures w.NoSharing() && (forall k <- slots :: w.Ptr(w.inum, k) != 0) ==> |Behind(w, slots)| == |slots|
    decreases slots
  {
    hide View.Ptr, View.NoSharing;
    if slots == {} {
      assert Behind(w, slots) == {};
    } else {
      var k :| k in slots;
      var rest := slots - {k};
      BehindSize(w, rest);
      assert Behind(w, slots) == Behind(w, rest) + {w.Ptr(w.inum, k)};
      if w.NoSharing() && forall k <- slots :: w.Ptr(w.inum, k) != 0 {
        NotBehind(w, rest, k);
      }
    }
  }

  lemma NotBehind(w: View, slots: set<nat>, k: nat)
    requires w.Sized() && w.NoSharing() && k < NSLOTS && k !in slots && forall l <- slots :: l < NSLOTS
    requires w.Ptr(w.inum, k) != 0
    ensures w.Ptr(w.inum, k) !in Behind(w, slots)
  {
    hide View.Ptr;
    forall l | l in slots
      ensures w.Ptr(w.inum, l) != w.Ptr(w.inum, k)
    {
      assert w.IsSlot(w.inum, k) && w.IsSlot(w.inum, l) && (w.inum, k) != (w.inum, l);
    }
  }

  /** The bitmap blocks of the given blocks. */
  function MapsOf(sb: Superblock, blocks: set<nat>): set<nat> {
    set b | b in blocks :: sb.BBlock(b)
  }

  lemma {:induction false} MapsSize(sb: Superblock, blocks: set<nat>)
    ensures |MapsOf(sb, blocks)| <= |blocks|
    decreases blocks
  {
    if blocks == {} {
      assert MapsOf(sb, blocks) == {};
    } else {
      var b :| b in blocks;
      MapsSize(sb, blocks - {b});
      assert MapsOf(sb, blocks) == MapsOf(sb, blocks - {b}) + {sb.BBlock(b)};
    }
  }

  /** The blocks that were free and now are behind a slot. */
  ghost function Taken(v: View, w: View, lo: nat, hi: nat): set<nat>
    requires v.Sized() && w.Sized()
  {
    Behind(w, Lacks(v, lo, hi))
  }

  /** A block that fills a slot was free before. */
  lemma WasFree(v: View, w: View, lo: nat, hi: nat, k: nat)
    requires v.OK({}) && w.OK({}) && OthersKept(v, w) && Filled(v, w, lo, hi) && k in Lacks(v, lo, hi)
    ensures w.Ptr(w.inum, k) in FreeOf(v)
  {
    hide GetInode, UseBit, View.Ptr, View.InodeOnDisk, Needs;
    var x := w.Ptr(w.inum, k);
    assert w.IsSlot(w.inum, k);
    forall i: nat, l: nat | v.IsSlot(i, l)
      ensures v.Ptr(i, l) != x
    {
      if (i, l) != (w.inum, k) {
        assert w.IsSlot(i, l) && w.Ptr(i, l) != x;
      }
    }
  }

  /** What is owned stays owned. */
  lemma StillOwned(v: View, w: View, lo: nat, hi: nat, x: nat)
    requires v.OK({}) && w.OK({}) && OthersKept(v, w) && Filled(v, w, lo, hi) && v.Owned(x)
    ensures w.Owned(x)
  {
    hide GetInode, UseBit, View.Ptr, View.InodeOnDisk, Needs, View.PointersOK, View.NoSharing, View.Conserved;
    var i, l :| v.IsSlot(i, l) && v.Ptr(i, l) == x;
    assert w.IsSlot(i, l) && w.Ptr(i, l) == x;
  }

  /** What is newly owned fills a slot. */
  lemma NewlyOwned(v: View, w: View, lo: nat, hi: nat, x: nat)
    requires v.OK({}) && w.OK({}) && OthersKept(v, w) && Filled(v, w, lo, hi) && w.Owned(x)
    ensures v.Owned(x) || x in Taken(v, w, lo, hi)
  {
    hide GetInode, UseBit, View.Ptr, View.InodeOnDisk, Needs, View.PointersOK, View.NoSharing, View.Conserved;
    var i, l :| w.IsSlot(i, l) && w.Ptr(i, l) == x;
    assert v.IsSlot(i, l);
    if i == v.inum && l in Lacks(v, lo, hi) {
    } else {
      assert v.Ptr(i, l) == x;
    }
  }

  lemma TakenOwned(v: View, w: View, lo: nat, hi: nat, x: nat)
    requires v.Sized() && Filled(v, w, lo, hi) && x in Taken(v, w, lo, hi)
    ensures w.Owned(x)
  {
    hide View.Ptr, Needs;
    var k :| k in Lacks(v, lo, hi) && w.Ptr(w.inum, k) == x;
    assert w.IsSlot(w.inum, k);
  }

  lemma FreeIs(v: View, x: nat)
    requires v.OK({})
    ensures x in FreeOf(v) <==> v.sb.DataStart() <= x < v.sb.size && !v.Owned(x)
  {
    hide View.Ptr, UseBit, View.Owned;
  }

  /** What is free now was free before, and fills no slot. */
  lemma StillFree(v: View, w: View, lo: nat, hi: nat)
    requires v.OK({}) && w.OK({}) && OthersKept(v, w) && Filled(v, w, lo, hi)
    ensures FreeOf(w) == FreeOf(v) - Taken(v, w, lo, hi)
  {
    hide View.Ptr, Needs, FreeOf, Taken, View.OK, OthersKept, View.Owned;
    forall x: nat
      ensures x in FreeOf(w) <==> x in FreeOf(v) && x !in Taken(v, w, lo, hi)
    {
      FreeIs(v, x);
      FreeIs(w, x);
      if v.Owned(x) { StillOwned(v, w, lo, hi, x); }
      if w.Owned(x) { NewlyOwned(v, w, lo, hi, x); }
      if x in Taken(v, w, lo, hi) { TakenOwned(v, w, lo, hi, x); }
    }
  }

  /** The account: as many blocks less are free as slots were filled. */
  lemma FilledTakes(v: View, w: View, lo: nat, hi: nat)
    requires v.OK({}) && w.OK({}) && OthersKept(v, w) && Filled(v, w, lo, hi)
    ensures FreeOf(w) <= FreeOf(v) && |FreeOf(v)| == |FreeOf(w)| + |Lacks(v, lo, hi)|
    ensures FreeOf(v) - FreeOf(w) == Taken(v, w, lo, hi)
  {
    hide GetInode, UseBit, View.Ptr, View.InodeOnDisk, Needs, FreeOf, View.PointersOK, View.Conserved, OthersKept;
    StillFree(v, w, lo, hi);
    forall k | k in Lacks(v, lo, hi)
      ensures w.Ptr(w.inum, k) in FreeOf(v)
    {
      WasFree(v, w, lo, hi, k);
    }
    assert FreeOf(v) == FreeOf(w) + Taken(v, w, lo, hi) && FreeOf(w) !! Taken(v, w, lo, hi);
    BehindSize(w, Lacks(v, lo, hi));
  }

  /** If a part of a stretch lacks more than is free by then, the whole of it lacked more than was free. */
  lemma NotEnough(u: View, v: View, lo: nat, mid: nat, from: nat, to: nat, hi: nat)
    requires u.OK({}) && v.OK({}) && OthersKept(u, v) && Filled(u, v, lo, mid) && lo <= from <= mid <= to <= hi
    requires |FreeOf(v)| < |Lacks(v, from, to)|
    ensures |FreeOf(u)| < |Lacks(u, lo, hi)|
  {
    hide View.Ptr, View.PointersOK, View.NoSharing, View.Conserved, OthersKept, FreeOf, Lacks, Needs, Filled;
    FilledTakes(u, v, lo, mid);
    LacksMore(u, v, lo, mid, from, to);
    LacksLess(u, lo, to, hi);
  }

  lemma NoneFree(v: View)
    requires v.Sized() && forall x | 0 <= x < v.sb.size :: v.InUse(x)
    ensures |FreeOf(v)| == 0
  {
    assert FreeOf(v) == {};
  }

  lemma MappedTakes(v: View, w: View, bn: nat, addr: nat)
    requires Mapped(v, w, bn, addr)
    ensures v.Sized() && |Lacks(v, bn, bn + 1)| <= |FreeOf(v)|
  {
    hide View.OK, View.Ptr, FreeOf, Lacks;
    MappedFills(v, w, bn, addr);
    FilledTakes(v, w, bn, bn + 1);
  }

  /** Without an indirect block, a block behind it is lacked together with it. */
  lemma LacksTwo(v: View, bn: nat)
    requires v.Sized() && NDIRECT <= bn < MAXFILE && v.ino.addrs[INDIRECT] == 0
    ensures Data(v, v.inum, bn) == 0 && |Lacks(v, bn, bn + 1)| == 2
  {
    assert Lacks(v, bn, bn + 1) == {DataSlot(bn), INDIRECT} by {
      forall k: nat {:trigger Needs(k, bn, bn + 1)} | k < NSLOTS
        ensures k in Lacks(v, bn, bn + 1) <==> k == DataSlot(bn) || k == INDIRECT
      {
        NeedsOne(bn, k);
      }
    }
  }

  lemma GrownPtrs(v: View, u: View, at: nat, bn: nat)
    requires Grown(v, u, INDIRECT, at) && NDIRECT <= bn < MAXFILE && Data(v, v.inum, bn) == 0
    ensures u.OK({}) && u.inum == v.inum && at != 0
    ensures u.Ptr(u.inum, INDIRECT) == at && u.Ptr(u.inum, DataSlot(bn)) == 0
  {
    assert v.IsSlot(v.inum, INDIRECT) && v.IsSlot(v.inum, DataSlot(bn));
  }

  lemma GrownFree(v: View, w: View, k: nat, b: nat)
    requires Grown(v, w, k, b)
    ensures FreeOf(w) <= FreeOf(v) && |FreeOf(v)| == |FreeOf(w)| + 1 && b in FreeOf(v) - FreeOf(w)
  {
    hide UseBit, View.Ptr, BlocksKept;
    forall x: nat
      ensures x in FreeOf(w) <==> x in FreeOf(v) && x != b
    {
      FreeIs(v, x);
      FreeIs(w, x);
      GrownOwned(v, w, k, b, x);
    }
    FreeIs(v, b);
    GrownIn(v, w, k, b);
    assert FreeOf(v) == FreeOf(w) + {b};
  }

  lemma GrownIn(v: View, w: View, k: nat, b: nat)
    requires Grown(v, w, k, b)
    ensures v.sb.DataStart() <= b < v.sb.size
  {
    assert w.IsSlot(v.inum, k) && w.Ptr(v.inum, k) == b;
  }

  lemma GrownOwned(v: View, w: View, k: nat, b: nat, x: nat)
    requires Grown(v, w, k, b)
    ensures w.Owned(x) <==> v.Owned(x) || x == b
  {
    hide UseBit, View.Ptr, BlocksKept, View.PointersOK, View.NoSharing, View.Conserved;
    assert v.IsSlot(v.inum, k) && w.Ptr(v.inum, k) == b;
    assert forall i, l :: v.IsSlot(i, l) <==> w.IsSlot(i, l);
    if v.Owned(x) {
      var i, l :| v.IsSlot(i, l) && v.Ptr(i, l) == x;
      assert w.Ptr(i, l) == x;
    }
  }

  // ---- what is logged meanwhile ----

  /** The slots that are needed. */
  function Slots(lo: nat, hi: nat): (r: set<nat>) {
    set k: nat | k < NSLOTS && Needs(k, lo, hi)
  }

  /** The blocks that bmap, and a copy behind it, may log: data blocks and indirect block, and the bitmap blocks
      of those newly taken. */
  ghost function MayLog(v: View, w: View, lo: nat, hi: nat): set<nat>
    requires v.Sized() && w.Sized()
  {
    Behind(w, Slots(lo, hi)) + MapsOf(v.sb, FreeOf(v) - FreeOf(w))
  }

  lemma MayLogMore(u: View, v: View, w: View, lo: nat, mid: nat, from: nat, hi: nat)
    requires Filled(u, v, lo, mid) && Filled(v, w, from, hi) && lo <= from <= mid <= hi
    requires FreeOf(w) <= FreeOf(v) <= FreeOf(u)
    ensures MayLog(u, v, lo, mid) + MayLog(v, w, from, hi) <= MayLog(u, w, lo, hi)
  {
    hide View.Ptr, FreeOf;
    forall k: nat
      ensures Needs(k, lo, hi) <==> Needs(k, lo, mid) || Needs(k, from, hi)
    {
    }
    hide Needs;
    forall x | x in MayLog(u, v, lo, mid)
      ensures x in MayLog(u, w, lo, hi)
    {
      if k: nat :| k < NSLOTS && Needs(k, lo, mid) && v.Ptr(v.inum, k) == x {
        assert w.Ptr(w.inum, k) == x && Needs(k, lo, hi);
      } else {
        var b :| b in FreeOf(u) - FreeOf(v) && u.sb.BBlock(b) == x;
        assert b in FreeOf(u) - FreeOf(w);
      }
    }
    forall x | x in MayLog(v, w, from, hi)
      ensures x in MayLog(u, w, lo, hi)
    {
      if k: nat :| k < NSLOTS && Needs(k, from, hi) && w.Ptr(w.inum, k) == x {
        assert Needs(k, lo, hi);
      } else {
        var b :| b in FreeOf(v) - FreeOf(w) && v.sb.BBlock(b) == x;
        assert b in FreeOf(u) - FreeOf(w);
      }
    }
  }

  lemma {:induction false} SlotsSize(lo: nat, hi: nat)
    requires lo <= hi
    ensures |Slots(lo, hi) - {INDIRECT}| <= hi - lo
    decreases hi - lo
  {
    if lo == hi {
      assert Slots(lo, hi) - {INDIRECT} == {};
    } else {
      SlotsSize(lo + 1, hi);
      var k := if lo < NDIRECT then lo else lo + 1;
      var rest := Slots(lo + 1, hi) - {INDIRECT};
      assert Slots(lo, hi) - {INDIRECT} <= rest + {k};
      hide Slots;
      SubsetSize(Slots(lo, hi) - {INDIRECT}, rest + {k});
    }
  }

  lemma UnionSize<T>(a: set<T>, b: set<T>)
    ensures |a + b| <= |a| + |b|
  {
    assert a + b == a + (b - a);
    SubsetSize(b - a, b);
  }

  /** One block for each slot, and one bitmap block for each block taken. */
  lemma MayLogSize(v: View, w: View, lo: nat, hi: nat)
    requires v.OK({}) && w.OK({}) && OthersKept(v, w) && Filled(v, w, lo, hi) && lo <= hi
    ensures |MayLog(v, w, lo, hi)| <= hi - lo + 1 + |Lacks(v, lo, hi)|
  {
    FilledTakes(v, w, lo, hi);
    var taken, slots := FreeOf(v) - FreeOf(w), Slots(lo, hi);
    assert forall k <- slots :: k < NSLOTS;
    hide *;
    assert FreeOf(v) == FreeOf(w) + taken;
    SlotsSize(lo, hi);
    SubsetSize(slots, slots - {INDIRECT} + {INDIRECT});
    UnionSize(slots - {INDIRECT}, {INDIRECT});
    BehindSize(w, slots);
    MapsSize(v.sb, taken);
    UnionSize(Behind(w, slots), MapsOf(v.sb, taken));
    MayLogIs(v, w, lo, hi);
  }

  lemma MayLogIs(v: View, w: View, lo: nat, hi: nat)
    requires v.Sized() && w.Sized()
    ensures MayLog(v, w, lo, hi) == Behind(w, Slots(lo, hi)) + MapsOf(v.sb, FreeOf(v) - FreeOf(w))
  {
  }

  /** What bmap logs for one new block. */
  lemma LogsGrown(v: View, w: View, bn: nat, b: nat)
    requires bn < MAXFILE && Grown(v, w, DataSlot(bn), b)
    ensures {v.sb.BBlock(b), b} <= MayLog(v, w, bn, bn + 1)
    ensures bn >= NDIRECT ==> w.Ptr(w.inum, INDIRECT) in MayLog(v, w, bn, bn + 1)
  {
    hide View.PointersOK, View.NoSharing, View.Conserved, View.Ptr, BlocksKept, FreeOf;
    GrownFree(v, w, DataSlot(bn), b);
    NeedsOne(bn, DataSlot(bn));
    NeedsOne(bn, INDIRECT);
    assert v.IsSlot(v.inum, DataSlot(bn));
    assert DataSlot(bn) in Slots(bn, bn + 1);
  }

  /** And for two. */
  lemma LogsTwice(v: View, u: View, w: View, bn: nat, a: nat, b: nat)
    requires NDIRECT <= bn < MAXFILE && Grown(v, u, INDIRECT, a) && Grown(u, w, DataSlot(bn), b)
    ensures {v.sb.BBlock(a), a, v.sb.BBlock(b), b} <= MayLog(v, w, bn, bn + 1)
  {
    hide View.PointersOK, View.NoSharing, View.Conserved, View.Ptr, BlocksKept, FreeOf;
    GrownFree(v, u, INDIRECT, a);
    GrownFree(u, w, DataSlot(bn), b);
    NeedsOne(bn, DataSlot(bn));
    NeedsOne(bn, INDIRECT);
    assert v.IsSlot(v.inum, INDIRECT) && u.IsSlot(v.inum, DataSlot(bn)) && u.IsSlot(v.inum, INDIRECT);
    assert DataSlot(bn) in Slots(bn, bn + 1) && INDIRECT in Slots(bn, bn + 1);
  }

  lemma SameMayLog(v: View, u: View, w: View, bn: nat)
    requires v.Sized() && u.OK({}) && w.OK({}) && w.sb == u.sb == v.sb && w.inum == u.inum && SamePtrs(u, w)
    requires bn < MAXFILE
    ensures Data(u, u.inum, bn) in MayLog(v, w, bn, bn + 1) && MayLog(v, w, bn, bn + 1) == MayLog(v, u, bn, bn + 1)
  {
    hide View.Ptr, UseBit, View.PointersOK, View.NoSharing;
    assert forall i, k :: u.IsSlot(i, k) <==> w.IsSlot(i, k);
    assert forall k: nat | k < NSLOTS :: u.IsSlot(u.inum, k);
    assert forall x :: w.Owned(x) <==> u.Owned(x);
    assert FreeOf(w) == FreeOf(u);
    NeedsOne(bn, DataSlot(bn));
    assert DataSlot(bn) in Slots(bn, bn + 1);
    assert Behind(w, Slots(bn, bn + 1)) == Behind(u, Slots(bn, bn + 1));
  }
}
