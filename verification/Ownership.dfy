/** Who owns a block. A view is the disk as the current transaction shows it, together with the
    one inode whose in-memory copy may be ahead of the disk. */
module Ownership {
  import opened Words
  import opened Bio
  import opened FsFormat

  /** The fields of the superblock that fs.c uses. */
  datatype Superblock = Superblock(size: nat, ninodes: nat, inodestart: nat, bmapstart: nat) {
    /** IBLOCK(i, sb) */
    function IBlock(i: nat): nat {
      i / IPB + inodestart
    }

    /** BBLOCK(b, sb) */
    function BBlock(b: nat): nat {
      b / BPB + bmapstart
    }

    /** The first block behind the bitmap; mkfs gives the bitmap size / BPB + 1 blocks. */
    function DataStart(): nat {
      bmapstart + size / BPB + 1
    }

    predicate OK() {
      && inodestart + ninodes / IPB + 1 <= bmapstart && DataStart() <= size <= TWO32
    }
  }

  /** The block pointers of an inode: its direct blocks, its indirect block, and the entries
      of the indirect block. */
  const NSLOTS: nat := NADDRS + NINDIRECT
  const INDIRECT: nat := NDIRECT

  /** The slot that holds the bn-th block of a file. */
  function DataSlot(bn: nat): nat
    requires bn < MAXFILE
    ensures DataSlot(bn) < NSLOTS && DataSlot(bn) != INDIRECT
  {
    if bn < NDIRECT then bn else bn + 1
  }

  predicate UseBit(sb: Superblock, blocks: Image, b: nat)
    requires sb.OK() && |blocks| == sb.size && b < sb.size
  {
    MapBit(blocks[sb.BBlock(b)], b % BPB)
  }

  /** `inum` is the inode being worked on, `ino` its in-memory copy. */
  datatype View = View(sb: Superblock, blocks: Image, inum: nat, ino: Dinode) {
    predicate Sized() {
      sb.OK() && |blocks| == sb.size && inum < sb.ninodes
    }

    function InodeOnDisk(i: nat): Dinode
      requires Sized() && i < sb.ninodes
    {
      GetInode(blocks[sb.IBlock(i)], i % IPB)
    }

    function Inode(i: nat): Dinode
      requires Sized() && i < sb.ninodes
    {
      if i == inum then ino else InodeOnDisk(i)
    }

    /** Pointer `k` of inode `i`; 0 if there is none. */
    function Ptr(i: nat, k: nat): nat
      requires Sized() && i < sb.ninodes && k < NSLOTS
    {
      var d := Inode(i);
      if k < NADDRS then d.addrs[k]
      else if d.addrs[INDIRECT] == 0 || d.addrs[INDIRECT] >= |blocks| then 0
      else GetU32(blocks[d.addrs[INDIRECT]], k - NADDRS)
    }

    /** The bit of block `b` in the free map. */
    predicate InUse(b: nat)
      requires Sized() && b < sb.size
    {
      UseBit(sb, blocks, b)
    }

    predicate IsSlot(i: nat, k: nat) {
      i < sb.ninodes && k < NSLOTS
    }

    /** Every pointer leads to a data block that is marked in use. */
    ghost predicate PointersOK()
      requires Sized()
    {
      forall i, k | IsSlot(i, k) && Ptr(i, k) != 0 ::
        sb.DataStart() <= Ptr(i, k) < sb.size && InUse(Ptr(i, k))
    }

    /** No block has two owners. */
    ghost predicate NoSharing()
      requires Sized()
    {
      forall i, k, j, l | IsSlot(i, k) && IsSlot(j, l) && (i, k) != (j, l) && Ptr(i, k) != 0 :: Ptr(i, k) != Ptr(j, l)
    }

    ghost predicate Owned(b: nat)
      requires Sized()
    {
      b != 0 && exists i, k :: IsSlot(i, k) && Ptr(i, k) == b
    }

    /** The bits set in the free map are those of the metadata blocks and of the owned blocks,
        but for the blocks in `extra`. */
    ghost predicate Conserved(extra: set<nat>)
      requires Sized()
    {
      forall b | 0 <= b < sb.size :: InUse(b) <==> b < sb.DataStart() || Owned(b) || b in extra
    }

    /** The ownership invariant; `extra` are blocks just allocated, not linked to an inode yet. */
    ghost predicate OK(extra: set<nat>) {
      && Sized() && PointersOK() && NoSharing() && Conserved(extra)
      && forall b <- extra :: sb.DataStart() <= b < sb.size && !Owned(b)
    }
  }

  // ---- what a block write does to pointers and bits ----

  /** The same pointers, and the same bits but perhaps one. */
  ghost predicate SamePtrs(v: View, w: View)
    requires v.Sized() && w.Sized() && v.sb == w.sb
  {
    forall i: nat, k: nat | v.IsSlot(i, k) :: w.Ptr(i, k) == v.Ptr(i, k)
  }

  function WithBlock(v: View, b: nat, data: Block): View
    requires b < |v.blocks|
  {
    v.(blocks := v.blocks[b := data])
  }

  /** Blocks of the three kinds of metadata do not overlap. */
  lemma MetadataApart(v: View, i: nat, b: nat)
    requires v.Sized() && i < v.sb.ninodes && b < v.sb.size
    ensures v.sb.IBlock(i) < v.sb.bmapstart <= v.sb.BBlock(b) < v.sb.DataStart() <= |v.blocks|
  {
  }

  /** Changing one bit of the free map. */
  lemma BitWrite(v: View, b: nat, val: bool)
    requires v.Sized() && v.PointersOK() && b < v.sb.size
    ensures v.sb.BBlock(b) < |v.blocks|
    ensures var w := WithBlock(v, v.sb.BBlock(b), WithMapBit(v.blocks[v.sb.BBlock(b)], b % BPB, val));
            && w.Sized() && SamePtrs(v, w)
            && forall x | 0 <= x < v.sb.size :: w.InUse(x) == if x == b then val else v.InUse(x)
  {
    MetadataApart(v, v.inum, b);
    var w := WithBlock(v, v.sb.BBlock(b), WithMapBit(v.blocks[v.sb.BBlock(b)], b % BPB, val));
    forall i: nat, k: nat | v.IsSlot(i, k)
      ensures w.Ptr(i, k) == v.Ptr(i, k)
    {
      MetadataApart(v, i, b);
      assert v.IsSlot(i, INDIRECT);
    }
    forall x | 0 <= x < v.sb.size
      ensures w.InUse(x) == if x == b then val else v.InUse(x)
    {
      MetadataApart(v, v.inum, x);
      if v.sb.BBlock(x) == v.sb.BBlock(b) {
        MapBitUpdate(v.blocks[v.sb.BBlock(b)], b % BPB, val, x % BPB);
      }
    }
  }

  /** Changing a data block that is nobody's indirect block. */
  lemma DataWrite(v: View, b: nat, data: Block)
    requires v.Sized() && v.sb.DataStart() <= b < |v.blocks|
    requires forall i | v.IsSlot(i, INDIRECT) :: v.Ptr(i, INDIRECT) != b
    ensures var w := WithBlock(v, b, data);
            w.Sized() && SamePtrs(v, w) && forall x | 0 <= x < v.sb.size :: w.InUse(x) == v.InUse(x)
  {
    var w := WithBlock(v, b, data);
    forall i: nat, k: nat | v.IsSlot(i, k)
      ensures w.Ptr(i, k) == v.Ptr(i, k)
    {
      MetadataApart(v, i, 0);
      assert v.IsSlot(i, INDIRECT);
    }
    forall x | 0 <= x < v.sb.size
      ensures w.InUse(x) == v.InUse(x)
    {
      MetadataApart(v, v.inum, x);
    }
  }

  /** Writing the in-memory inode to its slot (iupdate). */
  lemma InodeWrite(v: View)
    requires v.Sized() && v.PointersOK()
    ensures v.sb.IBlock(v.inum) < |v.blocks|
    ensures var w := WithBlock(v, v.sb.IBlock(v.inum), PutInode(v.blocks[v.sb.IBlock(v.inum)], v.inum % IPB, v.ino));
            && w.Sized() && SamePtrs(v, w) && w.InodeOnDisk(v.inum) == v.ino
            && (forall i: nat | i < v.sb.ninodes :: w.Inode(i) == v.Inode(i))
            && (forall i: nat | i < v.sb.ninodes && i != v.inum :: w.InodeOnDisk(i) == v.InodeOnDisk(i))
            && forall x | 0 <= x < v.sb.size :: w.InUse(x) == v.InUse(x)
  {
    InodeWriteInodes(v);
    hide PutInode, GetInode;
    var w := WithBlock(v, v.sb.IBlock(v.inum), PutInode(v.blocks[v.sb.IBlock(v.inum)], v.inum % IPB, v.ino));
    MetadataApart(v, v.inum, 0);
    forall i: nat, k: nat | v.IsSlot(i, k)
      ensures w.Ptr(i, k) == v.Ptr(i, k)
    {
      assert w.Inode(i) == v.Inode(i);
      assert v.IsSlot(i, INDIRECT);
    }
    forall x | 0 <= x < v.sb.size
      ensures w.InUse(x) == v.InUse(x)
    {
      MetadataApart(v, v.inum, x);
    }
  }

  lemma InodeWriteInodes(v: View)
    requires v.Sized()
    ensures v.sb.IBlock(v.inum) < |v.blocks|
    ensures var w := WithBlock(v, v.sb.IBlock(v.inum), PutInode(v.blocks[v.sb.IBlock(v.inum)], v.inum % IPB, v.ino));
            && w.Sized() && w.InodeOnDisk(v.inum) == v.ino
            && (forall i: nat | i < v.sb.ninodes :: w.Inode(i) == v.Inode(i))
            && (forall i: nat | i < v.sb.ninodes && i != v.inum :: w.InodeOnDisk(i) == v.InodeOnDisk(i))
  {
    hide PutInode, GetInode;
    var at := v.sb.IBlock(v.inum);
    MetadataApart(v, v.inum, 0);
    var w := WithBlock(v, at, PutInode(v.blocks[at], v.inum % IPB, v.ino));
    InodeRoundTrip(v.blocks[at], v.inum % IPB, v.ino, v.inum % IPB);
    forall i: nat | i < v.sb.ninodes && i != v.inum
      ensures w.InodeOnDisk(i) == v.InodeOnDisk(i)
    {
      MetadataApart(v, i, 0);
      if v.sb.IBlock(i) == at {
        InodeRoundTrip(v.blocks[at], v.inum % IPB, v.ino, i % IPB);
      }
    }
  }

  /** Changing entry `j` of the indirect block of the current inode. */
  lemma IndirectWrite(v: View, j: nat, p: uint32)
    requires v.Sized() && v.PointersOK() && v.NoSharing() && j < NINDIRECT && v.ino.addrs[INDIRECT] != 0
    ensures v.ino.addrs[INDIRECT] < |v.blocks|
    ensures var at := v.ino.addrs[INDIRECT]; var w := WithBlock(v, at, PutU32(v.blocks[at], j, p));
            && w.Sized() && (forall x | 0 <= x < v.sb.size :: w.InUse(x) == v.InUse(x))
            && forall i: nat, k: nat | v.IsSlot(i, k) :: w.Ptr(i, k) == if i == v.inum
               && k == NADDRS + j then p else v.Ptr(i, k)
  {
    assert v.IsSlot(v.inum, INDIRECT) && v.Ptr(v.inum, INDIRECT) == v.ino.addrs[INDIRECT];
    var at := v.ino.addrs[INDIRECT];
    var w := WithBlock(v, at, PutU32(v.blocks[at], j, p));
    forall i: nat, k: nat | v.IsSlot(i, k)
      ensures w.Ptr(i, k) == if i == v.inum && k == NADDRS + j then p else v.Ptr(i, k)
    {
      MetadataApart(v, i, 0);
      assert v.IsSlot(i, INDIRECT);
      assert w.Inode(i) == v.Inode(i);
      if i == v.inum && k >= NADDRS {
        PutGetU32(v.blocks[at], j, p, k - NADDRS);
      } else if i != v.inum {
        assert (i, INDIRECT) != (v.inum, INDIRECT);
      }
    }
    forall x | 0 <= x < v.sb.size
      ensures w.InUse(x) == v.InUse(x)
    {
      MetadataApart(v, v.inum, x);
    }
  }

  /** Changing pointer `k` in the in-memory inode; a new indirect block must be all zeroes. */
  lemma AddrChange(v: View, k: nat, p: uint32)
    requires v.Sized() && k < NADDRS
    requires k == INDIRECT ==>
      && v.ino.addrs[INDIRECT] == 0
      && p < |v.blocks| && forall j | 0 <= j < NINDIRECT :: GetU32(v.blocks[p], j) == 0
    ensures var w := v.(ino := v.ino.(addrs := v.ino.addrs[k := p]));
            && w.Sized() && (forall x | 0 <= x < v.sb.size :: w.InUse(x) == v.InUse(x))
            && forall i: nat, l: nat | v.IsSlot(i, l) :: w.Ptr(i, l) == if i == v.inum && l == k then p else v.Ptr(i, l)
  {
  }

  // ---- ownership ----

  /** A view with other bits and pointers is still sound if the changes match. */
  lemma SetPtrKeepsOK(v: View, w: View, k: nat, b: nat, extra: set<nat>)
    requires v.OK(extra) && b in extra && k < NSLOTS && v.Ptr(v.inum, k) == 0
    requires w.Sized() && w.sb == v.sb && w.inum == v.inum
    requires forall i: nat, l: nat | v.IsSlot(i, l) :: w.Ptr(i, l) == if i == v.inum && l == k then b else v.Ptr(i, l)
    requires forall x | 0 <= x < v.sb.size :: w.InUse(x) == v.InUse(x)
    ensures w.OK(extra - {b})
  {
    assert v.IsSlot(v.inum, k) && w.IsSlot(v.inum, k);
    assert forall i, l :: w.IsSlot(i, l) <==> v.IsSlot(i, l);
    forall x | 0 <= x < v.sb.size
      ensures w.InUse(x) <==> x < w.sb.DataStart() || w.Owned(x) || x in extra - {b}
    {
      if x == b {
        assert w.Ptr(v.inum, k) == b;
      } else if v.Owned(x) {
        var i, l :| v.IsSlot(i, l) && v.Ptr(i, l) == x;
        assert w.Ptr(i, l) == x;
      }
    }
  }

  lemma SamePtrsKeepsOK(v: View, w: View, extra: set<nat>, extra': set<nat>)
    requires v.OK(extra) && w.Sized() && w.sb == v.sb && SamePtrs(v, w)
    requires forall x | 0 <= x < v.sb.size ::
        w.InUse(x) <==> if x in extra' - extra then true else if x in extra - extra' then false else v.InUse(x)
    requires forall x <- extra' :: v.sb.DataStart() <= x < v.sb.size && !v.Owned(x)
    ensures w.OK(extra')
  {
    assert forall i, l :: w.IsSlot(i, l) <==> v.IsSlot(i, l);
    assert forall x :: w.Owned(x) <==> v.Owned(x);
  }

  // ---- growing a file by one pointer ----

  /** Block `x` is as it was, as far as the files are concerned: `changed` may differ. */
  ghost predicate BlocksKept(v: View, w: View, changed: set<nat>) {
    && |w.blocks| == |v.blocks|
    && (forall x | 0 <= x < |v.blocks| && v.sb.DataStart() <= x && x !in changed :: w.blocks[x] == v.blocks[x])
    && (forall x | 0 <= x < |v.blocks| && x < v.sb.bmapstart :: w.blocks[x] == v.blocks[x])
  }

  /** The blocks after balloc marked and zeroed block `b`. */
  function Alloc(v: View, b: nat): View
    requires v.Sized() && b < v.sb.size && v.sb.BBlock(b) < |v.blocks|
  {
    v.(blocks := v.blocks[v.sb.BBlock(b) := WithMapBit(v.blocks[v.sb.BBlock(b)], b % BPB, true)][b := ZeroBlock()])
  }

  /** balloc hands out a block that nobody owns, and touches no other data. */
  lemma AllocKeepsOK(v: View, b: nat)
    requires v.OK({}) && b < v.sb.size && !v.InUse(b)
    ensures v.sb.BBlock(b) < |v.blocks| && b != 0 && !v.Owned(b)
    ensures Alloc(v, b).OK({b}) && SamePtrs(v, Alloc(v, b)) && BlocksKept(v, Alloc(v, b), {b})
    ensures Alloc(v, b) == v.(blocks := Alloc(v, b).blocks) && Alloc(v, b).blocks[b] == ZeroBlock()
  {
    MetadataApart(v, v.inum, b);
    BitWrite(v, b, true);
    var u := WithBlock(v, v.sb.BBlock(b), WithMapBit(v.blocks[v.sb.BBlock(b)], b % BPB, true));
    forall i: nat | u.IsSlot(i, INDIRECT)
      ensures u.Ptr(i, INDIRECT) != b
    {
      assert v.IsSlot(i, INDIRECT);
      assert u.Ptr(i, INDIRECT) == v.Ptr(i, INDIRECT);
    }
    DataWrite(u, b, ZeroBlock());
    assert Alloc(v, b) == WithBlock(u, b, ZeroBlock());
    SamePtrsKeepsOK(v, Alloc(v, b), {}, {b});
  }

  /** A free block is a data block. */
  lemma FreeIsData(v: View, b: nat)
    requires v.OK({}) && b < v.sb.size && !v.InUse(b)
    ensures v.sb.inodestart < v.sb.DataStart() <= b
  {
  }

  /** From `v` to `w` the current inode gained pointer `k` to the fresh block `b`. */
  ghost predicate Grown(v: View, w: View, k: nat, b: nat) {
    && v.OK({}) && w.OK({}) && w.sb == v.sb && w.inum == v.inum && k < NSLOTS
    && v.Ptr(v.inum, k) == 0 && b != 0 && !v.Owned(b)
    && (forall i: nat, l: nat | v.IsSlot(i, l) :: w.Ptr(i, l) == if i == v.inum && l == k then b else v.Ptr(i, l))
    && BlocksKept(v, w, if k < NADDRS then {b} else {b} + {v.Ptr(v.inum, INDIRECT)})
    && b < |w.blocks| && w.blocks[b] == ZeroBlock()
    && w.ino == v.ino.(addrs := w.ino.addrs)
  }

  /** A new direct or indirect block. */
  lemma GrowAddr(v: View, k: nat, b: uint32)
    requires v.OK({}) && b < v.sb.size && !v.InUse(b) && k < NADDRS && v.ino.addrs[k] == 0
    ensures v.sb.BBlock(b) < |v.blocks|
    ensures Grown(v, Alloc(v, b).(ino := v.ino.(addrs := v.ino.addrs[k := b])), k, b)
  {
    AllocKeepsOK(v, b);
    var u := Alloc(v, b);
    assert v.IsSlot(v.inum, k) && v.IsSlot(v.inum, INDIRECT);
    forall j | 0 <= j < NINDIRECT
      ensures GetU32(u.blocks[b], j) == 0
    {
      ZeroBlockWords(j);
    }
    AddrChange(u, k, b);
    hide GetU32, Alloc;
    SetPtrKeepsOK(u, u.(ino := v.ino.(addrs := v.ino.addrs[k := b])), k, b, {b});
    assert {b} - {b} == {};
  }

  /** A new block behind the indirect block. */
  lemma GrowIndirect(v: View, j: nat, b: uint32)
    requires v.OK({}) && b < v.sb.size && !v.InUse(b) && j < NINDIRECT
    requires v.Ptr(v.inum, INDIRECT) != 0 && v.Ptr(v.inum, NADDRS + j) == 0
    ensures v.sb.BBlock(b) < |v.blocks|
    ensures var at, u := v.Ptr(v.inum, INDIRECT), Alloc(v, b);
            && at < |v.blocks| && u.blocks[at] == v.blocks[at] && at != b
            && Grown(v, WithBlock(u, at, PutU32(v.blocks[at], j, b)), NADDRS + j, b)
  {
    hide GetU32, PutU32, GetInode, UseBit, View.PointersOK, View.NoSharing, View.Conserved, Alloc;
    AllocKeepsOK(v, b);
    var at, u := v.Ptr(v.inum, INDIRECT), Alloc(v, b);
    assert v.IsSlot(v.inum, INDIRECT) && v.IsSlot(v.inum, NADDRS + j);
    IndirectIsData(v);
    LinkIndirect(u, j, b);
    KeptAfterWrite(v, u, {b}, at, PutU32(v.blocks[at], j, b));
    hide View.Ptr, View.OK, BlocksKept, View.Owned;
  }

  lemma KeptAfterWrite(v: View, u: View, changed: set<nat>, at: nat, data: Block)
    requires BlocksKept(v, u, changed) && v.sb.OK() && v.sb.DataStart() <= at < |v.blocks|
    ensures BlocksKept(v, WithBlock(u, at, data), changed + {at})
  {
  }

  lemma IndirectIsData(v: View)
    requires v.OK({}) && v.Ptr(v.inum, INDIRECT) != 0
    ensures v.sb.DataStart() <= v.Ptr(v.inum, INDIRECT) < |v.blocks| && v.Owned(v.Ptr(v.inum, INDIRECT))
  {
    assert v.IsSlot(v.inum, INDIRECT);
  }

  /** Storing a fresh block's number in the indirect block. */
  lemma LinkIndirect(u: View, j: nat, b: uint32)
    requires u.OK({b}) && j < NINDIRECT && u.Ptr(u.inum, INDIRECT) != 0 && u.Ptr(u.inum, NADDRS + j) == 0
    ensures u.Ptr(u.inum, INDIRECT) < |u.blocks|
    ensures var at := u.Ptr(u.inum, INDIRECT); var w := WithBlock(u, at, PutU32(u.blocks[at], j, b));
            && w.OK({})
            && forall i: nat, l: nat | u.IsSlot(i, l) :: w.Ptr(i, l) == if i == u.inum
               && l == NADDRS + j then b else u.Ptr(i, l)
  {
    hide GetU32, PutU32, GetInode, UseBit;
    IndirectWrite(u, j, b);
    var at := u.Ptr(u.inum, INDIRECT);
    assert {b} - {b} == {};
    SetPtrKeepsOK(u, WithBlock(u, at, PutU32(u.blocks[at], j, b)), NADDRS + j, b, {b});
  }

  // ---- what an operation on one inode leaves alone ----

  /** The other inodes: same pointers, same inodes on disk, same contents of their blocks. */
  ghost predicate OthersKept(v: View, w: View) {
    && v.Sized() && w.Sized() && w.sb == v.sb && w.inum == v.inum
    && (forall i: nat | i < v.sb.ninodes && i != v.inum :: w.InodeOnDisk(i) == v.InodeOnDisk(i))
    && (forall i: nat, k: nat | v.IsSlot(i, k) && i != v.inum ::
          && w.Ptr(i, k) == v.Ptr(i, k)
          && (0 < v.Ptr(i, k) < |v.blocks| ==> w.blocks[v.Ptr(i, k)] == v.blocks[v.Ptr(i, k)]))
  }

  lemma OthersKeptTrans(u: View, v: View, w: View)
    requires OthersKept(u, v) && OthersKept(v, w)
    ensures OthersKept(u, w)
  {
  }

  lemma GrownKeepsOthers(v: View, w: View, k: nat, b: nat)
    requires Grown(v, w, k, b)
    ensures OthersKept(v, w)
    ensures w.InodeOnDisk(v.inum) == v.InodeOnDisk(v.inum)
  {
    forall i: nat | i < v.sb.ninodes
      ensures w.InodeOnDisk(i) == v.InodeOnDisk(i)
    {
      MetadataApart(v, i, 0);
    }
    forall i: nat, l: nat | v.IsSlot(i, l) && i != v.inum
      ensures 0 < v.Ptr(i, l) < |v.blocks| ==> w.blocks[v.Ptr(i, l)] == v.blocks[v.Ptr(i, l)]
    {
      if 0 < v.Ptr(i, l) {
        assert v.IsSlot(v.inum, INDIRECT);
        assert v.Owned(v.Ptr(i, l));
        assert (i, l) != (v.inum, INDIRECT);
      }
    }
  }

  // ---- block maps ----

  /** The pointer to the bn-th block of file `i`. */
  function Data(v: View, i: nat, bn: nat): nat
    requires v.Sized() && i < v.sb.ninodes && bn < MAXFILE
  {
    v.Ptr(i, DataSlot(bn))
  }

  /** A slot of the current inode that `v` uses keeps its block, and the block its contents
      (the indirect block may gain an entry). */
  ghost predicate SlotKept(v: View, w: View, k: nat)
    requires v.OK({}) && w.OK({}) && w.sb == v.sb && w.inum == v.inum && k < NSLOTS
  {
    v.Ptr(v.inum, k) != 0 ==>
      w.Ptr(v.inum, k) == v.Ptr(v.inum, k) < |v.blocks|
      && (k != INDIRECT ==> w.blocks[v.Ptr(v.inum, k)] == v.blocks[v.Ptr(v.inum, k)])
  }

  /** What bmap promises when it returns `addr` for block `bn`: the file has that block now, a new
      block is all zeroes, and every other pointer, block and inode is as before. */
  ghost predicate Mapped(v: View, w: View, bn: nat, addr: nat) {
    && bn < MAXFILE && v.OK({}) && w.OK({}) && OthersKept(v, w)
    && w.InodeOnDisk(v.inum) == v.InodeOnDisk(v.inum)
    && w.ino == v.ino.(addrs := w.ino.addrs)
    && addr == Data(w, w.inum, bn) && v.sb.DataStart() <= addr < |w.blocks|
    && (forall k | 0 <= k < NSLOTS :: SlotKept(v, w, k))
    && (forall k | 0 <= k < NSLOTS && v.Ptr(v.inum, k) == 0 && k != DataSlot(bn) && !(k == INDIRECT && bn >= NDIRECT) ::
          w.Ptr(v.inum, k) == 0)
    && (bn >= NDIRECT ==> w.Ptr(v.inum, INDIRECT) != 0)
    && (if Data(v, v.inum, bn) == 0 then w.blocks[addr] == ZeroBlock() else w == v)
  }

  lemma GrownKeepsSlots(v: View, w: View, k: nat, b: nat)
    requires Grown(v, w, k, b)
    ensures forall l | 0 <= l < NSLOTS :: SlotKept(v, w, l)
  {
    forall l | 0 <= l < NSLOTS && v.Ptr(v.inum, l) != 0
      ensures w.Ptr(v.inum, l) == v.Ptr(v.inum, l) < |v.blocks|
      ensures l != INDIRECT ==> w.blocks[v.Ptr(v.inum, l)] == v.blocks[v.Ptr(v.inum, l)]
    {
      assert v.IsSlot(v.inum, l) && v.IsSlot(v.inum, INDIRECT);
      assert v.Owned(v.Ptr(v.inum, l));
    }
  }

  lemma MappedAlready(v: View, bn: nat)
    requires v.OK({}) && bn < MAXFILE && Data(v, v.inum, bn) != 0
    ensures Mapped(v, v, bn, Data(v, v.inum, bn))
  {
    assert v.IsSlot(v.inum, DataSlot(bn));
    forall k: nat | k < NSLOTS && v.Ptr(v.inum, k) != 0
      ensures v.Ptr(v.inum, k) < |v.blocks|
    {
      assert v.IsSlot(v.inum, k);
    }
  }

  lemma MappedByOne(v: View, w: View, bn: nat, b: nat)
    requires bn < MAXFILE && Grown(v, w, DataSlot(bn), b) && (bn >= NDIRECT ==> v.Ptr(v.inum, INDIRECT) != 0)
    ensures Mapped(v, w, bn, b)
  {
    GrownKeepsOthers(v, w, DataSlot(bn), b);
    GrownKeepsSlots(v, w, DataSlot(bn), b);
    assert forall k | 0 <= k < NSLOTS :: v.IsSlot(v.inum, k) && w.IsSlot(v.inum, k);
    hide SlotKept, OthersKept, BlocksKept;
  }

  lemma SlotKeptTrans(v: View, u: View, w: View, k: nat)
    requires v.OK({}) && u.OK({}) && w.OK({}) && u.sb == v.sb && w.sb == v.sb && u.inum == v.inum
        && w.inum == v.inum && k < NSLOTS
    requires SlotKept(v, u, k) && SlotKept(u, w, k)
    ensures SlotKept(v, w, k)
  {
    hide View.PointersOK, View.NoSharing, View.Conserved, View.Ptr;
  }

  lemma SlotRange(w: View, i: nat, k: nat)
    requires w.OK({}) && w.IsSlot(i, k)
    ensures w.Ptr(i, k) != 0 ==> w.sb.DataStart() <= w.Ptr(i, k) < |w.blocks|
  {
  }

  lemma MappedByTwo(v: View, u: View, w: View, bn: nat, a: nat, b: nat)
    requires NDIRECT <= bn < MAXFILE && Grown(v, u, INDIRECT, a) && Grown(u, w, DataSlot(bn), b)
    ensures Mapped(v, w, bn, b)
  {
    hide OthersKept, BlocksKept, SlotKept, View.PointersOK, View.NoSharing, View.Conserved, View.Ptr, View.InodeOnDisk;
    GrownKeepsOthers(v, u, INDIRECT, a);
    GrownKeepsOthers(u, w, DataSlot(bn), b);
    OthersKeptTrans(v, u, w);
    GrownKeepsSlots(v, u, INDIRECT, a);
    GrownKeepsSlots(u, w, DataSlot(bn), b);
    SlotRange(w, w.inum, DataSlot(bn));
    forall k: nat | k < NSLOTS
      ensures SlotKept(v, w, k)
    {
      SlotKeptTrans(v, u, w, k);
    }
    assert forall k | 0 <= k < NSLOTS :: v.IsSlot(v.inum, k) && u.IsSlot(v.inum, k) && w.IsSlot(v.inum, k);
  }
}
