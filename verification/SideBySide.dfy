/** Operations of the file system (fs.c) that run side by side: the disk as the cache shows it, the inodes as they are
    in memory, and what each operation has in hand between two log_writes. */
module SideBySide {
  import opened Words
  import opened Bio
  import opened LogFormat
  import opened FsFormat
  import opened Ownership

  type OpId = nat

  /** A block that balloc has marked for an operation, and that no inode points to yet. */
  datatype Pending = Pending(op: OpId, zeroed: bool)

  /** `inos` are the inodes in memory; `busy` says which operation works on one. Of an inode that itrunc empties,
      the entries of the indirect block in `gone` do not count any more. */
  datatype Sys = Sys(sb: Superblock, blocks: Image, inos: seq<Dinode>, busy: map<nat, OpId>, pend: map<nat, Pending>,
                     gone: set<(nat, nat)>) {
    predicate Sized() {
      sb.OK() && |blocks| == sb.size && |inos| == sb.ninodes
    }

    function OnDisk(i: nat): Dinode
      requires Sized() && i < sb.ninodes
    {
      GetInode(blocks[sb.IBlock(i)], i % IPB)
    }

    predicate IsSlot(i: nat, k: nat) {
      i < sb.ninodes && k < NSLOTS
    }

    /** Pointer `k` of inode `i`; 0 if there is none. */
    function Ptr(i: nat, k: nat): nat
      requires Sized() && IsSlot(i, k)
    {
      var p := inos[i].addrs;
      if k < NADDRS then p[k]
      else if (i, k) in gone || p[INDIRECT] == 0 || p[INDIRECT] >= |blocks| then 0
      else GetU32(blocks[p[INDIRECT]], k - NADDRS)
    }

    predicate InUse(b: nat)
      requires Sized() && b < sb.size
    {
      UseBit(sb, blocks, b)
    }

    ghost predicate PointersOK()
      requires Sized()
    {
      forall i, k | IsSlot(i, k) && Ptr(i, k) != 0 :: sb.DataStart() <= Ptr(i, k) < sb.size && InUse(Ptr(i, k))
    }

    ghost predicate NoSharing()
      requires Sized()
    {
      forall i, k, j, l | IsSlot(i, k) && IsSlot(j, l) && (i, k) != (j, l) && Ptr(i, k) != 0 :: Ptr(i, k) != Ptr(j, l)
    }

    ghost predicate Owned(b: nat)
      requires Sized()
    {
      b != 0 && exists i, k :: IsSlot(i, k) && Ptr(i, k) == b
    }

    ghost predicate Conserved()
      requires Sized()
    {
      forall b | 0 <= b < sb.size :: InUse(b) <==> b < sb.DataStart() || Owned(b) || b in pend
    }

    ghost predicate PendingOK()
      requires Sized()
    {
      forall b <- pend ::
        sb.DataStart() <= b < sb.size && !Owned(b) && (pend[b].zeroed ==> blocks[b] == ZeroBlock())
    }

    /** Inode `i` is on disk as it is in memory. */
    ghost predicate Rest(i: nat)
      requires Sized() && i < sb.ninodes
    {
      inos[i] == OnDisk(i) && forall k :: (i, k) !in gone
    }

    /** Every block is free, or owned once, or in the hands of one operation; and who does not work on an inode
        finds it on disk. */
    ghost predicate OK() {
      && Sized() && PointersOK() && NoSharing() && Conserved() && PendingOK()
      && (forall i, k | (i, k) in gone :: IsSlot(i, k) && k >= NADDRS && inos[i].addrs[INDIRECT] != 0)
      && forall i: nat | i < sb.ninodes && i !in busy :: Rest(i)
    }

    /** The operation may work on inode `i`: nobody else does. */
    ghost predicate CanUse(op: OpId, i: nat) {
      Sized() && i < sb.ninodes && (i !in busy || busy[i] == op || Rest(i))
    }

    ghost predicate Has(op: OpId, b: nat) {
      b in pend && pend[b] == Pending(op, true)
    }
  }

  // ---- what an operation does from one log_write to the next ----

  /** One log_write, with what goes along with it in memory. */
  datatype Action =
    | Mark(b: nat)                        // balloc sets a bit
    | Zero(b: nat)                        // bzero
    | Entry(i: nat, k: nat, b: nat)       // bmap links a block behind the indirect block
    | Data(i: nat, k: nat, data: Block)   // writei
    | Iupdate(i: nat, d: Dinode)          // iupdate, with new fields but the same pointers
    | Free(i: nat, k: nat)                // itrunc frees a block, and drops the pointer

  /** bmap puts a block that balloc has zeroed into the inode in memory. */
  datatype Link = NoLink | Link(i: nat, k: nat, b: nat)

  ghost predicate MayLink(s: Sys, op: OpId, x: Link) {
    s.OK() && match x
      case NoLink => true
      case Link(i, k, b) => s.CanUse(op, i) && k < NADDRS && s.inos[i].addrs[k] == 0 && s.Has(op, b)
  }

  ghost function WithLink(s: Sys, op: OpId, x: Link): Sys
    requires MayLink(s, op, x)
  {
    match x
    case NoLink => s
    case Link(i, k, b) =>
      s.(inos := s.inos[i := s.inos[i].(addrs := s.inos[i].addrs[k := b])], busy := s.busy[i := op],
         pend := s.pend - {b})
  }

  ghost predicate May(s: Sys, op: OpId, a: Action) {
    s.OK() && match a
      case Mark(b) => b < s.sb.size && !s.InUse(b)
      case Zero(b) => b in s.pend && s.pend[b].op == op
      case Entry(i, k, b) =>
        && s.CanUse(op, i) && s.IsSlot(i, k) && k >= NADDRS && s.inos[i].addrs[INDIRECT] != 0
        && s.Ptr(i, k) == 0 && (i, k) !in s.gone && s.Has(op, b)
      case Data(i, k, data) => s.CanUse(op, i) && s.IsSlot(i, k) && k != INDIRECT && s.Ptr(i, k) != 0
      case Iupdate(i, d) => s.CanUse(op, i) && d.addrs == s.inos[i].addrs
      case Free(i, k) =>
        && s.CanUse(op, i) && s.IsSlot(i, k) && s.Ptr(i, k) != 0
        && (k == INDIRECT ==> forall l | NADDRS <= l < NSLOTS :: s.Ptr(i, l) == 0)
  }

  ghost function BlockOf(s: Sys, op: OpId, a: Action): (at: nat)
    requires May(s, op, a)
  {
    match a
    case Mark(b) => s.sb.BBlock(b)
    case Zero(b) => b
    case Entry(i, k, b) => s.inos[i].addrs[INDIRECT]
    case Data(i, k, data) => s.Ptr(i, k)
    case Iupdate(i, d) => s.sb.IBlock(i)
    case Free(i, k) => s.sb.BBlock(s.Ptr(i, k))
  }

  lemma InodeBlock(sb: Superblock, i: nat)
    requires sb.OK() && i < sb.ninodes
    ensures sb.inodestart <= sb.IBlock(i) < sb.bmapstart < sb.DataStart() <= sb.size
  {
  }

  lemma MapBlock(sb: Superblock, b: nat)
    requires sb.OK() && b < sb.size
    ensures sb.inodestart <= sb.bmapstart <= sb.BBlock(b) < sb.DataStart() <= sb.size <= TWO32
  {
  }

  /** It is no block of the boot block, the superblock or the log. */
  lemma BlockInRange(s: Sys, op: OpId, a: Action)
    requires May(s, op, a)
    ensures s.sb.inodestart <= BlockOf(s, op, a) < |s.blocks|
    ensures a.Mark? || a.Free? ==> s.sb.bmapstart <= BlockOf(s, op, a) < s.sb.DataStart()
    ensures a.Iupdate? ==> BlockOf(s, op, a) < s.sb.bmapstart
    ensures a.Zero? || a.Entry? || a.Data? ==> s.sb.DataStart() <= BlockOf(s, op, a)
    ensures a.Entry? ==> BlockOf(s, op, a) == s.Ptr(a.i, INDIRECT)
    ensures a.Free? ==> s.sb.DataStart() <= s.Ptr(a.i, a.k) < s.sb.size
  {
    hide Superblock.OK, Superblock.IBlock, Superblock.BBlock, Superblock.DataStart, GetInode, UseBit, Sys.Ptr,
        Sys.NoSharing, Sys.Conserved, Sys.Owned, Sys.InUse;
    if a.Mark? {
      MapBlock(s.sb, a.b);
    } else if a.Iupdate? {
      InodeBlock(s.sb, a.i);
    } else {
      MapBlock(s.sb, 0);
      if a.Entry? {
        OwnAddr(s, a.i, INDIRECT);
      } else if a.Free? {
        MapBlock(s.sb, s.Ptr(a.i, a.k));
      }
    }
  }

  lemma OwnAddr(s: Sys, i: nat, k: nat)
    requires s.Sized() && i < s.sb.ninodes && k < NADDRS
    ensures s.IsSlot(i, k) && s.Ptr(i, k) == s.inos[i].addrs[k]
  {
  }

  ghost function DataOf(s: Sys, op: OpId, a: Action): Block
    requires May(s, op, a)
  {
    BlockInRange(s, op, a);
    var x := s.blocks[BlockOf(s, op, a)];
    match a
    case Mark(b) => WithMapBit(x, b % BPB, true)
    case Zero(b) => ZeroBlock()
    case Entry(i, k, b) => PutU32(x, k - NADDRS, b)
    case Data(i, k, data) => data
    case Iupdate(i, d) => PutInode(x, i % IPB, d)
    case Free(i, k) => WithMapBit(x, s.Ptr(i, k) % BPB, false)
  }

  ghost function Do(s: Sys, op: OpId, a: Action): Sys
    requires May(s, op, a)
  {
    BlockInRange(s, op, a);
    var t := s.(blocks := s.blocks[BlockOf(s, op, a) := DataOf(s, op, a)]);
    match a
    case Mark(b) => t.(pend := s.pend[b := Pending(op, false)])
    case Zero(b) => t.(pend := s.pend[b := Pending(op, true)])
    case Entry(i, k, b) => t.(pend := s.pend - {b}, busy := s.busy[i := op])
    case Data(i, k, data) => t.(busy := s.busy[i := op])
    case Iupdate(i, d) => t.(inos := s.inos[i := d], busy := s.busy[i := op])
    case Free(i, k) =>
      if k >= NADDRS then t.(gone := s.gone + {(i, k)}, busy := s.busy[i := op])
      else t.(inos := s.inos[i := s.inos[i].(addrs := s.inos[i].addrs[k := 0])], busy := s.busy[i := op],
              gone := if k == INDIRECT then set x | x in s.gone && x.0 != i else s.gone)
  }

  // ---- that it keeps everything sound ----

  /** The slots, and the bits, but for one slot and one bit. */
  ghost predicate Slots(s: Sys, t: Sys, i: nat, k: nat, p: nat) {
    && s.Sized() && t.Sized() && t.sb == s.sb
    && forall j: nat, l: nat | s.IsSlot(j, l) :: t.Ptr(j, l) == if (j, l) == (i, k) then p else s.Ptr(j, l)
  }

  ghost predicate Bits(s: Sys, t: Sys, b: nat, v: bool) {
    && s.Sized() && t.Sized() && t.sb == s.sb
    && forall x: nat | x < s.sb.size :: t.InUse(x) == if x == b then v else s.InUse(x)
  }

  ghost predicate NoSlot(s: Sys, t: Sys) {
    Slots(s, t, s.sb.ninodes, 0, 0)
  }

  ghost predicate NoBit(s: Sys, t: Sys) {
    Bits(s, t, s.sb.size, false)
  }

  ghost predicate Core(s: Sys) {
    && s.Sized() && s.PointersOK() && s.NoSharing() && s.Conserved()
    && forall b <- s.pend :: s.sb.DataStart() <= b < s.sb.size && !s.Owned(b)
  }

  /** A block is marked, or nothing changes. */
  lemma CoreMarked(s: Sys, t: Sys, b: nat)
    requires Core(s) && NoSlot(s, t) && b < s.sb.size && Bits(s, t, b, true)
    requires if s.InUse(b) then t.pend.Keys == s.pend.Keys else t.pend.Keys == s.pend.Keys + {b}
    ensures Core(t)
  {
    hide UseBit, GetInode, Sys.Ptr;
    assert forall x :: t.Owned(x) <==> s.Owned(x);
  }

  /** A marked block is linked. */
  lemma CoreLinked(s: Sys, t: Sys, i: nat, k: nat, b: nat)
    requires Core(s) && s.IsSlot(i, k) && s.Ptr(i, k) == 0 && Slots(s, t, i, k, b) && NoBit(s, t)
    requires b in s.pend && t.pend.Keys == s.pend.Keys - {b}
    ensures Core(t)
  {
    hide UseBit, GetInode, Sys.Ptr, Sys.Owned;
    forall x: nat
      ensures t.Owned(x) <==> s.Owned(x) || x == b
    {
      OwnedAfter(s, t, i, k, b, x);
    }
    forall j: nat, l: nat | s.IsSlot(j, l)
      ensures s.Ptr(j, l) != b
    {
      if s.Ptr(j, l) != 0 { OwnedIf(s, j, l); }
    }
    assert s.InUse(b);
  }

  lemma OwnedAfter(s: Sys, t: Sys, i: nat, k: nat, p: nat, x: nat)
    requires Core(s) && s.IsSlot(i, k) && Slots(s, t, i, k, p) && (p == 0 || (s.Ptr(i, k) == 0 && !s.Owned(p)))
    ensures t.Owned(x) <==> if p == 0 then s.Owned(x) && x != s.Ptr(i, k) else s.Owned(x) || x == p
  {
    hide UseBit, GetInode, Sys.Ptr, Sys.PointersOK, Sys.Conserved;
    if t.Owned(x) {
      var j, l :| t.IsSlot(j, l) && t.Ptr(j, l) == x;
      assert s.IsSlot(j, l);
    }
    if s.Owned(x) {
      var j, l :| s.IsSlot(j, l) && s.Ptr(j, l) == x;
      assert t.IsSlot(j, l);
    }
    assert t.IsSlot(i, k);
  }

  /** A linked block is dropped and freed. */
  lemma CoreFreed(s: Sys, t: Sys, i: nat, k: nat)
    requires Core(s) && s.IsSlot(i, k) && s.Ptr(i, k) != 0 && Slots(s, t, i, k, 0) && t.pend.Keys == s.pend.Keys
    requires Bits(s, t, s.Ptr(i, k), false)
    ensures Core(t)
  {
    hide UseBit, GetInode, Sys.Ptr, Sys.Owned;
    var b := s.Ptr(i, k);
    OwnedIf(s, i, k);
    forall x: nat
      ensures t.Owned(x) <==> s.Owned(x) && x != b
    {
      OwnedAfter(s, t, i, k, 0, x);
    }
  }

  lemma OwnedIf(s: Sys, i: nat, k: nat)
    requires s.Sized() && s.IsSlot(i, k) && s.Ptr(i, k) != 0
    ensures s.Owned(s.Ptr(i, k))
  {
  }

  /** A block write that is no indirect block's changes no slot. */
  lemma SlotsKept(s: Sys, t: Sys, at: nat, data: Block)
    requires s.Sized() && s.PointersOK() && at < |s.blocks| && t.Sized() && t.sb == s.sb && t.gone == s.gone
    requires t.blocks == s.blocks[at := data] && forall j | 0 <= j < |s.inos| :: t.inos[j].addrs == s.inos[j].addrs
    requires at < s.sb.DataStart() || forall j | s.IsSlot(j, INDIRECT) :: s.Ptr(j, INDIRECT) != at
    ensures NoSlot(s, t)
  {
    hide GetInode, UseBit;
    forall j: nat, l: nat | s.IsSlot(j, l)
      ensures t.Ptr(j, l) == s.Ptr(j, l)
    {
      OwnAddr(s, j, INDIRECT);
    }
  }

  lemma BitsKept(s: Sys, t: Sys, at: nat, data: Block)
    requires s.Sized() && at < |s.blocks| && !(s.sb.bmapstart <= at < s.sb.DataStart())
    requires t.sb == s.sb && t.blocks == s.blocks[at := data] && |t.inos| == |s.inos|
    ensures NoBit(s, t)
  {
    hide MapBit;
    forall x: nat | x < s.sb.size
      ensures t.InUse(x) == s.InUse(x)
    {
      MapBlock(s.sb, x);
    }
  }

  lemma BitsSet(s: Sys, t: Sys, b: nat, v: bool)
    requires s.Sized() && b < s.sb.size && s.sb.BBlock(b) < |s.blocks| && t.sb == s.sb && |t.inos| == |s.inos|
    requires t.blocks == s.blocks[s.sb.BBlock(b) := WithMapBit(s.blocks[s.sb.BBlock(b)], b % BPB, v)]
    ensures Bits(s, t, b, v)
  {
    hide MapBit, WithMapBit;
    forall x: nat | x < s.sb.size
      ensures t.InUse(x) == if x == b then v else s.InUse(x)
    {
      MapBlock(s.sb, x);
      if s.sb.BBlock(x) == s.sb.BBlock(b) {
        MapBitUpdate(s.blocks[s.sb.BBlock(b)], b % BPB, v, x % BPB);
      }
    }
  }

  /** Behind the inodes, no inode on disk changes. */
  lemma DiskKept(s: Sys, t: Sys, at: nat, data: Block)
    requires s.Sized() && s.sb.bmapstart <= at < |s.blocks|
    requires t.sb == s.sb && t.blocks == s.blocks[at := data] && |t.inos| == |s.inos|
    ensures forall j: nat | j < s.sb.ninodes :: t.OnDisk(j) == s.OnDisk(j)
  {
    hide GetInode;
    forall j: nat | j < s.sb.ninodes
      ensures t.OnDisk(j) == s.OnDisk(j)
    {
      InodeBlock(s.sb, j);
    }
  }

  lemma CoreOf(s: Sys)
    requires s.OK()
    ensures Core(s) && s.PendingOK()
    ensures forall i, k | (i, k) in s.gone :: s.IsSlot(i, k) && k >= NADDRS && s.inos[i].addrs[INDIRECT] != 0
    ensures forall i: nat | i < s.sb.ninodes && i !in s.busy :: s.Rest(i)
  {
  }

  lemma MarkKeeps(s: Sys, op: OpId, a: Action)
    requires a.Mark? && May(s, op, a)
    ensures Do(s, op, a).OK() && NoSlot(s, Do(s, op, a))
  {
    hide GetInode, UseBit, WithMapBit, Sys.PointersOK, Sys.NoSharing, Sys.Conserved, Sys.Ptr, Sys.Owned, Superblock.OK,
        Superblock.BBlock, Superblock.IBlock, Superblock.DataStart;
    BlockInRange(s, op, a);
    var t := Do(s, op, a);
    CoreOf(s);
    SlotsKept(s, t, BlockOf(s, op, a), DataOf(s, op, a));
    BitsSet(s, t, a.b, true);
    DiskKept(s, t, BlockOf(s, op, a), DataOf(s, op, a));
    CoreMarked(s, t, a.b);
  }

  lemma ZeroKeeps(s: Sys, op: OpId, a: Action)
    requires a.Zero? && May(s, op, a)
    ensures Do(s, op, a).OK() && NoSlot(s, Do(s, op, a))
  {
    hide GetInode, UseBit, Sys.PointersOK, Sys.NoSharing, Sys.Ptr, Sys.Owned, Superblock.OK, Superblock.BBlock,
        Superblock.IBlock, Superblock.DataStart;
    BlockInRange(s, op, a);
    var t := Do(s, op, a);
    CoreOf(s);
    MapBlock(s.sb, 0);
    forall j | s.IsSlot(j, INDIRECT)
      ensures s.Ptr(j, INDIRECT) != a.b
    {
      if s.Ptr(j, INDIRECT) != 0 { OwnedIf(s, j, INDIRECT); }
    }
    SlotsKept(s, t, a.b, ZeroBlock());
    BitsKept(s, t, a.b, ZeroBlock());
    DiskKept(s, t, a.b, ZeroBlock());
    assert s.InUse(a.b);
    CoreMarked(s, t, a.b);
  }

  /** A data block is nobody's indirect block. */
  lemma NotIndirect(s: Sys, i: nat, k: nat)
    requires s.Sized() && s.NoSharing() && s.IsSlot(i, k) && k != INDIRECT && s.Ptr(i, k) != 0
    ensures forall j | s.IsSlot(j, INDIRECT) :: s.Ptr(j, INDIRECT) != s.Ptr(i, k)
  {
    hide Sys.Ptr;
    assert forall j :: (j, INDIRECT) != (i, k);
  }

  lemma DataKeeps(s: Sys, op: OpId, a: Action)
    requires a.Data? && May(s, op, a)
    ensures Do(s, op, a).OK() && NoSlot(s, Do(s, op, a))
  {
    hide GetInode, UseBit, Sys.Ptr, Sys.Owned, Sys.NoSharing, Sys.PointersOK, Superblock.OK, Superblock.BBlock,
        Superblock.IBlock, Superblock.DataStart;
    BlockInRange(s, op, a);
    var t, at := Do(s, op, a), BlockOf(s, op, a);
    CoreOf(s);
    MapBlock(s.sb, 0);
    NotIndirect(s, a.i, a.k);
    OwnedIf(s, a.i, a.k);
    SlotsKept(s, t, at, a.data);
    BitsKept(s, t, at, a.data);
    DiskKept(s, t, at, a.data);
    assert s.InUse(at);
    CoreMarked(s, t, at);
  }

  /** One entry of an indirect block. */
  lemma EntrySlots(s: Sys, t: Sys, i: nat, k: nat, p: uint32)
    requires s.Sized() && s.PointersOK() && s.NoSharing() && s.IsSlot(i, k) && k >= NADDRS && (i, k) !in s.gone
    requires s.inos[i].addrs[INDIRECT] != 0 && t.Sized() && t.sb == s.sb && t.gone == s.gone && t.inos == s.inos
    requires var at := s.inos[i].addrs[INDIRECT];
             at < |s.blocks| && t.blocks == s.blocks[at := PutU32(s.blocks[at], k - NADDRS, p)]
    ensures Slots(s, t, i, k, p)
  {
    hide GetInode, UseBit;
    OwnAddr(s, i, INDIRECT);
    forall j: nat, l: nat | s.IsSlot(j, l)
      ensures t.Ptr(j, l) == if (j, l) == (i, k) then p else s.Ptr(j, l)
    {
      OwnAddr(s, j, INDIRECT);
      if j == i && l >= NADDRS {
        PutGetU32(s.blocks[s.inos[i].addrs[INDIRECT]], k - NADDRS, p, l - NADDRS);
      } else if j != i {
        assert (j, INDIRECT) != (i, INDIRECT);
      }
    }
  }

  lemma EntryKeeps(s: Sys, op: OpId, a: Action)
    requires a.Entry? && May(s, op, a)
    ensures Do(s, op, a).OK() && Slots(s, Do(s, op, a), a.i, a.k, a.b)
  {
    hide GetInode, UseBit, Sys.Ptr, Sys.Owned, Sys.NoSharing, Sys.PointersOK, Superblock.OK, Superblock.BBlock,
        Superblock.IBlock, Superblock.DataStart;
    BlockInRange(s, op, a);
    var t, at := Do(s, op, a), BlockOf(s, op, a);
    CoreOf(s);
    MapBlock(s.sb, 0);
    OwnAddr(s, a.i, INDIRECT);
    OwnedIf(s, a.i, INDIRECT);
    EntrySlots(s, t, a.i, a.k, a.b);
    BitsKept(s, t, at, DataOf(s, op, a));
    DiskKept(s, t, at, DataOf(s, op, a));
    CoreLinked(s, t, a.i, a.k, a.b);
    PendingKept(s, t, at, DataOf(s, op, a));
  }

  /** Blocks in hand are not written by this. */
  lemma PendingKept(s: Sys, t: Sys, at: nat, data: Block)
    requires s.Sized() && s.PendingOK() && Core(t) && at !in s.pend && at < |s.blocks|
    requires t.blocks == s.blocks[at := data]
    requires t.pend.Keys <= s.pend.Keys && forall x <- t.pend :: t.pend[x] == s.pend[x]
    ensures t.PendingOK()
  {
  }

  lemma IupdateKeeps(s: Sys, op: OpId, a: Action)
    requires a.Iupdate? && May(s, op, a)
    ensures Do(s, op, a).OK() && NoSlot(s, Do(s, op, a))
  {
    hide GetInode, PutInode, UseBit, Sys.Ptr, Sys.Owned, Sys.PointersOK, Sys.NoSharing, Superblock.OK,
        Superblock.BBlock, Superblock.DataStart;
    BlockInRange(s, op, a);
    var t, at := Do(s, op, a), BlockOf(s, op, a);
    CoreOf(s);
    InodeBlock(s.sb, a.i);
    SlotsKept(s, t, at, DataOf(s, op, a));
    BitsKept(s, t, at, DataOf(s, op, a));
    assert s.InUse(0);
    CoreMarked(s, t, 0);
    OthersOnDisk(s, t, a.i, a.d);
  }

  lemma OthersOnDisk(s: Sys, t: Sys, i: nat, d: Dinode)
    requires s.Sized() && t.Sized() && t.sb == s.sb && i < s.sb.ninodes && s.sb.IBlock(i) < |s.blocks|
    requires t.blocks == s.blocks[s.sb.IBlock(i) := PutInode(s.blocks[s.sb.IBlock(i)], i % IPB, d)]
    ensures forall j: nat | j < s.sb.ninodes :: t.OnDisk(j) == if j == i then d else s.OnDisk(j)
  {
    hide GetInode, PutInode;
    forall j: nat | j < s.sb.ninodes
      ensures t.OnDisk(j) == if j == i then d else s.OnDisk(j)
    {
      InodeBlock(s.sb, j);
      if s.sb.IBlock(j) == s.sb.IBlock(i) {
        InodeRoundTrip(s.blocks[s.sb.IBlock(i)], i % IPB, d, j % IPB);
      }
    }
  }

  /** A slot that is dropped. */
  lemma FreeSlots(s: Sys, op: OpId, a: Action)
    requires a.Free? && May(s, op, a)
    ensures Slots(s, Do(s, op, a), a.i, a.k, 0)
  {
    hide GetInode, UseBit, Sys.NoSharing, Sys.Conserved, WithMapBit;
    BlockInRange(s, op, a);
    var t := Do(s, op, a);
    forall j: nat, l: nat | s.IsSlot(j, l)
      ensures t.Ptr(j, l) == if (j, l) == (a.i, a.k) then 0 else s.Ptr(j, l)
    {
      OwnAddr(s, j, INDIRECT);
    }
  }

  lemma FreeKeeps(s: Sys, op: OpId, a: Action)
    requires a.Free? && May(s, op, a)
    ensures Do(s, op, a).OK() && Slots(s, Do(s, op, a), a.i, a.k, 0)
  {
    hide GetInode, UseBit, WithMapBit, Sys.PointersOK, Sys.NoSharing, Sys.Conserved, Sys.Ptr, Sys.Owned, Superblock.OK,
        Superblock.BBlock, Superblock.IBlock, Superblock.DataStart;
    BlockInRange(s, op, a);
    var t, at := Do(s, op, a), BlockOf(s, op, a);
    CoreOf(s);
    FreeSlots(s, op, a);
    BitsSet(s, t, s.Ptr(a.i, a.k), false);
    DiskKept(s, t, at, DataOf(s, op, a));
    CoreFreed(s, t, a.i, a.k);
    if a.k >= NADDRS { EntryHas(s, a.i, a.k); }
  }

  lemma EntryHas(s: Sys, i: nat, k: nat)
    requires s.Sized() && s.IsSlot(i, k) && k >= NADDRS && s.Ptr(i, k) != 0
    ensures s.inos[i].addrs[INDIRECT] != 0
  {
  }

  lemma LinkSlots(s: Sys, op: OpId, x: Link)
    requires x.Link? && MayLink(s, op, x)
    ensures Slots(s, WithLink(s, op, x), x.i, x.k, x.b)
  {
    hide GetInode, UseBit, Sys.NoSharing, Sys.Conserved, Sys.PointersOK;
    var t := WithLink(s, op, x);
    forall j: nat, l: nat | s.IsSlot(j, l)
      ensures t.Ptr(j, l) == if (j, l) == (x.i, x.k) then x.b else s.Ptr(j, l)
    {
      if l >= NADDRS { ZeroBlockWords(l - NADDRS); }
    }
  }

  lemma LinkKeeps(s: Sys, op: OpId, x: Link)
    requires MayLink(s, op, x)
    ensures WithLink(s, op, x).OK()
  {
    hide GetInode, UseBit, Sys.PointersOK, Sys.NoSharing, Sys.Conserved, Sys.Ptr, Sys.Owned, Superblock.OK,
        Superblock.BBlock, Superblock.IBlock, Superblock.DataStart;
    if x.Link? {
      var t := WithLink(s, op, x);
      CoreOf(s);
      LinkSlots(s, op, x);
      OwnAddr(s, x.i, x.k);
      assert forall b: nat | b < s.sb.size :: t.InUse(b) == s.InUse(b);
      CoreLinked(s, t, x.i, x.k, x.b);
      assert forall b <- t.pend :: t.pend[b] == s.pend[b];
    }
  }

  // ---- from one log_write to the next ----

  ghost predicate ActBy(s: Sys, op: OpId, x: Link, a: Action, at: nat, data: Block, t: Sys) {
    && MayLink(s, op, x) && May(WithLink(s, op, x), op, a)
    && at == BlockOf(WithLink(s, op, x), op, a) && data == DataOf(WithLink(s, op, x), op, a)
    && t == Do(WithLink(s, op, x), op, a)
  }

  /** A log_write of block `at` by this operation. */
  ghost predicate Act(s: Sys, op: OpId, at: nat, data: Block, t: Sys) {
    exists x, a :: ActBy(s, op, x, a, at, data, t)
  }

  /** Everything that `t` has in hand belongs to `op`, or was in the same hands before. */
  ghost predicate Hands(s: Sys, op: OpId, t: Sys) {
    && (forall i <- t.busy :: t.busy[i] == op || (i in s.busy && t.busy[i] == s.busy[i]))
    && (forall b <- t.pend :: t.pend[b].op == op || (b in s.pend && t.pend[b] == s.pend[b]))
  }

  lemma DoKeeps(s: Sys, op: OpId, a: Action)
    requires May(s, op, a)
    ensures Do(s, op, a).OK() && Hands(s, op, Do(s, op, a)) && Do(s, op, a).sb == s.sb
    ensures s.sb.inodestart <= BlockOf(s, op, a) < |s.blocks|
    ensures Do(s, op, a).blocks == s.blocks[BlockOf(s, op, a) := DataOf(s, op, a)]
  {
    hide Sys.OK, DataOf;
    BlockInRange(s, op, a);
    match a
    case Mark(_) => MarkKeeps(s, op, a);
    case Zero(_) => ZeroKeeps(s, op, a);
    case Entry(_, _, _) => EntryKeeps(s, op, a);
    case Data(_, _, _) => DataKeeps(s, op, a);
    case Iupdate(_, _) => IupdateKeeps(s, op, a);
    case Free(_, _) => FreeKeeps(s, op, a);
  }

  /** Whatever an operation does, no block is lost or owned twice. */
  lemma ActKeeps(s: Sys, op: OpId, at: nat, data: Block, t: Sys)
    requires Act(s, op, at, data, t)
    ensures s.OK() && t.OK() && Hands(s, op, t) && t.sb == s.sb
    ensures s.sb.inodestart <= at < |s.blocks| && t.blocks == s.blocks[at := data]
  {
    hide Sys.OK, Do, DataOf, BlockOf, May;
    var x, a :| ActBy(s, op, x, a, at, data, t);
    LinkKeeps(s, op, x);
    DoKeeps(WithLink(s, op, x), op, a);
  }

  /** Inode `j` has the same pointers, and its blocks the same contents. */
  ghost predicate FileKept(s: Sys, t: Sys, j: nat) {
    && s.Sized() && t.Sized() && t.sb == s.sb && j < s.sb.ninodes && t.inos[j] == s.inos[j]
    && forall k: nat | s.IsSlot(j, k) ::
         && t.Ptr(j, k) == s.Ptr(j, k)
         && (0 < s.Ptr(j, k) < |s.blocks| ==> t.blocks[s.Ptr(j, k)] == s.blocks[s.Ptr(j, k)])
  }

  function InodeOf(a: Action): Option<nat> {
    match a
    case Mark(_) => None
    case Zero(_) => None
    case Entry(i, _, _) => Some(i)
    case Data(i, _, _) => Some(i)
    case Iupdate(i, _) => Some(i)
    case Free(i, _) => Some(i)
  }

  /** It writes no block of another inode. */
  lemma NotTheirs(s: Sys, op: OpId, a: Action, j: nat, k: nat)
    requires May(s, op, a) && InodeOf(a) != Some(j) && s.IsSlot(j, k) && s.Ptr(j, k) != 0
    ensures s.Ptr(j, k) != BlockOf(s, op, a)
  {
    hide GetInode, UseBit, Sys.Ptr, Sys.Owned, Superblock.OK, Superblock.BBlock, Superblock.IBlock,
        Superblock.DataStart;
    BlockInRange(s, op, a);
    OwnedIf(s, j, k);
    MapBlock(s.sb, s.Ptr(j, k));
    if a.Zero? {
      assert !s.Owned(a.b);
    } else if a.Entry? {
      OwnAddr(s, a.i, INDIRECT);
      assert (a.i, INDIRECT) != (j, k);
    } else if a.Data? {
      assert (a.i, a.k) != (j, k);
    }
  }

  lemma DoOthers(s: Sys, op: OpId, a: Action, j: nat)
    requires May(s, op, a) && InodeOf(a) != Some(j) && j < s.sb.ninodes
    ensures FileKept(s, Do(s, op, a), j)
  {
    hide GetInode, UseBit, Sys.OK, Sys.Ptr, May, DataOf, BlockOf, Superblock.OK;
    var t := Do(s, op, a);
    DoKeeps(s, op, a);
    SlotsBut(s, op, a, j);
    forall k: nat | s.IsSlot(j, k)
      ensures 0 < s.Ptr(j, k) < |s.blocks| ==> t.blocks[s.Ptr(j, k)] == s.blocks[s.Ptr(j, k)]
    {
      if s.Ptr(j, k) != 0 { NotTheirs(s, op, a, j, k); }
    }
  }

  lemma SlotsBut(s: Sys, op: OpId, a: Action, j: nat)
    requires May(s, op, a) && InodeOf(a) != Some(j) && j < s.sb.ninodes
    ensures s.Sized() && Do(s, op, a).Sized()
    ensures forall k: nat | s.IsSlot(j, k) :: Do(s, op, a).Ptr(j, k) == s.Ptr(j, k)
  {
    hide GetInode, UseBit, Sys.Ptr, Sys.PointersOK, Sys.NoSharing, Sys.Conserved, Sys.Owned, DataOf, BlockOf;
    match a
    case Mark(_) => MarkKeeps(s, op, a);
    case Zero(_) => ZeroKeeps(s, op, a);
    case Entry(_, _, _) => EntryKeeps(s, op, a);
    case Data(_, _, _) => DataKeeps(s, op, a);
    case Iupdate(_, _) => IupdateKeeps(s, op, a);
    case Free(_, _) => FreeKeeps(s, op, a);
  }

  /** No operation touches a file that another one works on: inode, pointers and blocks stay as they are. */
  lemma ActOthers(s: Sys, op: OpId, at: nat, data: Block, t: Sys, j: nat)
    requires Act(s, op, at, data, t) && j < s.sb.ninodes && !s.CanUse(op, j)
    ensures FileKept(s, t, j)
  {
    hide GetInode, UseBit, Sys.OK, Sys.Ptr, DataOf, BlockOf, Do;
    var x, a :| ActBy(s, op, x, a, at, data, t);
    var u := WithLink(s, op, x);
    LinkKeeps(s, op, x);
    LinkOthers(s, op, x, j);
    StillBusy(s, op, x, j);
    DoOthers(u, op, a, j);
  }

  lemma LinkOthers(s: Sys, op: OpId, x: Link, j: nat)
    requires MayLink(s, op, x) && j < s.sb.ninodes && !s.CanUse(op, j)
    ensures FileKept(s, WithLink(s, op, x), j)
  {
    hide GetInode, UseBit, Sys.Ptr, Sys.PointersOK, Sys.NoSharing, Sys.Conserved, Sys.Owned;
    if x.Link? { LinkSlots(s, op, x); }
  }

  lemma StillBusy(s: Sys, op: OpId, x: Link, j: nat)
    requires MayLink(s, op, x) && j < s.sb.ninodes && !s.CanUse(op, j)
    ensures WithLink(s, op, x).Sized() && !WithLink(s, op, x).CanUse(op, j)
  {
    hide GetInode;
  }

  // ---- beginning and end ----

  /** All inodes as they are on disk, and nothing in hand. */
  ghost function AsOnDisk(sb: Superblock, blocks: Image): Sys
    requires sb.OK() && |blocks| == sb.size
  {
    Sys(sb, blocks, seq(sb.ninodes, i requires 0 <= i < sb.ninodes => InodeAt(sb, blocks, i)), map[], map[], {})
  }

  function InodeAt(sb: Superblock, blocks: Image, i: nat): Dinode
    requires sb.OK() && |blocks| == sb.size && i < sb.ninodes
  {
    InodeBlock(sb, i);
    GetInode(blocks[sb.IBlock(i)], i % IPB)
  }

  /** The operation has nothing in hand: every inode it worked on is on disk as it is in memory. */
  ghost predicate Done(s: Sys, op: OpId) {
    && s.OK() && (forall b <- s.pend :: s.pend[b].op != op)
    && forall i <- s.busy :: s.busy[i] == op && i < s.sb.ninodes ==> s.Rest(i)
  }

  ghost function Left(s: Sys, op: OpId): Sys {
    s.(busy := map i | i in s.busy && s.busy[i] != op :: s.busy[i])
  }

  lemma LeftKeeps(s: Sys, op: OpId)
    requires Done(s, op)
    ensures Left(s, op).OK()
    ensures forall i <- Left(s, op).busy :: i in s.busy && Left(s, op).busy[i] == s.busy[i] != op
  {
    hide GetInode, UseBit, Sys.Ptr, Sys.Owned, Sys.PointersOK, Sys.NoSharing;
    var t := Left(s, op);
    CoreOf(s);
    MapBlock(s.sb, 0);
    forall i: nat, k: nat | s.IsSlot(i, k)
      ensures t.Ptr(i, k) == s.Ptr(i, k)
    {
      SamePtr(s, t, i, k);
    }
    assert s.InUse(0) && forall x: nat | x < s.sb.size :: t.InUse(x) == s.InUse(x);
    CoreMarked(s, t, 0);
  }

  lemma SamePtr(s: Sys, t: Sys, i: nat, k: nat)
    requires s.Sized() && t == s.(busy := t.busy, pend := t.pend) && s.IsSlot(i, k)
    ensures t.Ptr(i, k) == s.Ptr(i, k)
  {
  }
}
