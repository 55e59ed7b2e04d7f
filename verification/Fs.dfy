/** Block allocation, block maps and file contents (fs.c). The methods run inside a transaction:
    `blocks` is what bread shows, and log_write changes it. */
module Fs {
  import opened Words
  import opened Bio
  import opened FsFormat
  import opened Ownership
  import opened Supply
  import opened FsActs
  import opened Content
  import opened Truncate
  import opened RawDisk
  import opened DiskLayout
  import LogFormat

  /** struct inode: the in-memory copy of an inode, held locked. */
  class Inode {
    const inum: nat
    var typ: uint16
    var major: uint16
    var minor: uint16
    var nlink: uint16
    var size: uint32
    var addrs: Addrs

    constructor (inum: nat, d: Dinode)
      ensures this.inum == inum && Copy() == d
    {
      this.inum := inum;
      typ, major, minor, nlink, size, addrs := d.typ, d.major, d.minor, d.nlink, d.size, d.addrs;
    }

    function Copy(): Dinode
      reads this
    {
      Dinode(typ, major, minor, nlink, size, addrs)
    }
  }

  lemma SameMapBlock(sb: Superblock, b: nat, bi: nat)
    requires b % BPB == 0 && bi < BPB
    ensures sb.BBlock(b + bi) == sb.BBlock(b) && (b + bi) % BPB == bi
  {
  }

  lemma InodeWithin(v: View, i: nat)
    requires v.Sized() && i < v.sb.ninodes
    ensures v.sb.inodestart <= v.sb.IBlock(i) < |v.blocks|
  {
  }

  lemma ReachIs(size: nat, off: nat, n: nat)
    ensures off > size || off + n >= TWO32 ==> Fs.Reach(size, off, n) == 0
    ensures off <= size && off + n < TWO32 ==> Fs.Reach(size, off, n) == if off + n > size then size - off else n
  {
  }

  // ---- transactions ----

  /** What an operation did: its log_writes lead from the blocks at its beginning to those at its end. */
  datatype Transaction = Transaction(start: Image, trace: seq<Write>, logged: set<nat>, end: Image) {
    /** None of its log_writes is to a block before `from`. */
    ghost predicate OK(from: nat) {
      && InRange(|start|, trace) && end == Apply(start, trace) && logged == LogFormat.BlocksOf(trace)
      && forall i | 0 <= i < |trace| :: from <= trace[i].blockno
    }

    /** One more log_write. */
    function More(b: nat, data: Block): Transaction
      requires b < |end|
    {
      Transaction(start, trace + [Write(b, data)], logged + {b}, end[b := data])
    }
  }

  lemma TraceMore(from: nat, t: Transaction, b: nat, data: Block)
    requires from <= b < |t.end|
    ensures t.OK(from) ==> t.More(b, data).OK(from)
  {
    if t.OK(from) {
      var w, more := Write(b, data), t.trace + [Write(b, data)];
      assert forall i | 0 <= i < |more| :: more[i] == if i < |t.trace| then t.trace[i] else w;
      LogFormat.BlocksMore(t.trace, w);
      LogFormat.ApplyLast(t.start, t.trace, w);
    }
  }

  class Fs {
    const sb: Superblock
    var blocks: Image
    /** The blocks given to log_write since the operation began. */
    var logged: set<nat>
    /** The log_writes since then, in order. The program keeps no such lists; `CrashSafety` makes them again. */
    var trace: seq<Write>
    /** What the blocks were when the operation began. */
    var start: Image
    /** The operations that have ended. */
    var past: seq<Transaction>
    /** What the inode that the operation works on, and the blocks, were when it began. */
    ghost var first: View

    constructor (sb: Superblock, blocks: Image)
      ensures this.sb == sb && this.blocks == blocks && logged == {} && Traced() && past == []
    {
      this.sb, this.blocks, logged, trace, start, past := sb, blocks, {}, [], blocks, [];
      first := View(sb, blocks, 0, Dinode(0, 0, 0, 0, 0, NoAddrs()));
    }

    /** begin_op: the blocks that are logged from now on count against a new transaction. */
    method BeginOp(ghost ip: Inode)
      modifies this`logged, this`trace, this`start, this`first
      ensures logged == {} && start == blocks && trace == [] && Traced()
      ensures ViewOf(ip).OK({}) ==> Acts(ip)
    {
      logged, trace, start := {}, [], blocks;
      first := ViewOf(ip);
      if ViewOf(ip).OK({}) { ActsNone(ViewOf(ip)); }
    }

    /** end_op */
    method EndOp()
      modifies this`past
      ensures past == old(past) + [Now()]
    {
      past := past + [Now()];
    }

    /** The operation so far. */
    function Now(): Transaction
      reads `blocks, `logged, `trace, `start
    {
      Transaction(start, trace, logged, blocks)
    }

    /** Its log_writes lead to the blocks as they are; none is to the boot block, the superblock or the log. */
    ghost predicate Traced()
      reads `blocks, `logged, `trace, `start
    {
      Now().OK(sb.inodestart)
    }

    /** All of them are what an operation on inode `ip` may do while others run (`SideBySide`). */
    ghost predicate Acts(ip: Inode)
      reads `blocks, `trace, `first, ip
    {
      ActsOn(first, trace, View(sb, blocks, ip.inum, ip.Copy()))
    }

    ghost predicate Sized()
      reads this
    {
      sb.OK() && |blocks| == sb.size
    }

    ghost function ViewOf(ip: Inode): View
      reads this, ip
    {
      View(sb, blocks, ip.inum, ip.Copy())
    }

    /** A held buffer of block `b` was filled with `data`, and log_write was called. */
    method LogWrite(b: nat, data: Block)
      requires b < |blocks|
      modifies this`blocks, this`logged, this`trace
      ensures Now() == old(Now()).More(b, data)
      ensures old(Traced()) && sb.inodestart <= b ==> Traced()
    {
      hide Transaction.OK;
      if sb.inodestart <= b { TraceMore(sb.inodestart, Now(), b, data); }
      blocks := blocks[b := data];
      logged := logged + {b};
      trace := trace + [Write(b, data)];
    }

    /** bzero */
    method Bzero(b: nat)
      requires b < |blocks|
      modifies this`blocks, this`logged, this`trace
      ensures blocks == old(blocks)[b := ZeroBlock()] && logged == old(logged) + {b}
      ensures trace == old(trace) + [Write(b, ZeroBlock())] && (old(Traced()) && sb.inodestart <= b ==> Traced())
    {
      hide Traced;
      LogWrite(b, ZeroBlock());
    }

    /** balloc: the first block whose bit is clear is marked and zeroed; none: a panic. */
    method Balloc() returns (r: Option<nat>)
      requires Sized()
      modifies this`blocks, this`logged, this`trace
      ensures Sized()
      ensures r.None? ==> blocks == old(blocks) && forall x | 0 <= x < sb.size :: UseBit(sb, blocks, x)
      ensures r.Some? ==>
        var b := r.value;
        && b < sb.size && !UseBit(sb, old(blocks), b) && (forall x | 0 <= x < b :: UseBit(sb, old(blocks), x))
        && sb.BBlock(b) < |blocks|
        && blocks == old(blocks)[sb.BBlock(b) := WithMapBit(old(blocks)[sb.BBlock(b)], b % BPB, true)][b := ZeroBlock()]
        && logged == old(logged) + {sb.BBlock(b), b}
        && (old(Traced()) && sb.inodestart <= b ==> Traced())
        && trace == old(trace) + BallocWrites(sb, old(blocks), b)
      ensures MarksFirst(sb.bmapstart, old(blocks), blocks, r)
    {
      hide MapBit, WithMapBit, ZeroBlock, Traced, BallocWrites, MarksFirst;
      var b := 0;
      while b < sb.size
        invariant b % BPB == 0 && Sized() && blocks == old(blocks) && logged == old(logged) && trace == old(trace)
        invariant forall x | 0 <= x < b && x < sb.size :: UseBit(sb, blocks, x)
      {
        var data := blocks[sb.BBlock(b)];
        var bi := 0;
        while bi < BPB && b + bi < sb.size
          invariant bi <= BPB && Sized() && blocks == old(blocks) && logged == old(logged) && trace == old(trace)
          invariant forall x | 0 <= x < b + bi && x < sb.size :: UseBit(sb, blocks, x)
        {
          SameMapBlock(sb, b, bi);
          if !MapBit(data, bi) {
            LogWrite(sb.BBlock(b), WithMapBit(data, bi, true));
            Bzero(b + bi);
            BothWrites(old(trace), sb, old(blocks), b + bi);
            AllocMarks(sb, old(blocks), b + bi);
            return Some(b + bi);
          }
          bi := bi + 1;
        }
        b := b + BPB;
      }
      NoneUnmarked(sb, blocks);
      r := None;
    }

    /** bfree: clears the bit of `b`; fails (panics) if it is clear. */
    method Bfree(b: nat) returns (ok: bool)
      requires Sized() && b < sb.size
      modifies this`blocks, this`logged, this`trace
      ensures Sized() && ok == UseBit(sb, old(blocks), b)
      ensures !ok ==> blocks == old(blocks) && logged == old(logged)
      ensures ok && old(Traced()) ==> Traced()
      ensures ok ==>
        && sb.BBlock(b) < |blocks|
        && blocks == old(blocks)[sb.BBlock(b) := WithMapBit(old(blocks)[sb.BBlock(b)], b % BPB, false)]
        && logged == old(logged) + {sb.BBlock(b)}
        && trace == old(trace) + [BfreeWrite(sb, old(blocks), b)]
      ensures Unmarks(sb.bmapstart, old(blocks), blocks, b, ok)
    {
      hide MapBit, WithMapBit, Unmarks;
      FreeMarks(sb, blocks, b);
      var data := blocks[sb.BBlock(b)];
      var bi := b % BPB;
      if !MapBit(data, bi) {
        return false;
      }
      LogWrite(sb.BBlock(b), WithMapBit(data, bi, false));
      ok := true;
    }

    /** iupdate: the in-memory inode replaces the one on disk. */
    method Iupdate(ip: Inode)
      requires ViewOf(ip).Sized()
      modifies this`blocks, this`logged, this`trace
      ensures ViewOf(ip).Sized() && sb.IBlock(ip.inum) < |blocks|
      ensures blocks == old(blocks)[sb.IBlock(ip.inum) := PutInode(old(blocks)[sb.IBlock(ip.inum)], ip.inum % IPB,
          ip.Copy())]
      ensures logged == old(logged) + {sb.IBlock(ip.inum)}
      ensures trace == old(trace) + [Write(sb.IBlock(ip.inum), blocks[sb.IBlock(ip.inum)])]
      ensures old(Traced()) ==> Traced()
    {
      hide PutInode, Superblock.OK, Superblock.IBlock, Superblock.BBlock, Superblock.DataStart, Traced;
      InodeWithin(ViewOf(ip), ip.inum);
      var data := blocks[sb.IBlock(ip.inum)];
      data := PutInode(data, ip.inum % IPB, ip.Copy());
      LogWrite(sb.IBlock(ip.inum), data);
    }

    /** bmap: the address of block `bn` of the file, allocating it if need be; None is a panic
        ("bmap: out of range" or "balloc: out of blocks"). */
    method Bmap(ip: Inode, bn: nat) returns (r: Option<nat>)
      requires ViewOf(ip).OK({})
      modifies this`blocks, this`logged, this`trace, ip`addrs
      ensures r.Some? <==> bn < MAXFILE && |Lacks(old(ViewOf(ip)), bn, bn + 1)| <= |FreeOf(old(ViewOf(ip)))|
      ensures r.Some? ==> Mapped(old(ViewOf(ip)), ViewOf(ip), bn, r.value)
      ensures r.Some? && Lacks(old(ViewOf(ip)), bn, bn + 1) == {} ==> logged == old(logged)
      ensures r.Some? ==> logged <= old(logged) + MayLog(old(ViewOf(ip)), ViewOf(ip), bn, bn + 1)
      ensures r.Some? && old(Traced()) ==> Traced()
      ensures r.Some? && old(Acts(ip)) ==> Acts(ip)
    {
      hide View.OK, View.Ptr, Lacks, FreeOf, MayLog, Mapped, Traced, Acts;
      ghost var v := ViewOf(ip);
      OKIsSized(v, {});
      if bn < MAXFILE { LacksOne(v, bn); }
      if bn < NDIRECT {
        r := BmapDirect(ip, bn);
      } else if bn - NDIRECT < NINDIRECT {
        if ip.addrs[INDIRECT] == 0 {
          r := BmapNewIndirect(ip, bn);
        } else {
          r := BmapOldIndirect(ip, bn);
        }
      } else {
        r := None;
      }
      if r.Some? { MappedTakes(v, ViewOf(ip), bn, r.value); }
    }

    /** bmap for a direct block. */
    method BmapDirect(ip: Inode, bn: nat) returns (r: Option<nat>)
      requires ViewOf(ip).OK({}) && bn < NDIRECT
      modifies this`blocks, this`logged, this`trace, ip`addrs
      ensures r.None? ==> |FreeOf(old(ViewOf(ip)))| < |Lacks(old(ViewOf(ip)), bn, bn + 1)|
      ensures r.Some? ==> Mapped(old(ViewOf(ip)), ViewOf(ip), bn, r.value)
      ensures r.Some? && Data(old(ViewOf(ip)), ip.inum, bn) != 0 ==> logged == old(logged)
      ensures r.Some? ==> logged <= old(logged) + MayLog(old(ViewOf(ip)), ViewOf(ip), bn, bn + 1)
      ensures r.Some? && old(Traced()) ==> Traced()
      ensures r.Some? && old(Acts(ip)) ==> Acts(ip)
    {
      hide MarksFirst, View.PointersOK, View.NoSharing, View.Conserved, Grown, Mapped, Traced, MayLog, FreeOf, Lacks, ActsOn,
          BallocWrites;
      ghost var v := ViewOf(ip);
      var addr: nat := ip.addrs[bn];
      if addr == 0 {
        r := Balloc();
        if r.None? {
          NoneFree(v);
          LacksOne(v, bn);
          return;
        }
        FreeIsData(v, r.value);
        addr := r.value;
        ip.addrs := ip.addrs[bn := addr];
        GrowAddr(v, bn, addr);
        GrowActs(first, old(trace), v, ViewOf(ip), bn, addr);
        MappedByOne(v, ViewOf(ip), bn, addr);
        LogsGrown(v, ViewOf(ip), bn, addr);
      } else {
        MappedAlready(v, bn);
      }
      r := Some(addr);
    }

    /** bmap for a file that has no indirect block yet. */
    method BmapNewIndirect(ip: Inode, bn: nat) returns (r: Option<nat>)
      requires ViewOf(ip).OK({}) && NDIRECT <= bn < MAXFILE && ip.addrs[INDIRECT] == 0
      modifies this`blocks, this`logged, this`trace, ip`addrs
      ensures Data(old(ViewOf(ip)), ip.inum, bn) == 0
      ensures r.None? ==> |FreeOf(old(ViewOf(ip)))| < |Lacks(old(ViewOf(ip)), bn, bn + 1)|
      ensures r.Some? ==> Mapped(old(ViewOf(ip)), ViewOf(ip), bn, r.value)
      ensures r.Some? ==> logged <= old(logged) + MayLog(old(ViewOf(ip)), ViewOf(ip), bn, bn + 1)
      ensures r.Some? && old(Traced()) ==> Traced()
      ensures r.Some? && old(Acts(ip)) ==> Acts(ip)
    {
      hide MarksFirst, View.PointersOK, View.NoSharing, View.Conserved, Mapped, UseBit, Traced, MayLog, FreeOf, Lacks, Grown,
          ActsOn, BallocWrites;
      ghost var v := ViewOf(ip);
      LacksTwo(v, bn);
      r := Balloc();
      if r.None? {
        NoneFree(v);
        return;
      }
      FreeIsData(v, r.value);
      var at: nat := r.value;
      ip.addrs := ip.addrs[INDIRECT := at];
      GrowAddr(v, INDIRECT, at);
      ghost var u := ViewOf(ip);
      GrowActs(first, old(trace), v, u, INDIRECT, at);
      GrownPtrs(v, u, at, bn);
      r := BmapIndirect(ip, bn - NDIRECT);
      if r.Some? {
        MappedByTwo(v, u, ViewOf(ip), bn, at, r.value);
        LogsTwice(v, u, ViewOf(ip), bn, at, r.value);
      } else {
        GrownFree(v, u, INDIRECT, at);
      }
    }

    /** bmap for a file that has its indirect block. */
    method BmapOldIndirect(ip: Inode, bn: nat) returns (r: Option<nat>)
      requires ViewOf(ip).OK({}) && NDIRECT <= bn < MAXFILE && ip.addrs[INDIRECT] != 0
      modifies this`blocks, this`logged, this`trace, ip`addrs
      ensures r.None? ==> |FreeOf(old(ViewOf(ip)))| < |Lacks(old(ViewOf(ip)), bn, bn + 1)|
      ensures r.Some? ==> Mapped(old(ViewOf(ip)), ViewOf(ip), bn, r.value)
      ensures r.Some? && Data(old(ViewOf(ip)), ip.inum, bn) != 0 ==> logged == old(logged)
      ensures r.Some? ==> logged <= old(logged) + MayLog(old(ViewOf(ip)), ViewOf(ip), bn, bn + 1)
      ensures r.Some? && old(Traced()) ==> Traced()
      ensures r.Some? && old(Acts(ip)) ==> Acts(ip)
    {
      hide View.PointersOK, View.NoSharing, View.Conserved, Mapped, UseBit, Grown, Traced, MayLog, FreeOf, Lacks, Acts;
      ghost var v := ViewOf(ip);
      assert v.Ptr(ip.inum, INDIRECT) == ip.addrs[INDIRECT];
      LacksOne(v, bn);
      r := BmapIndirect(ip, bn - NDIRECT);
      if r.Some? && Data(v, ip.inum, bn) == 0 {
        MappedByOne(v, ViewOf(ip), bn, r.value);
        LogsGrown(v, ViewOf(ip), bn, r.value);
      } else if r.Some? {
        MappedAlready(v, bn);
      }
    }

    /** The part of bmap that works on the indirect block. */
    method BmapIndirect(ip: Inode, j: nat) returns (r: Option<nat>)
      requires ViewOf(ip).OK({}) && j < NINDIRECT && ViewOf(ip).Ptr(ip.inum, INDIRECT) != 0
      modifies this`blocks, this`logged, this`trace
      ensures ViewOf(ip).Sized()
      ensures r.None? ==> |FreeOf(old(ViewOf(ip)))| == 0 && old(ViewOf(ip)).Ptr(ip.inum, NADDRS + j) == 0
      ensures r.Some? ==>
        if old(ViewOf(ip)).Ptr(ip.inum, NADDRS + j) == 0 then
          && Grown(old(ViewOf(ip)), ViewOf(ip), NADDRS + j, r.value)
          && logged == old(logged) + {sb.BBlock(r.value), r.value, ip.addrs[INDIRECT]}
        else
          && r.value == old(ViewOf(ip)).Ptr(ip.inum, NADDRS + j)
          && blocks == old(blocks) && logged == old(logged)
      ensures r.Some? && old(Traced()) ==> Traced()
      ensures r.Some? && old(Acts(ip)) ==> Acts(ip)
    {
      hide MarksFirst, View.PointersOK, View.NoSharing, View.Conserved, Grown, Traced, FreeOf, ActsOn, BallocWrites;
      ghost var v := ViewOf(ip);
      IndirectIsData(v);
      var at: nat := ip.addrs[INDIRECT];
      var a := blocks[at];
      var addr: nat := GetU32(a, j);
      if addr == 0 {
        r := Balloc();
        if r.None? {
          NoneFree(v);
          return;
        }
        FreeIsData(v, r.value);
        addr := r.value;
        GrowIndirect(v, j, addr);
        GrowEntryActs(first, old(trace), v, j, addr);
        LogWrite(at, PutU32(a, j, addr));
      }
      r := Some(addr);
    }

    /** How many bytes readi copies out. */
    static function Reach(size: nat, off: nat, n: nat): nat {
      if off > size || off + n >= TWO32 then 0 else if off + n > size then size - off else n
    }

    /** readi for a file that is not a device. `dst` is what it copies out; -1 if `off` lies beyond the
        end, or `off + n` wraps around. In a hole it reads zeroes, after giving the file a block there, so it
        can panic: if there are not enough free blocks, or behind MAXFILE blocks. Blocks change if and only if
        there was a hole. */
    method Readi(ip: Inode, off: uint32, n: uint32) returns (ok: bool, r: int, dst: seq<byte>)
      requires ViewOf(ip).OK({})
      modifies this`blocks, this`logged, this`trace, ip`addrs
      ensures var v, m := old(ViewOf(ip)), Reach(old(ip.size), off, n);
              ok <==> m == 0 || (off + m <= MAXBYTES && |Missing(v, off, m)| <= |FreeOf(v)|)
      ensures ok ==> Unchanged(old(ViewOf(ip)), ViewOf(ip))
      ensures ok ==> FilledFor(old(ViewOf(ip)), ViewOf(ip), off, Reach(old(ip.size), off, n))
      ensures ok ==> (blocks == old(blocks) <==> Missing(old(ViewOf(ip)), off, Reach(old(ip.size), off, n)) == {})
      ensures ok && blocks == old(blocks) ==> logged == old(logged) && ip.addrs == old(ip.addrs)
      ensures off > ip.size || off + n >= TWO32 ==> r == -1 && dst == []
      ensures off <= ip.size && off + n < TWO32 && ok ==>
        && r == (if off + n > ip.size then ip.size - off else n) == Reach(old(ip.size), off, n)
        && (r > 0 ==> off + r <= MAXBYTES && dst == Contents(old(ViewOf(ip)), ip.inum, off + r)[off..])
        && (r == 0 ==> dst == [])
      ensures ok && old(Traced()) ==> Traced()
      ensures ok && old(Acts(ip)) ==> Acts(ip)
    {
      hide View.OK, Contents, Add32, Unchanged, Reads, Traced, Missing, FilledFor, Touched, FreeOf, Reach, OthersKept,
          Acts;
      OKIsSized(ViewOf(ip), {});
      Add32Wraps(off, n);
      dst := [];
      ghost var v := ViewOf(ip);
      UnchangedItself(v);
      NothingMissing(v, off);
      ReachIs(ip.size, off, n);
      if off > ip.size || Add32(off, n) < off {
        return true, -1, [];
      }
      var m: nat := n;
      if off + n > ip.size {
        m := ip.size - off;
      }
      var tot := 0;
      ReadsNothing(v, off);
      while tot < m
        invariant tot <= m == Reach(ip.size, off, n) && off + m <= ip.size == v.ino.size && m <= n
        invariant tot == 0 || off + tot <= MAXBYTES
        invariant Unchanged(v, ViewOf(ip)) && ViewOf(ip).OK({}) && FilledFor(v, ViewOf(ip), off, tot)
        invariant Missing(v, off, tot) == {} ==> ViewOf(ip) == v && logged == old(logged)
        invariant (old(Traced()) ==> Traced()) && (old(Acts(ip)) ==> Acts(ip))
        invariant Reads(v, off, dst, tot)
      {
        var k := if m - tot < BSIZE - (off + tot) % BSIZE then m - tot else BSIZE - (off + tot) % BSIZE;
        ghost var u := ViewOf(ip);
        UnchangedSized(v, u);
        MissingNext(v, u, off, tot, k, m);
        var bytes;
        ok, bytes := ReadTurn(ip, off + tot, k);
        if !ok { return false, 0, dst; }
        UnchangedTrans(v, u, ViewOf(ip));
        UnchangedSized(v, ViewOf(ip));
        FilledForMore(v, u, ViewOf(ip), off, tot, k);
        ReadsMore(v, u, off, dst, tot, bytes, k);
        InRangeNext(off + tot, k);
        dst := dst + bytes;
        tot := tot + k;
      }
      r := m;
      ok := true;
      ReadsSlice(v, off, dst, m);
      UnchangedTakes(v, ViewOf(ip), off, m);
    }

    /** One turn of readi's loop: `k` bytes that lie in one block of the file. */
    method ReadTurn(ip: Inode, at: nat, k: nat) returns (ok: bool, bytes: seq<byte>)
      requires ViewOf(ip).OK({}) && 0 < k <= BSIZE - at % BSIZE
      modifies this`blocks, this`logged, this`trace, ip`addrs
      ensures ok <==> at < MAXBYTES && |Missing(old(ViewOf(ip)), at, k)| <= |FreeOf(old(ViewOf(ip)))|
      ensures ok ==> Unchanged(old(ViewOf(ip)), ViewOf(ip)) && Reads(old(ViewOf(ip)), at, bytes, k)
      ensures ok ==> FilledFor(old(ViewOf(ip)), ViewOf(ip), at, k)
      ensures ok && Missing(old(ViewOf(ip)), at, k) == {} ==> ViewOf(ip) == old(ViewOf(ip)) && logged == old(logged)
      ensures ok && old(Traced()) ==> Traced()
      ensures ok && old(Acts(ip)) ==> Acts(ip)
    {
      hide View.OK, View.Ptr, GetInode, UseBit, OthersKept, SlotKept, Byte, Mapped, Traced, Filled, Lacks, FreeOf,
          Touched, Acts;
      ghost var v := ViewOf(ip);
      OKIsSized(v, {});
      TouchedMore(at, 0, k);
      var addr := Bmap(ip, at / BSIZE);
      if addr.None? { return false, []; }
      ghost var u := ViewOf(ip);
      LacksOne(v, at / BSIZE);
      MappedUnchanged(v, u, at / BSIZE, addr.value);
      MappedIsData(v, u, at / BSIZE, addr.value);
      MappedFills(v, u, at / BSIZE, addr.value);
      BlockReads(u, at, k);
      var data := blocks[addr.value];
      bytes := data[at % BSIZE..at % BSIZE + k];
      ReadsSame(v, u, at, bytes, k);
      ok := true;
    }

    /** One turn of writei's loop, on top of `tot` bytes of `src` already written at `off0`: `m` bytes
        that lie in one block. A panic if there are not enough free blocks. */
    method WriteTurn(ip: Inode, off0: nat, src: seq<byte>, tot: nat, m: nat, ghost v0: View) returns (ok: bool)
      requires Written(v0, ViewOf(ip), off0, src, tot) && off0 + tot < MAXBYTES
      requires 0 < m <= |src| - tot && m <= BSIZE - (off0 + tot) % BSIZE
      modifies this`blocks, this`logged, this`trace, ip`addrs
      ensures old(ViewOf(ip)).Sized()
      ensures ok <==> |Missing(old(ViewOf(ip)), off0 + tot, m)| <= |FreeOf(old(ViewOf(ip)))|
      ensures ok ==> ViewOf(ip).Sized() && Written(v0, ViewOf(ip), off0, src, tot + m)
      ensures ok ==> FilledFor(old(ViewOf(ip)), ViewOf(ip), off0 + tot, m) && OthersKept(old(ViewOf(ip)), ViewOf(ip))
      ensures ok ==>
        logged <= old(logged) + MayLogFor(old(ViewOf(ip)), ViewOf(ip), off0 + tot, m)
      ensures ok && old(Traced()) ==> Traced()
      ensures ok && old(Acts(ip)) ==> Acts(ip)
    {
      hide View.OK, View.PointersOK, View.NoSharing, View.Conserved, View.Ptr, Written, Mapped, WriteInto, OthersKept,
          Traced, Filled, Lacks, FreeOf, MayLog, Touched, ActsOn;
      WrittenOK(v0, ViewOf(ip), off0, src, tot);
      var off := off0 + tot;
      TouchedMore(off, 0, m);
      ghost var v := ViewOf(ip);
      var r := Bmap(ip, off / BSIZE);
      if r.None? { return false; }
      ghost var u := ViewOf(ip);
      MappedSized(v, u, off / BSIZE, r.value);
      var data := blocks[r.value];
      WrittenMore(v0, v, u, r.value, off0, src, tot, m);
      TurnFills(v, u, off, r.value, src[tot..tot + m]);
      MappedIsData(v, u, off / BSIZE, r.value);
      WriteActs(first, trace, u, DataSlot(off / BSIZE), WriteInto(data, off % BSIZE, src[tot..tot + m]));
      LogWrite(r.value, WriteInto(data, off % BSIZE, src[tot..tot + m]));
      ok := true;
    }

    /** writei for a file that is not a device: -1, and nothing changed, if `off` lies beyond the end or
        the bytes would end beyond what a file can hold; a panic if there are not enough free blocks. */
    method Writei(ip: Inode, src: seq<byte>, off: uint32) returns (ok: bool, r: int)
      requires ViewOf(ip).OK({}) && ip.size <= MAXBYTES && |src| < TWO32
      modifies this`blocks, this`logged, this`trace, ip`addrs, ip`size
      ensures off > old(ip.size) || off + |src| > MAXBYTES ==>
        ok && r == -1 && Now() == old(Now()) && ip.Copy() == old(ip.Copy())
      ensures off <= old(ip.size) && off + |src| <= MAXBYTES ==>
        (ok <==> |Missing(old(ViewOf(ip)), off, |src|)| <= |FreeOf(old(ViewOf(ip)))|)
      ensures off <= old(ip.size) && off + |src| <= MAXBYTES && ok ==>
        && r == |src| && Spliced(old(ViewOf(ip)), ViewOf(ip), off, src)
        && |logged - old(logged)| <= MaxLogged(old(ViewOf(ip)), off, |src|)
      ensures ok && old(Traced()) ==> Traced()
      ensures ok && old(Acts(ip)) ==> Acts(ip)
    {
      hide View.OK, View.Ptr, Written, Spliced, MaxLogged, Traced, Missing, FreeOf, MayLogFor, FilledFor, LoggedSoFar,
          OthersKept, Acts,
          GetInode, UseBit, Contents, Splice, Touched, Max;
      var n: nat := |src|;
      OKIsSized(ViewOf(ip), {});
      Add32Wraps(off, n);
      if off > ip.size || Add32(off, n) < off {
        return true, -1;
      }
      if Add32(off, n) > MAXBYTES {
        return true, -1;
      }
      ghost var v0 := ViewOf(ip);
      WrittenNothing(v0, off, src);
      LoggedNothing(v0, off, logged);
      var tot := 0;
      while tot < n
        invariant tot <= n && ip.size == old(ip.size) && (old(Traced()) ==> Traced())
        invariant old(Acts(ip)) ==> Acts(ip)
        invariant Written(v0, ViewOf(ip), off, src, tot) && ViewOf(ip).Sized()
        invariant LoggedSoFar(v0, ViewOf(ip), off, tot, old(logged), logged)
      {
        var m := if n - tot < BSIZE - (off + tot) % BSIZE then n - tot else BSIZE - (off + tot) % BSIZE;
        ghost var v, before := ViewOf(ip), logged;
        WrittenFills(v0, v, off, src, tot);
        MissingNext(v0, v, off, tot, m, n);
        ok := WriteTurn(ip, off, src, tot, m, v0);
        if !ok { return false, 0; }
        WrittenFills(v0, ViewOf(ip), off, src, tot + m);
        LoggedNext(v0, v, ViewOf(ip), off, tot, m, old(logged), before, logged);
        tot := tot + m;
      }
      WriteEnd(ip, src, off, v0, old(logged));
      return true, n;
    }

    /** The end of writei: if the file grew, the inode is written back. */
    method WriteEnd(ip: Inode, src: seq<byte>, off: uint32, ghost v0: View, ghost logged0: set<nat>)
      requires Written(v0, ViewOf(ip), off, src, |src|) && off <= ip.size == v0.ino.size
      requires LoggedSoFar(v0, ViewOf(ip), off, |src|, logged0, logged)
      modifies this`blocks, this`logged, this`trace, ip`size
      ensures Spliced(v0, ViewOf(ip), off, src)
      ensures v0.Sized() && |Missing(v0, off, |src|)| <= |FreeOf(v0)|
      ensures |logged - logged0| <= MaxLogged(v0, off, |src|)
      ensures old(Traced()) ==> Traced()
      ensures old(Acts(ip)) ==> Acts(ip)
    {
      hide View.OK, View.Ptr, Written, Spliced, UseBit, PutInode, Traced, SameBytes, GetInode, Missing, FreeOf,
          MaxLogged, LoggedSoFar, ActsOn;
      ghost var u := ViewOf(ip);
      WrittenOK(v0, u, off, src, |src|);
      WrittenTakes(v0, u, off, src, |src|);
      LoggedAtEnd(v0, u, off, src, logged0, logged, sb.IBlock(ip.inum));
      if |src| > 0 && off + |src| > ip.size {
        SplicedBeyond(v0, u, off, src);
        ip.size := off + |src|;
        UpdateActs(first, trace, ViewOf(ip), u.ino);
        Iupdate(ip);
      } else {
        SplicedInside(v0, u, off, src);
      }
    }

    /** The bitmap blocks. */
    ghost function Maps(): set<nat>
    {
      set x: nat | x < sb.size :: sb.BBlock(x)
    }

    /** itrunc for the direct blocks of the file that `v` shows. */
    method TruncDirect(ip: Inode, ghost v: View)
      requires v == ViewOf(ip) && v.OK({})
      modifies this`blocks, this`logged, this`trace, ip`addrs
      ensures Freed(v, blocks, Gone(v, NDIRECT)) && |blocks| == sb.size
      ensures forall j | 0 <= j < NADDRS :: ip.addrs[j] == if j < NDIRECT then 0 else v.ino.addrs[j]
      ensures logged <= old(logged) + Maps() && (old(Traced()) ==> Traced()) && (old(Acts(ip)) ==> Acts(ip))
    {
      hide Unmarks, View.OK, View.Ptr, View.InUse, UseBit, Freed, Gone, Traced, ActsOn;
      OKIsSized(v, {});
      FreedNothing(v);
      var i := 0;
      while i < NDIRECT
        invariant i <= NDIRECT && Freed(v, blocks, Gone(v, i)) && |blocks| == sb.size
        invariant forall j | 0 <= j < NADDRS :: ip.addrs[j] == if j < i then 0 else v.ino.addrs[j]
        invariant logged <= old(logged) + Maps() && (old(Traced()) ==> Traced()) && (old(Acts(ip)) ==> Acts(ip))
      {
        OrderIs(v, i);
        FreeNext(v, blocks, i);
        if ip.addrs[i] != 0 {
          MetadataApart(v, v.inum, ip.addrs[i]);
          DirectActs(first, trace, ViewOf(ip), i);
          var ok := Bfree(ip.addrs[i]);
          assert ok;
          ip.addrs := ip.addrs[i := 0];
        }
        i := i + 1;
      }
    }

    /** itrunc for the blocks behind the indirect block, and that block itself. */
    method TruncIndirect(ip: Inode, ghost v: View)
      requires v.OK({}) && v.sb == sb && v.inum == ip.inum
      requires Freed(v, blocks, Gone(v, NDIRECT)) && |blocks| == sb.size
      requires forall j | 0 <= j < NADDRS :: ip.addrs[j] == if j < NDIRECT then 0 else v.ino.addrs[j]
      modifies this`blocks, this`logged, this`trace, ip`addrs
      ensures Freed(v, blocks, Gone(v, MAXFILE + 1)) && |blocks| == sb.size
      ensures forall j | 0 <= j < NADDRS :: ip.addrs[j] == 0
      ensures logged <= old(logged) + Maps() && (old(Traced()) ==> Traced()) && (old(Acts(ip)) ==> Acts(ip))
    {
      hide Unmarks, View.OK, View.Ptr, View.InUse, UseBit, Freed, Gone, Traced, ActsOn, DropsOn;
      OKIsSized(v, {});
      if ip.addrs[NDIRECT] != 0 {
        var at: nat := ip.addrs[NDIRECT];
        IndirectKept(v, blocks, Gone(v, NDIRECT));
        var a := blocks[at];
        DropsNone(first, trace, ViewOf(ip), a);
        var j := 0;
        while j < NINDIRECT
          invariant j <= NINDIRECT && Freed(v, blocks, Gone(v, NDIRECT + j)) && |blocks| == sb.size && blocks[at] == a
          invariant logged <= old(logged) + Maps() && (old(Traced()) ==> Traced()) && ip.addrs == old(ip.addrs)
          invariant old(Acts(ip)) ==> DropsOn(first, trace, ViewOf(ip), a, j)
        {
          OrderIs(v, NDIRECT + j);
          FreeNext(v, blocks, NDIRECT + j);
          if GetU32(a, j) == 0 {
            DropSkips(first, trace, ViewOf(ip), a, j);
          } else {
            MetadataApart(v, v.inum, GetU32(a, j));
            DropActs(first, trace, ViewOf(ip), a, j);
            var ok := Bfree(GetU32(a, j));
            assert ok;
          }
          j := j + 1;
        }
        OrderIs(v, MAXFILE);
        FreeNext(v, blocks, MAXFILE);
        MetadataApart(v, v.inum, at);
        IndirectActs(first, trace, ViewOf(ip), a);
        var ok := Bfree(at);
        assert ok;
        ip.addrs := ip.addrs[NDIRECT := 0];
      } else {
        NoIndirect(v, MAXFILE + 1);
      }
    }

    /** itrunc: all blocks of the file are freed; bfree's panic ("freeing free block") cannot happen. */
    method Itrunc(ip: Inode)
      requires ViewOf(ip).OK({})
      modifies this`blocks, this`logged, this`trace, ip`addrs, ip`size
      ensures Truncated(old(ViewOf(ip)), ViewOf(ip))
      ensures logged <= old(logged) + (set x: nat | x < sb.size :: sb.BBlock(x)) + {sb.IBlock(ip.inum)}
      ensures old(Traced()) ==> Traced()
      ensures old(Acts(ip)) ==> Acts(ip)
    {
      hide View.OK, View.Ptr, View.InUse, UseBit, Freed, Gone, Truncated, PutInode, Traced, ActsOn;
      ghost var v := ViewOf(ip);
      OKIsSized(v, {});
      TruncDirect(ip, v);
      TruncIndirect(ip, v);
      ghost var d := ip.Copy();
      ip.size := 0;
      AllZero(ip.addrs);
      TruncatedBy(v, blocks);
      ghost var x := ViewOf(ip);
      assert x == Emptied(v, blocks);
      UpdateActs(first, trace, x, d);
      Iupdate(ip);
      assert ViewOf(ip) == Iupdated(x);
    }
  }
}
