/** The image builder (mkfs.c), and its agreement with the kernel that reads the image. */
module Mkfs {
  import opened Words
  import opened Bio
  import opened FsFormat
  import opened Ownership
  import opened Supply
  import opened Content
  import opened Truncate
  import opened RawDisk
  import opened DiskLayout
  import Fs

  const ROOTINO: nat := 1

  /** The superblock that main makes: the log from block 2 on, then the inodes and the bitmap. */
  function LaidOut(fssize: nat, ninodes: nat, nlog: nat): Superblock {
    Superblock(fssize, ninodes, 2 + nlog, 2 + nlog + (ninodes / IPB + 1))
  }

  /** The disk seen from inode `i`. */
  function At(sb: Superblock, blocks: Image, i: nat): View
    requires sb.OK() && |blocks| == sb.size && i < sb.ninodes
  {
    View(sb, blocks, i, GetInode(blocks[sb.IBlock(i)], i % IPB))
  }

  /** The file of `v` has the bytes `c`, no block beyond them, and zeroes behind them. */
  ghost predicate Holds(v: View, c: seq<byte>) {
    && v.OK({}) && |c| <= MAXBYTES && Present(v, |c|) && Bytes(v, c)
  }

  ghost predicate Bytes(v: View, c: seq<byte>) {
    v.Sized() && forall k | 0 <= k < MAXBYTES :: Byte(v, v.inum, k) == if k < |c| then c[k] else 0
  }

  lemma SameBytesHold(v: View, w: View, c: seq<byte>)
    requires Bytes(v, c) && SameBytes(v, w)
    ensures Bytes(w, c)
  {
    hide Byte;
  }

  /** What a reader gets from the `len` bytes of such a file. */
  lemma HeldContents(v: View, c: seq<byte>, len: nat)
    requires Bytes(v, c) && len <= MAXBYTES
    ensures Contents(v, v.inum, len) == Padded(c, len)
  {
    hide Byte;
  }

  /** The first `len` bytes of `c` with zeroes behind. */
  function Padded(c: seq<byte>, len: nat): (r: seq<byte>)
    ensures |r| == len && forall k | 0 <= k < len :: r[k] == if k < |c| then c[k] else 0
  {
    seq(len, k requires 0 <= k < len => if k < |c| then c[k] else 0)
  }

  lemma HoldsOK(v: View, c: seq<byte>)
    requires Holds(v, c)
    ensures v.Sized() && v.OK({})
  {
  }

  /** As far as files are concerned, it does not matter from which inode one looks. */
  lemma Elsewhere(v: View, i: nat)
    requires v.OK({}) && v.ino == v.InodeOnDisk(v.inum) && i < v.sb.ninodes
    ensures At(v.sb, v.blocks, i).OK({}) && SamePtrs(v, At(v.sb, v.blocks, i))
  {
    hide GetInode;
    var w := At(v.sb, v.blocks, i);
    assert forall j: nat | j < v.sb.ninodes :: w.Inode(j) == v.Inode(j);
    SamePtrsKeepsOK(v, w, {}, {});
  }

  /** A change that keeps the other files keeps this one. */
  lemma OthersHold(v: View, w: View, i: nat, c: seq<byte>)
    requires v.OK({}) && v.ino == v.InodeOnDisk(v.inum) && w.OK({}) && w.ino == w.InodeOnDisk(w.inum)
    requires OthersKept(v, w) && i < v.sb.ninodes && i != v.inum && Holds(At(v.sb, v.blocks, i), c)
    ensures Holds(At(w.sb, w.blocks, i), c)
    ensures At(w.sb, w.blocks, i).ino == At(v.sb, v.blocks, i).ino
  {
    hide View.PointersOK, View.NoSharing, View.Conserved, GetInode, View.Ptr;
    var v', w' := At(v.sb, v.blocks, i), At(w.sb, w.blocks, i);
    Elsewhere(v, i);
    Elsewhere(w, i);
    assert v.InodeOnDisk(i) == w.InodeOnDisk(i);
    forall k: nat | k < NSLOTS
      ensures w'.Ptr(i, k) == v'.Ptr(i, k)
      ensures 0 < v'.Ptr(i, k) < |v.blocks| ==> w'.blocks[v'.Ptr(i, k)] == v'.blocks[v'.Ptr(i, k)]
    {
      assert v.IsSlot(i, k);
    }
    hide SamePtrs, OthersKept;
    assert forall bn | 0 <= bn < MAXFILE :: Data(w', i, bn) == Data(v', i, bn);
    assert forall k | 0 <= k < MAXBYTES :: Byte(w', i, k) == Byte(v', i, k);
  }

  /** The inode is rewritten with the same pointers. */
  lemma Rewritten(v: View, d: Dinode, c: seq<byte>)
    requires Holds(v, c) && d.addrs == v.ino.addrs
    ensures v.sb.IBlock(v.inum) < |v.blocks|
    ensures var w := Iupdated(v.(ino := d));
            Holds(w, c) && w.ino == w.InodeOnDisk(w.inum) == d && OthersKept(v, w)
  {
    var x := v.(ino := d);
    assert SamePtrs(v, x);
    SamePtrsKeepsOK(v, x, {}, {});
    SameFile(v, x, |c|);
    OthersByPtrs(v, x);
    IupdateKeeps(x, |c|);
    hide OthersKept, View.PointersOK, View.NoSharing, View.Conserved, View.Ptr, Present, SameBytes, GetInode, PutInode;
    OthersKeptTrans(v, x, Iupdated(x));
    SameBytesHold(v, x, c);
    SameBytesHold(x, Iupdated(x), c);
  }

  /** The size of file `i`: in the end, the root directory's is rounded up. */
  function FileSize(files: seq<seq<byte>>, rounded: bool, i: nat): nat
    requires i < |files|
  {
    if rounded && i == ROOTINO then RoundedSize(|files[i]|) else |files[i]|
  }

  function RoundedSize(size: nat): nat {
    (size / BSIZE + 1) * BSIZE
  }

  lemma RoundedUp(size: nat)
    ensures RoundedSize(size) % 512 == 0 && size < RoundedSize(size) <= size + 512
    ensures size <= MAXBYTES ==> RoundedSize(size) <= MAXBYTES + 512
  {
  }

  /** The image holds the files; those from `freeinode` on are not made yet. */
  ghost predicate FilesOK(sb: Superblock, blocks: Image, files: seq<seq<byte>>, freeinode: nat, rounded: bool) {
    && sb.OK() && |blocks| == sb.size && 1 <= freeinode <= sb.ninodes == |files|
    && (rounded ==> ROOTINO < freeinode)
    && (forall i: nat | i < sb.ninodes :: FileOK(sb, blocks, files, rounded, i))
    && (forall i: nat | freeinode <= i < sb.ninodes :: At(sb, blocks, i).ino.addrs == NoAddrs() && files[i] == [])
  }

  ghost predicate FileOK(sb: Superblock, blocks: Image, files: seq<seq<byte>>, rounded: bool, i: nat) {
    && sb.OK() && |blocks| == sb.size && i < sb.ninodes == |files|
    && Holds(At(sb, blocks, i), files[i]) && At(sb, blocks, i).ino.size == FileSize(files, rounded, i)
  }

  lemma TheFile(sb: Superblock, blocks: Image, files: seq<seq<byte>>, freeinode: nat, rounded: bool, i: nat)
    requires FilesOK(sb, blocks, files, freeinode, rounded) && i < sb.ninodes
    ensures Holds(At(sb, blocks, i), files[i]) && At(sb, blocks, i).ino.size == FileSize(files, rounded, i)
    ensures At(sb, blocks, i).ino == At(sb, blocks, i).InodeOnDisk(i) && |files[i]| <= MAXBYTES
    ensures i >= freeinode ==> At(sb, blocks, i).ino.addrs == NoAddrs() && files[i] == []
  {
    assert FileOK(sb, blocks, files, rounded, i);
    hide GetInode, View.PointersOK, View.NoSharing, View.Conserved, View.Ptr;
  }

  /** One file changed. */
  lemma FileChanged(v: View, w: View, files: seq<seq<byte>>, freeinode: nat, freeinode': nat, rounded: bool,
                    rounded': bool, c: seq<byte>)
    requires FilesOK(v.sb, v.blocks, files, freeinode, rounded)
    requires v.inum < v.sb.ninodes && v == At(v.sb, v.blocks, v.inum)
    requires Holds(w, c) && w.ino == w.InodeOnDisk(w.inum) && OthersKept(v, w)
    requires freeinode <= freeinode' <= v.sb.ninodes && v.inum < freeinode'
    requires rounded' == (rounded || (v.inum == ROOTINO && rounded'))
    requires w.ino.size == FileSize(files[v.inum := c], rounded', v.inum)
    ensures FilesOK(v.sb, w.blocks, files[v.inum := c], freeinode', rounded')
  {
    hide Holds, GetInode;
    OthersInode(v, w);
    HoldsOK(w, c);
    forall i: nat | i < v.sb.ninodes
      ensures FileOK(v.sb, w.blocks, files[v.inum := c], rounded', i)
      ensures i >= freeinode' ==> At(v.sb, w.blocks, i).ino.addrs == NoAddrs()
    {
      assert FileOK(v.sb, v.blocks, files, rounded, i);
      FileKept(v, w, files, rounded, i);
    }
  }

  lemma FileKept(v: View, w: View, files: seq<seq<byte>>, rounded: bool, i: nat)
    requires FileOK(v.sb, v.blocks, files, rounded, i) && FileOK(v.sb, v.blocks, files, rounded, v.inum)
    requires v == At(v.sb, v.blocks, v.inum) && w.OK({}) && w.ino == w.InodeOnDisk(w.inum) && OthersKept(v, w)
    ensures w.sb == v.sb && w.inum == v.inum && w == At(w.sb, w.blocks, w.inum)
    ensures i != v.inum ==>
        && Holds(At(w.sb, w.blocks, i), files[i]) && At(w.sb, w.blocks, i).ino == At(v.sb, v.blocks, i).ino
  {
    HoldsOK(v, files[v.inum]);
    hide Holds, GetInode, View.PointersOK, View.NoSharing, View.Conserved;
    if i != v.inum { OthersHold(v, w, i, files[i]); }
  }

  lemma OthersInode(v: View, w: View)
    requires OthersKept(v, w)
    ensures w.sb == v.sb && w.inum == v.inum
  {
  }

  // ---- the blocks in use are those before freeblock ----

  /** Nothing is written before the inodes, but for the superblock (block 1), so the log starts out empty. */
  predicate Unwritten(sb: Superblock, img: Image) {
    forall b | 0 <= b < sb.inodestart && b < |img| && b != 1 :: img[b] == ZeroBlock()
  }

  /** `img` is what is written so far, its bitmap still blank; `virt` is the same with the blocks before
      `fb` marked in the bitmap. */
  ghost predicate Synced(sb: Superblock, img: Image, virt: Image, fb: nat) {
    && sb.OK() && |img| == |virt| == sb.size && sb.DataStart() <= fb <= sb.size && Unwritten(sb, img)
    && (forall b | 0 <= b < sb.size && !(sb.bmapstart <= b < sb.DataStart()) :: img[b] == virt[b])
    && (forall b | sb.bmapstart <= b < sb.DataStart() || fb <= b < sb.size :: img[b] == ZeroBlock())
    && (forall x | 0 <= x < sb.size :: UseBit(sb, virt, x) <==> x < fb)
  }

  lemma SyncedSizes(sb: Superblock, img: Image, virt: Image, fb: nat)
    requires Synced(sb, img, virt, fb)
    ensures sb.OK() && |img| == |virt| == sb.size && sb.DataStart() <= fb <= sb.size
  {
  }

  function Interval(a: nat, b: nat): (r: set<nat>)
    ensures forall x: nat :: x in r <==> a <= x < b
    ensures |r| == if a < b then b - a else 0
    decreases b
  {
    if a < b then Interval(a, b - 1) + {b - 1} else {}
  }

  /** How many blocks are left. */
  lemma SyncedFree(v: View, img: Image, fb: nat)
    requires v.Sized() && Synced(v.sb, img, v.blocks, fb)
    ensures |FreeOf(v)| == v.sb.size - fb
  {
    hide UseBit;
    assert FreeOf(v) == Interval(fb, v.sb.size);
  }

  lemma SyncedWrite(sb: Superblock, img: Image, virt: Image, fb: nat, b: nat, data: Block)
    requires Synced(sb, img, virt, fb) && sb.inodestart <= b < fb && !(sb.bmapstart <= b < sb.DataStart())
    ensures Synced(sb, img[b := data], virt[b := data], fb)
  {
    hide UseBit;
    var w := virt[b := data];
    forall x: nat | x < sb.size
      ensures UseBit(sb, w, x) <==> x < fb
    {
      SameBit(sb, virt, b, data, x);
      assert UseBit(sb, virt, x) <==> x < fb;
    }
  }

  lemma SameBit(sb: Superblock, blocks: Image, b: nat, data: Block, x: nat)
    requires sb.OK() && |blocks| == sb.size && x < sb.size && b < sb.size && !(sb.bmapstart <= b < sb.DataStart())
    ensures UseBit(sb, blocks[b := data], x) == UseBit(sb, blocks, x)
  {
    assert sb.bmapstart <= sb.BBlock(x) < sb.DataStart();
  }

  /** `freeblock++` is balloc on the marked image. */
  lemma SyncedTake(v: View, img: Image, fb: nat)
    requires v.OK({}) && Synced(v.sb, img, v.blocks, fb) && fb < v.sb.size
    ensures !v.InUse(fb) && v.sb.BBlock(fb) < |v.blocks| && Synced(v.sb, img, Alloc(v, fb).blocks, fb + 1)
  {
    hide View.OK, MapBit, WithMapBit, UseBit;
    var sb, at := v.sb, v.sb.BBlock(fb);
    assert UseBit(sb, v.blocks, fb) <==> fb < fb;
    MarkOne(sb, v.blocks, fb);
    var m := v.blocks[at := WithMapBit(v.blocks[at], fb % BPB, true)];
    var w := m[fb := ZeroBlock()];
    forall x: nat | x < sb.size
      ensures UseBit(sb, w, x) <==> x < fb + 1
    {
      SameBit(sb, m, fb, ZeroBlock(), x);
      assert UseBit(sb, v.blocks, x) <==> x < fb;
    }
  }

  /** The image with the first `n` bits of the bitmap set. */
  ghost function Marked(sb: Superblock, img: Image, n: nat): (r: Image)
    requires sb.OK() && |img| == sb.size && n <= sb.size
    requires forall x | 0 <= x < sb.size :: !UseBit(sb, img, x)
    ensures |r| == |img| && forall b | 0 <= b < sb.size && !(sb.bmapstart <= b < sb.DataStart()) :: r[b] == img[b]
    ensures forall x | 0 <= x < sb.size :: UseBit(sb, r, x) <==> x < n
  {
    if n == 0 then img
    else
      var m, at := Marked(sb, img, n - 1), sb.BBlock(n - 1);
      MarkOne(sb, m, n - 1);
      m[at := WithMapBit(m[at], (n - 1) % BPB, true)]
  }

  lemma MarkOne(sb: Superblock, m: Image, n: nat)
    requires sb.OK() && |m| == sb.size && n < sb.size
    ensures sb.bmapstart <= sb.BBlock(n) < sb.DataStart()
    ensures var r := m[sb.BBlock(n) := WithMapBit(m[sb.BBlock(n)], n % BPB, true)];
            forall x | 0 <= x < sb.size :: UseBit(sb, r, x) <==> x == n || UseBit(sb, m, x)
  {
    hide MapBit, WithMapBit;
    forall x: nat | x < sb.size && sb.BBlock(x) == sb.BBlock(n)
      ensures MapBit(WithMapBit(m[sb.BBlock(n)], n % BPB, true), x % BPB) <==> x == n || UseBit(sb, m, x)
    {
      MapBitUpdate(m[sb.BBlock(n)], n % BPB, true, x % BPB);
    }
  }

  /** Two images with the same bits and the same other blocks hold the same files. */
  lemma SameBits(v: View, w: View, c: seq<byte>)
    requires Holds(v, c) && w == v.(blocks := w.blocks) && |w.blocks| == |v.blocks|
    requires forall b | 0 <= b < |v.blocks| && !(v.sb.bmapstart <= b < v.sb.DataStart()) :: w.blocks[b] == v.blocks[b]
    requires forall x | 0 <= x < v.sb.size :: UseBit(w.sb, w.blocks, x) <==> v.InUse(x)
    ensures Holds(w, c)
  {
    hide View.Conserved, View.NoSharing, GetInode, MapBit;
    forall i: nat, k: nat | v.IsSlot(i, k)
      ensures w.Ptr(i, k) == v.Ptr(i, k)
    {
      MetadataApart(v, i, 0);
      assert v.IsSlot(i, INDIRECT);
    }
    SamePtrsKeepsOK(v, w, {}, {});
    SameFile(v, w, |c|);
    SameBytesHold(v, w, c);
  }

  /** The marked image before the first file. */
  ghost function Formatted(sb: Superblock, img: Image): (r: Image)
    requires sb.OK() && |img| == sb.size && forall b | 0 <= b < sb.size :: img[b] == ZeroBlock()
    ensures Synced(sb, img, r, sb.DataStart())
  {
    NoBits(sb, img);
    Marked(sb, img, sb.DataStart())
  }

  lemma FormattedHolds(sb: Superblock, img: Image, virt: Image, i: nat)
    requires Synced(sb, img, virt, sb.DataStart()) && i < sb.ninodes
    requires forall b | 0 <= b < sb.size :: img[b] == ZeroBlock()
    ensures At(sb, virt, i).ino == Dinode(0, 0, 0, 0, 0, NoAddrs())
    ensures Holds(At(sb, virt, i), [])
  {
    hide GetU32, UseBit;
    var v := At(sb, virt, i);
    forall j: nat | j < sb.ninodes
      ensures v.Inode(j) == Dinode(0, 0, 0, 0, 0, NoAddrs())
    {
      MetadataApart(v, j, 0);
      ZeroInode(j % IPB);
    }
    forall j: nat, k: nat | v.IsSlot(j, k)
      ensures v.Ptr(j, k) == 0
    {
    }
    NoFile(v);
  }

  lemma NoFile(v: View)
    requires v.Sized() && forall j: nat, k: nat | v.IsSlot(j, k) :: v.Ptr(j, k) == 0
    requires forall x | 0 <= x < v.sb.size :: v.InUse(x) <==> x < v.sb.DataStart()
    ensures Holds(v, [])
  {
    hide View.Ptr, View.InUse;
    assert forall k | 0 <= k < NSLOTS :: v.IsSlot(v.inum, k);
  }

  lemma ZeroInode(k: nat)
    requires k < IPB
    ensures GetInode(ZeroBlock(), k) == Dinode(0, 0, 0, 0, 0, NoAddrs())
  {
    forall w: nat | w < INODE_WORDS
      ensures SlotWord(ZeroBlock(), k, w) == 0
    {
      ZeroBlockWords(k * INODE_WORDS + w);
    }
    hide SlotWord;
    assert SlotAddrs(ZeroBlock(), k, NADDRS) == NoAddrs();
  }

  lemma NoBits(sb: Superblock, img: Image)
    requires sb.OK() && |img| == sb.size && forall b | 0 <= b < sb.size :: img[b] == ZeroBlock()
    ensures forall x | 0 <= x < sb.size :: !UseBit(sb, img, x)
  {
    forall x | 0 <= x < sb.size
      ensures !UseBit(sb, img, x)
    {
      ZeroBits(x % BPB % 8);
    }
  }

  /** A block that a file owns was handed out before. */
  lemma OwnedIsUsed(v: View, img: Image, fb: nat, k: nat)
    requires v.OK({}) && Synced(v.sb, img, v.blocks, fb) && k < NSLOTS && v.Ptr(v.inum, k) != 0
    ensures v.sb.DataStart() <= v.Ptr(v.inum, k) < fb && img[v.Ptr(v.inum, k)] == v.blocks[v.Ptr(v.inum, k)]
    ensures v.sb.inodestart <= v.sb.DataStart()
  {
    hide UseBit, View.Ptr;
    assert v.IsSlot(v.inum, k);
  }

  /** The part of `n` bytes that a file of size `size` can still take. */
  function Room(size: nat, n: nat): (r: nat)
    requires size <= MAXBYTES
    ensures r <= n
  {
    if size + n <= MAXBYTES then n else MAXBYTES - size
  }

  lemma AppendStart(v: View, img: Image, fb: nat, c: seq<byte>, p: seq<byte>)
    requires Holds(v, c) && Synced(v.sb, img, v.blocks, fb) && v.ino == v.InodeOnDisk(v.inum) && v.ino.size == |c|
    ensures v.sb.IBlock(v.inum) < |img| && GetInode(img[v.sb.IBlock(v.inum)], v.inum % IPB) == v.ino
    ensures |c| <= MAXBYTES && Written(v, v, |c|, p[..Room(|c|, |p|)], 0)
  {
    hide View.PointersOK, View.NoSharing, View.Conserved, View.Ptr, GetInode, UseBit, Written, Present, Contents;
    WrittenNothing(v, |c|, p[..Room(|c|, |p|)]);
  }

  /** The bytes of one turn: they fit the block and the room that is left. */
  lemma InBlock(off: nat, left: nat, n1: int, p: seq<byte>, src: seq<byte>, pos: nat)
    requires off < MAXBYTES && pos <= |src| && left == |p| - pos > 0
    requires n1 == if left < (off / BSIZE + 1) * BSIZE - off then left else (off / BSIZE + 1) * BSIZE - off
    requires off >= pos && src == p[..Room(off - pos, |p|)] && off - pos <= MAXBYTES
    ensures 0 < n1 <= |src| - pos && n1 <= BSIZE - off % BSIZE && off - off / BSIZE * BSIZE == off % BSIZE
    ensures src[pos..pos + n1] == p[pos..pos + n1]
  {
    assert off - off / BSIZE * BSIZE == off % BSIZE;
    assert (off / BSIZE + 1) * BSIZE <= MAXBYTES;
    SliceOfPrefix(p, |src|, pos, pos + n1);
  }

  lemma SliceOfPrefix<T>(s: seq<T>, n: nat, a: nat, b: nat)
    requires a <= b <= n <= |s|
    ensures s[..n][a..b] == s[a..b]
  {
  }

  lemma MappedIsUsed(v: View, u: View, img: Image, fb: nat, bn: nat, addr: nat)
    requires Mapped(v, u, bn, addr) && Synced(u.sb, img, u.blocks, fb)
    ensures u.sb.DataStart() <= addr < fb <= |img| && |u.blocks| == |img| && img[addr] == u.blocks[addr]
  {
    hide UseBit, View.Ptr, View.PointersOK, View.NoSharing, View.Conserved, OthersKept, SlotKept, Synced,
        View.InodeOnDisk;
    SyncedSizes(u.sb, img, u.blocks, fb);
    OwnedIsUsed(u, img, fb, DataSlot(bn));
  }

  /** What one turn of iappend writes. */
  lemma TurnWritten(v0: View, v: View, u: View, img: Image, fb: nat, addr: nat, off: nat, n1: int, p: seq<byte>,
                    src: seq<byte>, pos: nat)
    requires off < MAXBYTES && pos <= |src| && pos < |p| && pos <= off && off - pos <= MAXBYTES
    requires src == p[..Room(off - pos, |p|)] && Written(v0, v, off - pos, src, pos)
    requires Mapped(v, u, off / BSIZE, addr) && Synced(u.sb, img, u.blocks, fb)
    requires n1 == if |p| - pos < (off / BSIZE + 1) * BSIZE - off then |p| - pos else (off / BSIZE + 1) * BSIZE - off
    ensures u.sb.DataStart() <= addr < fb <= |img| && |u.blocks| == |img| && img[addr] == u.blocks[addr]
    ensures 0 < n1 <= |p| - pos && pos + n1 <= |src| && 0 <= off - off / BSIZE * BSIZE && n1 + (off - off / BSIZE * BSIZE) <= BSIZE
    ensures Written(v0, WithBlock(u, addr, WriteInto(img[addr], off - off / BSIZE * BSIZE, p[pos..pos + n1])), off - pos,
        src, pos + n1)
  {
    hide View.OK, Written, Synced, WriteInto, Mapped, WithBlock, Room;
    MappedIsUsed(v, u, img, fb, off / BSIZE, addr);
    InBlock(off, |p| - pos, n1, p, src, pos);
    WrittenMore(v0, v, u, addr, off - pos, src, pos, n1);
  }

  /** What a file holds after all bytes are appended, before the inode is written. */
  lemma AppendHolds(v0: View, u: View, c: seq<byte>, p: seq<byte>)
    requires Holds(v0, c) && v0.ino.size == |c| && Written(v0, u, |c|, p, |p|)
    ensures Holds(u, c + p)
  {
    FilledPresent(v0, u, |c|, |p|);
    hide View.PointersOK, View.NoSharing, View.Conserved, View.Ptr, GetInode, OthersKept, Present, Byte, FilledFor;
    assert Max(|c|, |c| + |p|) == |c + p|;
  }

  lemma IupdatedView(u: View, size: uint32)
    requires var x := u.(ino := u.ino.(size := size)); x.Sized() && x.sb.IBlock(x.inum) < |x.blocks|
    ensures var x := u.(ino := u.ino.(size := size));
            Iupdated(x) == View(u.sb, Iupdated(x).blocks, u.inum, u.ino.(size := size))
  {
  }

  /** What it holds after the inode is written. */
  lemma AppendEnd(v0: View, u: View, c: seq<byte>, p: seq<byte>, src: seq<byte>)
    requires Holds(v0, c) && v0.ino == v0.InodeOnDisk(v0.inum) && v0.ino.size == |c|
    requires |p| <= |src| && src == p[..Room(|c|, |p|)] && Written(v0, u, |c|, src, |p|)
    ensures |c| + |p| <= MAXBYTES
    ensures var x := u.(ino := u.ino.(size := |c| + |p|));
            && x.Sized() && x.sb.IBlock(x.inum) < |x.blocks|
            && var w := Iupdated(x);
               Holds(w, c + p) && w.ino == w.InodeOnDisk(w.inum) && w.ino.size == |c + p| && OthersKept(v0, w)
                   && w.sb == v0.sb && w.inum == v0.inum
  {
    assert src == p;
    AppendHolds(v0, u, c, p);
    OthersInode(v0, u);
    hide View.PointersOK, View.NoSharing, View.Conserved, View.Ptr, GetInode, OthersKept, Present, Bytes, Byte,
        PutInode;
    Rewritten(u, u.ino.(size := |c| + |p|), c + p);
    OthersKeptTrans(v0, u, Iupdated(u.(ino := u.ino.(size := |c| + |p|))));
  }

  lemma RoundedHole(v: View, c: seq<byte>)
    requires Holds(v, c)
    ensures Present(v, RoundedSize(|c|)) <==> |c| % BSIZE != 0 || |c| == MAXBYTES
  {
    hide View.PointersOK, View.NoSharing, View.Conserved, View.Ptr;
    var up := RoundedSize(|c|);
    if |c| % BSIZE == 0 && |c| < MAXBYTES {
      var bn := |c| / BSIZE;
      assert Data(v, v.inum, bn) == 0 && bn * BSIZE < up;
    } else {
      forall bn | 0 <= bn < MAXFILE
        ensures bn * BSIZE < up <==> bn * BSIZE < |c|
      {
        assert bn * BSIZE < up ==> bn <= |c| / BSIZE;
      }
    }
  }

  lemma NoBit(x: nat)
    requires x < BPB
    ensures !MapBit(ZeroBlock(), x)
  {
    ZeroBits(x % 8);
  }

  /** The bits of the finished bitmap block. */
  lemma BitmapBits(sb: Superblock, img: Image, fb: nat, buf: Block, x: nat)
    requires sb.OK() && |img| == sb.size && x < sb.size && fb < BPB
    requires forall b | sb.bmapstart <= b < sb.DataStart() :: img[b] == ZeroBlock()
    requires forall y: nat | y < BPB :: MapBit(buf, y) <==> y < fb
    ensures sb.bmapstart < |img|
    ensures UseBit(sb, img[sb.bmapstart := buf], x) <==> x < fb
  {
    hide MapBit;
    NoBit(x % BPB);
  }

  lemma BuiltBits(sb: Superblock, img: Image, virt: Image, fb: nat, buf: Block)
    requires Synced(sb, img, virt, fb) && fb < BPB
    requires forall y: nat | y < BPB :: MapBit(buf, y) <==> y < fb
    ensures sb.bmapstart < |img| && Unwritten(sb, img[sb.bmapstart := buf])
    ensures var w := img[sb.bmapstart := buf]; forall x | 0 <= x < sb.size :: UseBit(sb, w, x) <==> x < fb
  {
    hide MapBit, UseBit;
    assert sb.bmapstart < |img|;
    var w := img[sb.bmapstart := buf];
    forall x: nat | x < sb.size
      ensures UseBit(sb, w, x) <==> x < fb
    {
      BitmapBits(sb, img, fb, buf, x);
    }
  }

  lemma BuiltFile(sb: Superblock, img: Image, virt: Image, fb: nat, buf: Block, i: nat, c: seq<byte>)
    requires Synced(sb, img, virt, fb) && sb.bmapstart < |img| && i < sb.ninodes && Holds(At(sb, virt, i), c)
    requires var w := img[sb.bmapstart := buf]; forall x | 0 <= x < sb.size :: UseBit(sb, w, x) <==> x < fb
    ensures var w := img[sb.bmapstart := buf];
            Holds(At(sb, w, i), c) && At(sb, w, i).ino == At(sb, virt, i).ino
  {
    hide Holds, GetInode, UseBit;
    MetadataApart(At(sb, virt, i), i, 0);
    SameBits(At(sb, virt, i), At(sb, img[sb.bmapstart := buf], i), c);
  }

  lemma BuiltFiles(sb: Superblock, img: Image, virt: Image, fb: nat, buf: Block, files: seq<seq<byte>>,
                   freeinode: nat, rounded: bool)
    requires Synced(sb, img, virt, fb) && FilesOK(sb, virt, files, freeinode, rounded)
    requires sb.bmapstart < |img|
    requires var w := img[sb.bmapstart := buf]; forall x | 0 <= x < sb.size :: UseBit(sb, w, x) <==> x < fb
    ensures FilesOK(sb, img[sb.bmapstart := buf], files, freeinode, rounded)
  {
    hide Holds, Synced, GetInode, UseBit;
    SyncedSizes(sb, img, virt, fb);
    var w := img[sb.bmapstart := buf];
    forall i: nat | i < sb.ninodes
      ensures FileOK(sb, w, files, rounded, i) && At(sb, w, i).ino == At(sb, virt, i).ino
    {
      assert FileOK(sb, virt, files, rounded, i);
      BuiltFile(sb, img, virt, fb, buf, i, files[i]);
    }
  }

  /** Byte `j` of a bitmap block whose first `used` bits are set: the low bits first. */
  function UsedByte(used: nat, j: nat): nat {
    if used >= 8 * j + 8 then 255 else if used <= 8 * j then 0 else Pow2(used - 8 * j) - 1
  }

  lemma NoneUsed(b: Block)
    requires b == ZeroBlock()
    ensures forall j | 0 <= j < BSIZE :: b[j] == UsedByte(0, j)
  {
  }

  lemma NextBit(b: Block, i: nat)
    requires i < BPB && !MapBit(b, i) && forall j | 0 <= j < BSIZE :: b[j] == UsedByte(i, j)
    ensures forall j | 0 <= j < BSIZE :: WithMapBit(b, i, true)[j] == UsedByte(i + 1, j)
  {
    var k := i % 8;
    WithBitIs(b[i / 8], k, true);
    assert Pow2(0) == 1 && Pow2(k + 1) == 2 * Pow2(k);
    assert Pow2(8) == 256;
    assert b[i / 8] == Pow2(k) - 1;
    assert WithMapBit(b, i, true)[i / 8] == Pow2(k + 1) - 1;
    forall j | 0 <= j < BSIZE && j != i / 8
      ensures UsedByte(i, j) == UsedByte(i + 1, j)
    {
    }
  }

  class Builder {
    const sb: Superblock
    var img: Image
    var freeinode: nat
    var freeblock: nat
    /** The image as it will be when the bitmap is written. */
    ghost var virt: Image
    /** What was appended to each inode. */
    ghost var files: seq<seq<byte>>
    /** The root directory's size was rounded up already. */
    ghost var rounded: bool

    ghost predicate Valid()
      reads this
    {
      Synced(sb, img, virt, freeblock) && FilesOK(sb, virt, files, freeinode, rounded)
    }

    ghost function ViewOf(inum: nat, din: Dinode): View
      reads this
    {
      View(sb, virt, inum, din)
    }

    /** The image starts as zeroes; all blocks before the data blocks are taken. */
    constructor (sb: Superblock)
      requires sb.OK() && 0 < sb.ninodes
      ensures Valid() && this.sb == sb && freeinode == 1 && freeblock == sb.DataStart() && !rounded
      ensures forall i | 0 <= i < sb.ninodes :: files[i] == []
    {
      this.sb := sb;
      img := seq(sb.size, _ => ZeroBlock());
      freeinode, freeblock := 1, sb.DataStart();
      rounded := false;
      files := seq(sb.ninodes, _ => []);
      virt := [];
      new;
      virt := Formatted(sb, img);
      forall i: nat | i < sb.ninodes
        ensures At(sb, virt, i).ino == Dinode(0, 0, 0, 0, 0, NoAddrs()) && FileOK(sb, virt, files, false, i)
      {
        FormattedHolds(sb, img, virt, i);
      }
    }

    /** wsect */
    method Wsect(b: nat, data: Block)
      requires Synced(sb, img, virt, freeblock) && sb.inodestart <= b < freeblock
      requires !(sb.bmapstart <= b < sb.DataStart())
      modifies this`img, this`virt
      ensures img == old(img)[b := data] && virt == old(virt)[b := data] && Synced(sb, img, virt, freeblock)
    {
      SyncedWrite(sb, img, virt, freeblock, b, data);
      img := img[b := data];
      virt := virt[b := data];
    }

    /** winode */
    method Winode(inum: nat, din: Dinode)
      requires Synced(sb, img, virt, freeblock) && inum < sb.ninodes
      modifies this`img, this`virt
      ensures Synced(sb, img, virt, freeblock) && ViewOf(inum, din).Sized() && sb.IBlock(inum) < |virt|
      ensures old(ViewOf(inum, din)).Sized() && virt == Iupdated(old(ViewOf(inum, din))).blocks
    {
      MetadataApart(ViewOf(inum, din), inum, 0);
      var bn := sb.IBlock(inum);
      var buf := img[bn];
      buf := PutInode(buf, inum % IPB, din);
      Wsect(bn, buf);
    }

    /** ialloc */
    method Ialloc(typ: uint16) returns (inum: nat)
      requires Valid() && freeinode < sb.ninodes
      modifies this`img, this`virt, this`freeinode
      ensures Valid() && inum == old(freeinode) && freeinode == inum + 1 && freeblock == old(freeblock)
      ensures At(sb, virt, inum).ino == Dinode(typ, 0, 0, 1, 0, NoAddrs())
    {
      hide Holds, Synced, PutInode, View.OK, GetInode, OthersKept, FileOK;
      SyncedSizes(sb, img, virt, freeblock);
      inum := freeinode;
      freeinode := freeinode + 1;
      var din := Dinode(typ, 0, 0, 1, 0, NoAddrs());
      ghost var v := At(sb, virt, inum);
      TheFile(sb, virt, files, inum, rounded, inum);
      Rewritten(v, din, []);
      Winode(inum, din);
      assert ViewOf(inum, din) == Iupdated(v.(ino := din)) && files[inum := []] == files;
      FileChanged(v, ViewOf(inum, din), files, inum, freeinode, rounded, rounded, []);
    }

    /** `freeblock++`; None if the file system has no such block (mkfs does not check this). */
    method Take(ghost v: View) returns (b: Option<nat>)
      requires Synced(sb, img, virt, freeblock) && v.OK({}) && v.sb == sb && v.blocks == virt
      modifies this`freeblock, this`virt
      ensures Synced(sb, img, virt, freeblock)
      ensures b.None? ==> freeblock == old(freeblock) == sb.size && virt == old(virt)
      ensures b.Some? ==>
        && b.value == old(freeblock) && freeblock == b.value + 1 && b.value < sb.size && !v.InUse(b.value)
        && sb.BBlock(b.value) < |virt| && virt == Alloc(v, b.value).blocks
    {
      if freeblock == sb.size {
        return None;
      }
      SyncedTake(v, img, freeblock);
      b := Some(freeblock);
      virt := Alloc(v, freeblock).blocks;
      freeblock := freeblock + 1;
    }

    /** iappend's choice of the block for a direct pointer. */
    method Direct(inum: nat, din: Dinode, fbn: nat) returns (x: Option<nat>, d: Dinode)
      requires Synced(sb, img, virt, freeblock) && ViewOf(inum, din).OK({}) && fbn < NDIRECT
      modifies this`freeblock, this`virt
      ensures Synced(sb, img, virt, freeblock)
      ensures x.None? ==> |FreeOf(old(ViewOf(inum, din)))| < |Lacks(old(ViewOf(inum, din)), fbn, fbn + 1)|
      ensures x.Some? ==> Mapped(old(ViewOf(inum, din)), ViewOf(inum, d), fbn, x.value)
    {
      hide View.PointersOK, View.NoSharing, View.Conserved, Grown, Mapped, Synced, FreeOf, Lacks;
      ghost var v := ViewOf(inum, din);
      d := din;
      if din.addrs[fbn] == 0 {
        x := Take(v);
        if x.None? {
          SyncedFree(v, img, freeblock);
          LacksOne(v, fbn);
          return;
        }
        d := d.(addrs := d.addrs[fbn := x.value]);
        GrowAddr(v, fbn, x.value);
        MappedByOne(v, ViewOf(inum, d), fbn, x.value);
      } else {
        MappedAlready(v, fbn);
      }
      x := Some(d.addrs[fbn]);
    }

    /** iappend's choice of the block for an indirect pointer. */
    method Indirect(inum: nat, din: Dinode, fbn: nat) returns (x: Option<nat>, d: Dinode)
      requires Synced(sb, img, virt, freeblock) && ViewOf(inum, din).OK({}) && NDIRECT <= fbn < MAXFILE
      modifies this`freeblock, this`virt, this`img
      ensures Synced(sb, img, virt, freeblock)
      ensures x.None? ==> |FreeOf(old(ViewOf(inum, din)))| < |Lacks(old(ViewOf(inum, din)), fbn, fbn + 1)|
      ensures x.Some? ==> Mapped(old(ViewOf(inum, din)), ViewOf(inum, d), fbn, x.value)
    {
      hide View.PointersOK, View.NoSharing, View.Conserved, Mapped, Synced, UseBit, FreeOf, Lacks, Grown;
      ghost var v := ViewOf(inum, din);
      d := din;
      if din.addrs[NDIRECT] == 0 {
        LacksTwo(v, fbn);
        x := Take(v);
        if x.None? {
          SyncedFree(v, img, freeblock);
          return;
        }
        ghost var at: nat := x.value;
        d := d.(addrs := d.addrs[NDIRECT := x.value]);
        GrowAddr(v, INDIRECT, x.value);
        ghost var u := ViewOf(inum, d);
        GrownPtrs(v, u, at, fbn);
        x := Entry(inum, d, fbn - NDIRECT);
        if x.Some? { MappedByTwo(v, u, ViewOf(inum, d), fbn, at, x.value); } else { GrownFree(v, u, INDIRECT, at); }
      } else {
        LacksOne(v, fbn);
        x := Entry(inum, d, fbn - NDIRECT);
        if x.Some? && Data(v, inum, fbn) == 0 {
          MappedByOne(v, ViewOf(inum, d), fbn, x.value);
        } else if x.Some? {
          MappedAlready(v, fbn);
        }
      }
    }

    /** The entry in the indirect block. */
    method Entry(inum: nat, din: Dinode, j: nat) returns (x: Option<nat>)
      requires Synced(sb, img, virt, freeblock) && ViewOf(inum, din).OK({}) && j < NINDIRECT
      requires ViewOf(inum, din).Ptr(inum, INDIRECT) != 0
      modifies this`freeblock, this`virt, this`img
      ensures Synced(sb, img, virt, freeblock)
      ensures x.None? ==> |FreeOf(old(ViewOf(inum, din)))| == 0 && old(ViewOf(inum, din)).Ptr(inum, NADDRS + j) == 0
      ensures x.Some? ==>
        if old(ViewOf(inum, din)).Ptr(inum, NADDRS + j) == 0 then
          Grown(old(ViewOf(inum, din)), ViewOf(inum, din), NADDRS + j, x.value)
        else
          x.value == old(ViewOf(inum, din)).Ptr(inum, NADDRS + j) && virt == old(virt)
    {
      hide View.OK, Grown, FreeOf, Synced, GetInode, UseBit, Superblock.BBlock, Superblock.IBlock, Superblock.DataStart;
      ghost var v := ViewOf(inum, din);
      OKIsSized(v, {});
      SyncedSizes(sb, img, virt, freeblock);
      OwnedIsUsed(v, img, freeblock, INDIRECT);
      var at: nat := din.addrs[NDIRECT];
      var a := img[at];
      if GetU32(a, j) == 0 {
        x := Take(v);
        if x.None? {
          SyncedFree(v, img, freeblock);
          return;
        }
        GrowIndirect(v, j, x.value);
        Wsect(at, PutU32(a, j, x.value));
      } else {
        x := Some(GetU32(a, j));
      }
    }

    /** The block for the fbn-th block of the file; None behind MAXFILE blocks, or if the blocks run out. */
    method BlockFor(inum: nat, din: Dinode, fbn: nat) returns (x: Option<nat>, d: Dinode)
      requires Synced(sb, img, virt, freeblock) && ViewOf(inum, din).OK({})
      modifies this`freeblock, this`virt, this`img
      ensures Synced(sb, img, virt, freeblock) && old(ViewOf(inum, din)).Sized()
      ensures var v := old(ViewOf(inum, din)); x.Some? <==> fbn < MAXFILE && |Lacks(v, fbn, fbn + 1)| <= |FreeOf(v)|
      ensures x.Some? ==> Mapped(old(ViewOf(inum, din)), ViewOf(inum, d), fbn, x.value)
    {
      hide View.PointersOK, View.NoSharing, View.Conserved, View.Ptr, Synced, Mapped, FreeOf, Lacks;
      ghost var v := ViewOf(inum, din);
      x, d := None, din;
      if fbn >= MAXFILE { return; }
      if fbn < NDIRECT {
        x, d := Direct(inum, din, fbn);
      } else {
        x, d := Indirect(inum, din, fbn);
      }
      if x.Some? { MappedTakes(v, ViewOf(inum, d), fbn, x.value); }
    }

    /** One turn of iappend's loop, `pos` bytes of `p` having been appended to the `clen` bytes of the file: the
        next `n1` bytes go into the block they belong to. */
    method AppendTurn(inum: nat, din: Dinode, p: seq<byte>, off: nat, pos: nat, ghost v0: View, ghost src: seq<byte>)
      returns (ok: bool, d: Dinode, n1: nat)
      requires Synced(sb, img, virt, freeblock) && v0.sb == sb && v0.inum == inum
      requires pos < |p| && pos <= |src| && pos <= off && off - pos <= MAXBYTES && src == p[..Room(off - pos, |p|)]
      requires Written(v0, ViewOf(inum, din), off - pos, src, pos)
      modifies this`img, this`virt, this`freeblock
      ensures Synced(sb, img, virt, freeblock)
      ensures ok ==> 0 < n1 <= |p| - pos && pos + n1 <= |src| && Written(v0, ViewOf(inum, d), off - pos, src, pos + n1)
      ensures old(ViewOf(inum, din)).Sized()
      ensures var v := old(ViewOf(inum, din));
              ok <==> off < MAXBYTES && |Lacks(v, off / BSIZE, off / BSIZE + 1)| <= |FreeOf(v)|
    {
      hide View.OK, Written, Synced, WriteInto, Mapped, FreeOf, Lacks, Room;
      n1, d := 0, din;
      var fbn := off / BSIZE;
      ghost var v := ViewOf(inum, din);
      WrittenOK(v0, v, off - pos, src, pos);
      var x;
      x, d := BlockFor(inum, din, fbn);
      if x.None? { return false, d, 0; }
      n1 := if |p| - pos < (fbn + 1) * BSIZE - off then |p| - pos else (fbn + 1) * BSIZE - off;
      ghost var u := ViewOf(inum, d);
      TurnWritten(v0, v, u, img, freeblock, x.value, off, n1, p, src, pos);
      var buf := img[x.value];
      Wsect(x.value, WriteInto(buf, off - fbn * BSIZE, p[pos..pos + n1]));
      ok := true;
    }

    /** iappend: fails exactly if the file gets too big (an assertion of mkfs) or the blocks run out. */
    method Iappend(inum: nat, p: seq<byte>) returns (ok: bool)
      requires Valid() && inum < freeinode && !(rounded && inum == ROOTINO)
      modifies this`img, this`virt, this`freeblock, this`files
      ensures ok ==> Valid() && files == old(files)[inum := old(files)[inum] + p]
      ensures At(sb, old(virt), inum).Sized()
      ensures var v, len := At(sb, old(virt), inum), |old(files)[inum]|;
              ok <==> len + |p| <= MAXBYTES && |Missing(v, len, |p|)| <= sb.size - old(freeblock)
    {
      hide Holds, Synced, View.OK, View.Ptr, GetInode, OthersKept, Written, PutInode, UseBit, FileOK, Iupdated, FreeOf,
          Missing, FilledFor, Lacks, Touched;
      SyncedSizes(sb, img, virt, freeblock);
      ghost var v0, c := At(sb, virt, inum), files[inum];
      TheFile(sb, virt, files, freeinode, rounded, inum);
      AppendStart(v0, img, freeblock, c, p);
      SyncedFree(v0, img, freeblock);
      ghost var src := p[..Room(|c|, |p|)];
      var din := GetInode(img[sb.IBlock(inum)], inum % IPB);
      var off, pos := din.size, 0;
      while pos < |p|
        invariant pos <= |p| && pos <= |src| && off == |c| + pos && files == old(files)
        invariant Synced(sb, img, virt, freeblock) && Written(v0, ViewOf(inum, din), |c|, src, pos)
      {
        WrittenFills(v0, ViewOf(inum, din), |c|, src, pos);
        MissingNext(v0, ViewOf(inum, din), |c|, pos, 1, |p|);
        MissingOne(ViewOf(inum, din), off);
        var n1;
        ok, din, n1 := AppendTurn(inum, din, p, off, pos, v0, src);
        if !ok { return; }
        pos, off := pos + n1, off + n1;
      }
      ghost var u := ViewOf(inum, din);
      AppendEnd(v0, u, c, p, src);
      WrittenTakes(v0, u, |c|, src, |p|);
      din := din.(size := off);
      Winode(inum, din);
      IupdatedView(u, |c| + |p|);
      FileChanged(v0, ViewOf(inum, din), files, freeinode, freeinode, rounded, rounded, c + p);
      files := files[inum := c + p];
      ok := true;
    }

    /** The root directory's size is rounded up to the next multiple of BSIZE. If the directory filled
        its last block, this makes a hole at its end. */
    method FixRoot()
      requires Valid() && ROOTINO < freeinode && !rounded
      modifies this`img, this`virt, this`rounded
      ensures Valid() && rounded && At(sb, virt, ROOTINO).ino.size == RoundedSize(|files[ROOTINO]|)
      ensures var n := At(sb, virt, ROOTINO).ino.size; n % 512 == 0 && |files[ROOTINO]| < n <= |files[ROOTINO]| + 512
      ensures Present(At(sb, virt, ROOTINO), RoundedSize(|files[ROOTINO]|))
              <==> |files[ROOTINO]| % BSIZE != 0 || |files[ROOTINO]| == MAXBYTES
    {
      hide Holds, Synced, PutInode, View.OK, GetInode, OthersKept, Present, FileOK, RoundedSize;
      SyncedSizes(sb, img, virt, freeblock);
      ghost var v, c := At(sb, virt, ROOTINO), files[ROOTINO];
      RoundedUp(|c|);
      TheFile(sb, virt, files, freeinode, rounded, ROOTINO);
      AppendStart(v, img, freeblock, c, []);
      var din := GetInode(img[sb.IBlock(ROOTINO)], ROOTINO % IPB);
      din := din.(size := RoundedSize(din.size));
      Rewritten(v, din, c);
      Winode(ROOTINO, din);
      assert ViewOf(ROOTINO, din) == Iupdated(v.(ino := din));
      FileChanged(v, ViewOf(ROOTINO, din), files, freeinode, freeinode, rounded, true, c);
      assert files[ROOTINO := c] == files;
      rounded := true;
      RoundedHole(At(sb, virt, ROOTINO), c);
    }

    /** The image is complete: the bitmap marks exactly the blocks handed out. */
    ghost predicate Built()
      reads this
    {
      && FilesOK(sb, img, files, freeinode, rounded) && Unwritten(sb, img)
      && forall x | 0 <= x < sb.size :: UseBit(sb, img, x) <==> x < freeblock
    }

    /** balloc: writes one bitmap block; fails (an assertion) if that is not enough. */
    method Balloc(used: nat) returns (ok: bool)
      requires Valid() && used == freeblock
      modifies this`img
      ensures ok == (used < BPB) && (ok ==> Built())
      ensures ok ==> sb.bmapstart < |img| && forall j | 0 <= j < BSIZE :: img[sb.bmapstart][j] == UsedByte(used, j)
    {
      hide WithMapBit, MapBit, Holds, View.OK, GetInode, Synced, UsedByte;
      if used >= BPB { return false; }
      SyncedSizes(sb, img, virt, freeblock);
      var buf := ZeroBlock();
      forall x: nat | x < BPB
        ensures !MapBit(buf, x)
      {
        NoBit(x);
      }
      NoneUsed(buf);
      for i := 0 to used
        invariant forall x: nat | x < BPB :: MapBit(buf, x) <==> x < i
        invariant forall j | 0 <= j < BSIZE :: buf[j] == UsedByte(i, j)
        invariant Valid()
      {
        NextBit(buf, i);
        forall x: nat | x < BPB
          ensures MapBit(WithMapBit(buf, i, true), x) <==> x < i + 1
        {
          MapBitUpdate(buf, i, true, x);
        }
        buf := WithMapBit(buf, i, true);
      }
      BuiltBits(sb, img, virt, freeblock, buf);
      BuiltFiles(sb, img, virt, freeblock, buf, files, freeinode, rounded);
      img := img[sb.bmapstart := buf];
      ok := true;
    }
  }

  /** The finished image, in bytes: each inode's size field, the bytes that its addresses lead to, and the marks. */
  lemma BytesOfImage(b: Builder, i: nat)
    requires b.Built() && i < |b.files|
    ensures b.sb.inodestart + i / 8 < |b.img| && |b.files[i]| <= MAXBYTES
    ensures Size(b.img, b.sb.inodestart, i) == FileSize(b.files, b.rounded, i)
    ensures FileBytes(b.img, b.sb.inodestart, i, |b.files[i]|) == b.files[i]
    ensures forall x: nat | x < b.sb.size ::
        b.sb.bmapstart + x / 4096 < |b.img| && (BitSet(b.img, b.sb.bmapstart, x) <==> x < b.freeblock)
  {
    hide Holds, Bytes, Size, FileByte, BitSet, GetInode, UseBit;
    TheFile(b.sb, b.img, b.files, b.freeinode, b.rounded, i);
    var v, c := At(b.sb, b.img, i), b.files[i];
    HoldsOK(v, c);
    ContentsAre(v, i, |c|);
    assert Bytes(v, c) by { HoldsBytes(v, c); }
    HeldContents(v, c, |c|);
    forall x: nat | x < b.sb.size
      ensures b.sb.bmapstart + x / 4096 < |b.img| && (BitSet(b.img, b.sb.bmapstart, x) <==> x < b.freeblock)
    {
      UseBitIs(b.sb, b.img, x);
    }
  }

  lemma HoldsBytes(v: View, c: seq<byte>)
    requires Holds(v, c)
    ensures Bytes(v, c)
  {
  }

  // ---- the kernel on the finished image ----

  /** The slots that the block behind a file of `len` bytes needs, if these fill whole blocks. */
  function HoleSlots(len: nat): set<nat>
    requires len < MAXBYTES
  {
    {DataSlot(len / BSIZE)} + if len / BSIZE == NDIRECT then {INDIRECT} else {}
  }

  /** They are what is missing for bytes that reach into that block. */
  lemma HoleMissing(v: View, len: nat, off: nat, n: nat)
    requires v.Sized() && Present(v, len) && len % BSIZE == 0 && len < MAXBYTES
    requires off <= len + BSIZE && len < off + n <= len + BSIZE && n > 0
    ensures Missing(v, off, n) == HoleSlots(len)
  {
    hide View.Ptr, Present;
    forall k: nat {:trigger v.Ptr(v.inum, k)} | k < NSLOTS
      ensures k in Missing(v, off, n) <==> k in HoleSlots(len)
    {
      HoleSlot(v, len, off, n, k);
    }
    assert forall k <- HoleSlots(len) :: k < NSLOTS;
  }

  lemma HoleSlot(v: View, len: nat, off: nat, n: nat, k: nat)
    requires v.Sized() && Present(v, len) && len % BSIZE == 0 && len < MAXBYTES && k < NSLOTS
    requires off <= len + BSIZE && len < off + n <= len + BSIZE && n > 0
    ensures k in Missing(v, off, n) <==> k in HoleSlots(len)
  {
    hide View.Ptr;
    var at := len / BSIZE;
    assert at < MAXFILE && at * BSIZE == len;
    BlockTouched(off, n, at);
    if k != INDIRECT {
      var bn := if k < INDIRECT then k else k - 1;
      BlockTouched(off, n, bn);
      assert k == DataSlot(bn) && (Data(v, v.inum, bn) != 0 <==> bn < at);
    } else {
      BlockTouched(off, n, NDIRECT);
    }
  }

  /** How many blocks mkfs left free. */
  function Spare(b: Builder): nat
    reads b
  {
    if b.freeblock < b.sb.size then b.sb.size - b.freeblock else 0
  }

  lemma BuiltFree(b: Builder, i: nat)
    requires b.Built() && i < |b.files|
    ensures At(b.sb, b.img, i).Sized() && |FreeOf(At(b.sb, b.img, i))| == Spare(b)
  {
    hide Holds;
    assert FileOK(b.sb, b.img, b.files, b.rounded, i);
    assert FreeOf(At(b.sb, b.img, i)) == Interval(b.freeblock, b.sb.size);
  }

  /** There is a block without contents at the end of file `i`: that of a rounded root directory which filled
      its blocks. */
  ghost predicate Hollow(b: Builder, i: nat)
    requires i < |b.files|
    reads b
  {
    b.rounded && i == ROOTINO && |b.files[i]| % BSIZE == 0
  }

  /** The kernel reads back what was appended: readi on the finished image, for every inode. Behind the
      rounded end of the root directory it reads zeroes. A panic if and only if it reaches into the hole behind a
      root directory that fills its blocks, and mkfs did not leave the block or two for it. */
  method ReadBack(b: Builder, i: nat, off: uint32, n: uint32) returns (ok: bool, r: int, dst: seq<byte>)
    requires b.Built() && i < |b.files|
    ensures off > FileSize(b.files, b.rounded, i) || off + n >= TWO32 ==> ok && r == -1 && dst == []
    ensures off <= FileSize(b.files, b.rounded, i) && off + n < TWO32 && ok ==>
      && (var size := FileSize(b.files, b.rounded, i); r == if off + n > size then size - off else n)
      && dst == Padded(b.files[i], off + r)[off..]
      && (off + r <= |b.files[i]| ==> dst == b.files[i][off..off + r])
    ensures var size, len := FileSize(b.files, b.rounded, i), |b.files[i]|;
            var m := if off > size || off + n >= TWO32 then 0 else if off + n > size then size - off else n;
            !ok <==> m > 0 && off + m > len && Hollow(b, i) && (len >= MAXBYTES || |HoleSlots(len)| > Spare(b))
  {
    hide View.PointersOK, View.NoSharing, View.Conserved, GetInode, Contents, UseBit, Bytes, Whole, Unchanged, Missing,
        FreeOf, FilledFor, Present, HoleSlots, Spare, View.Ptr, Padded, RoundedSize;
    var fs := new Fs.Fs(b.sb, b.img);
    var ip := new Fs.Inode(i, GetInode(b.img[b.sb.IBlock(i)], i % IPB));
    assert FileOK(b.sb, b.img, b.files, b.rounded, i);
    ghost var v, c := At(b.sb, b.img, i), b.files[i];
    assert fs.ViewOf(ip) == v;
    ghost var m := Fs.Fs.Reach(FileSize(b.files, b.rounded, i), off, n);
    ReadBackLacks(b, i, off, m);
    ok, r, dst := fs.Readi(ip, off, n);
    if ok && r > 0 {
      HeldContents(v, c, off + r);
    }
  }

  lemma ReadBackLacks(b: Builder, i: nat, off: nat, m: nat)
    requires b.Built() && i < |b.files| && (m > 0 ==> off + m <= FileSize(b.files, b.rounded, i))
    ensures At(b.sb, b.img, i).Sized() && |b.files[i]| <= MAXBYTES
    ensures var v, len := At(b.sb, b.img, i), |b.files[i]|;
            m > 0 && (off + m > MAXBYTES || |Missing(v, off, m)| > |FreeOf(v)|)
            <==> m > 0 && off + m > len && Hollow(b, i) && (len >= MAXBYTES || |HoleSlots(len)| > Spare(b))
  {
    hide View.OK, GetInode, UseBit, Bytes, Missing, FreeOf, Present, HoleSlots, Spare, View.Ptr;
    var v, c := At(b.sb, b.img, i), b.files[i];
    TheFile(b.sb, b.img, b.files, b.freeinode, b.rounded, i);
    BuiltFree(b, i);
    HoldsPresent(v, c);
    if m > 0 {
      if off + m <= |c| {
        PresentLacks(v, |c|, off, m);
      } else if |c| % BSIZE != 0 {
        RoundedHole(v, c);
        RoundedFits(|c|);
        PresentLacks(v, RoundedSize(|c|), off, m);
      } else if |c| < MAXBYTES {
        RoundedFits(|c|);
        HoleMissing(v, |c|, off, m);
      }
    }
  }

  lemma MissingOne(v: View, off: nat)
    requires v.Sized()
    ensures Missing(v, off, 1) == Lacks(v, off / BSIZE, off / BSIZE + 1)
  {
  }

  lemma HoldsPresent(v: View, c: seq<byte>)
    requires Holds(v, c)
    ensures v.Sized() && Present(v, |c|) && |c| <= MAXBYTES
  {
  }

  lemma RoundedFits(len: nat)
    ensures len % BSIZE == 0 ==> RoundedSize(len) == len + BSIZE
    ensures len < MAXBYTES ==> RoundedSize(len) <= MAXBYTES
  {
  }

  /** Where writei leaves the inode on disk behind: in that hole. It finds no block there, and puts one into the
      inode in memory; the inode on disk does not learn of it, unless it is behind the indirect block. */
  method FillHole(b: Builder, off: uint32, src: seq<byte>) returns (ok: bool, ghost w: View)
    requires b.Built() && ROOTINO < |b.files| && Hollow(b, ROOTINO)
    requires off == |b.files[ROOTINO]| < MAXBYTES && 0 < |src| <= BSIZE
    ensures ok <==> |HoleSlots(off)| <= Spare(b)
    ensures ok ==>
      && Spliced(At(b.sb, b.img, ROOTINO), w, off, src)
      && (w.InodeOnDisk(ROOTINO) == w.ino <==> off > NDIRECT * BSIZE)
  {
    hide View.OK, View.Ptr, GetInode, UseBit, Bytes, Missing, FreeOf, Present, HoleSlots, Spare, RoundedSize, Spliced,
        Contents, MaxLogged, Whole;
    var i := ROOTINO;
    TheFile(b.sb, b.img, b.files, b.freeinode, b.rounded, i);
    ghost var v := At(b.sb, b.img, i);
    HoldsPresent(v, b.files[i]);
    BuiltFree(b, i);
    RoundedFits(off);
    HoleMissing(v, off, off, |src|);
    var fs := new Fs.Fs(b.sb, b.img);
    var ip := new Fs.Inode(i, GetInode(b.img[b.sb.IBlock(i)], i % IPB));
    assert fs.ViewOf(ip) == v;
    HoldsOK(v, b.files[i]);
    var r;
    ok, r := fs.Writei(ip, src, off);
    w := fs.ViewOf(ip);
    if ok {
      StaysOnDisk(v, w, off, src);
      HoleInInode(off);
      SplicedViews(v, w, off, src);
    }
  }

  lemma SplicedViews(v: View, w: View, off: nat, src: seq<byte>)
    requires Spliced(v, w, off, src)
    ensures w.Sized() && w.inum == v.inum
  {
  }

  lemma HoleInInode(len: nat)
    requires len < MAXBYTES && len % BSIZE == 0
    ensures (forall k <- HoleSlots(len) :: k >= NADDRS) <==> len > NDIRECT * BSIZE
  {
    assert len == len / BSIZE * BSIZE && DataSlot(len / BSIZE) in HoleSlots(len);
  }
}
