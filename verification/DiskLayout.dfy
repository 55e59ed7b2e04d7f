/** The model's readings of the disk are those of its bytes: so whatever is proved about bits, inodes, files and the
    log holds of the disk as the source lays it out. */
module DiskLayout {
  import opened Words
  import opened Bio
  import opened FsFormat
  import opened Ownership
  import opened Content
  import opened RawDisk
  import LogFormat

  // ---- words and bits ----

  lemma Two(b: Block, at: nat)
    requires at + 2 <= 512
    ensures var x: int, y: int := b[at], b[at + 1]; Le(b, at, 2) == x + 256 * y < 0x1_0000
  {
    assert Le(b, at + 1, 1) == b[at + 1] + 256 * Le(b, at + 2, 0);
  }

  lemma Four(b: Block, at: nat)
    requires at + 4 <= 512
    ensures Le(b, at, 4) == Le(b, at, 2) + 0x1_0000 * Le(b, at + 2, 2)
  {
    assert Le(b, at, 4) == b[at] + 256 * Le(b, at + 1, 3);
    assert Le(b, at + 1, 3) == b[at + 1] + 256 * Le(b, at + 2, 2);
    Two(b, at);
  }

  lemma Halves(lo: nat, hi: nat)
    requires lo < 0x1_0000
    ensures (lo + 0x1_0000 * hi) % 0x1_0000 == lo && (lo + 0x1_0000 * hi) / 0x1_0000 == hi
  {
  }

  lemma WordIs(b: Block, w: nat)
    requires w < WORDS_PER_BLOCK
    ensures GetU32(b, w) == Le(b, 4 * w, 4)
    ensures GetU32(b, w) % 0x1_0000 == Le(b, 4 * w, 2) && GetU32(b, w) / 0x1_0000 == Le(b, 4 * w + 2, 2)
  {
    hide Le;
    Two(b, 4 * w);
    Two(b, 4 * w + 2);
    Four(b, 4 * w);
    Halves(Le(b, 4 * w, 2), Le(b, 4 * w + 2, 2));
  }

  lemma {:induction false} TestBitIs(x: nat, k: nat)
    ensures TestBit(x, k) <==> x / Pow2(k) % 2 == 1
  {
    if k > 0 {
      TestBitIs(x / 2, k - 1);
      HalfPower(x, Pow2(k - 1));
    }
  }

  lemma HalfPower(x: nat, m: nat)
    requires m > 0
    ensures x / 2 / m == x / (2 * m)
  {
    var q := x / 2 / m;
    Quotient(x / 2, m, q);
    assert q * (2 * m) == 2 * (q * m);
    Quotient(x, 2 * m, q);
  }

  lemma Quotient(a: nat, m: nat, q: nat)
    requires m > 0
    ensures a / m == q <==> q * m <= a < q * m + m
  {
    var d := a / m;
    assert d * m <= a < d * m + m;
    if q < d { Monotone(q + 1, d, m); } else if d < q { Monotone(d + 1, q, m); }
  }

  lemma Monotone(a: nat, b: nat, m: nat)
    requires a <= b
    ensures a * m <= b * m
  {
    assert b * m == a * m + (b - a) * m;
  }

  /** A bit of a bitmap block is the one that `1 << (i % 8)` picks from byte `i / 8`. */
  lemma MapBitIs(b: Block, i: nat)
    requires i < BPB
    ensures MapBit(b, i) <==> b[i / 8] / Pow2(i % 8) % 2 == 1
  {
    TestBitIs(b[i / 8], i % 8);
  }

  /** Setting a clear bit or clearing a set one adds or takes away its value in one byte. */
  lemma {:induction false} WithBitIs(x: nat, k: nat, v: bool)
    ensures TestBit(x, k) != v ==> WithBit(x, k, v) == if v then x + Pow2(k) else x - Pow2(k)
    ensures TestBit(x, k) == v ==> WithBit(x, k, v) == x
  {
    if k > 0 { WithBitIs(x / 2, k - 1, v); }
  }

  lemma UseBitIs(sb: Superblock, img: Image, b: nat)
    requires sb.OK() && |img| == sb.size && b < sb.size
    ensures sb.bmapstart + b / 4096 < |img| && (UseBit(sb, img, b) <==> BitSet(img, sb.bmapstart, b))
  {
    hide MapBit;
    assert b / 4096 <= sb.size / 4096;
    MapBitIs(img[sb.BBlock(b)], b % BPB);
  }

  /** What writing one bit does to the marks. */
  lemma MarkWritten(sb: Superblock, img: Image, b: nat, v: bool, x: nat)
    requires sb.OK() && |img| == sb.size && b < sb.size && x < sb.size
    ensures sb.BBlock(b) < |img| && sb.bmapstart + x / 4096 < |img|
    ensures var r := img[sb.BBlock(b) := WithMapBit(img[sb.BBlock(b)], b % BPB, v)];
            BitSet(r, sb.bmapstart, x) == if x == b then v else BitSet(img, sb.bmapstart, x)
  {
    hide MapBit, WithMapBit, BitSet;
    UseBitIs(sb, img, b);
    UseBitIs(sb, img, x);
    var r := img[sb.BBlock(b) := WithMapBit(img[sb.BBlock(b)], b % BPB, v)];
    UseBitIs(sb, r, x);
    if x / BPB == b / BPB {
      MapBitUpdate(img[sb.BBlock(b)], b % BPB, v, x % BPB);
      assert x % BPB == b % BPB ==> x == b;
    }
  }

  /** A block that is not part of the bitmap does not bear on the marks. */
  lemma MarkKept(sb: Superblock, img: Image, b: nat, data: Block, x: nat)
    requires sb.OK() && |img| == sb.size && sb.DataStart() <= b < sb.size && x < sb.size
    ensures sb.bmapstart + x / 4096 < |img|
    ensures BitSet(img[b := data], sb.bmapstart, x) == BitSet(img, sb.bmapstart, x)
  {
    UseBitIs(sb, img, x);
    assert x / 4096 <= sb.size / 4096;
  }

  lemma AllMarked(sb: Superblock, img: Image, n: nat)
    requires sb.OK() && |img| == sb.size && n <= sb.size && forall x | 0 <= x < n :: UseBit(sb, img, x)
    ensures sb.bmapstart + |img| / 4096 < |img| && forall x: nat | x < n :: BitSet(img, sb.bmapstart, x)
  {
    hide UseBit, BitSet;
    forall x: nat | x < n
      ensures BitSet(img, sb.bmapstart, x)
    {
      UseBitIs(sb, img, x);
    }
  }

  /** balloc panics on a full bitmap. */
  lemma NoneUnmarked(sb: Superblock, img: Image)
    requires sb.OK() && |img| == sb.size && forall x | 0 <= x < sb.size :: UseBit(sb, img, x)
    ensures MarksFirst(sb.bmapstart, img, img, None)
  {
    hide UseBit, BitSet;
    AllMarked(sb, img, sb.size);
  }

  /** What balloc does to the marks. */
  lemma AllocMarks(sb: Superblock, img: Image, b: nat)
    requires sb.OK() && |img| == sb.size && b < sb.size && !UseBit(sb, img, b)
    requires forall x | 0 <= x < b :: UseBit(sb, img, x)
    ensures sb.BBlock(b) < |img|
    ensures MarksFirst(sb.bmapstart, img,
        img[sb.BBlock(b) := WithMapBit(img[sb.BBlock(b)], b % BPB, true)][b := ZeroBlock()], Some(b))
  {
    hide UseBit, BitSet, WithMapBit, MapBit;
    AllMarked(sb, img, b);
    MarkWritten(sb, img, b, true, b);
    UseBitIs(sb, img, b);
    if sb.DataStart() <= b {
      var m := img[sb.BBlock(b) := WithMapBit(img[sb.BBlock(b)], b % BPB, true)];
      forall x: nat | x < sb.size
        ensures BitSet(m[b := ZeroBlock()], sb.bmapstart, x) == (x == b || BitSet(img, sb.bmapstart, x))
      {
        MarkWritten(sb, img, b, true, x);
        MarkKept(sb, m, b, ZeroBlock(), x);
      }
    }
  }

  /** What bfree does to them. */
  lemma FreeMarks(sb: Superblock, img: Image, b: nat)
    requires sb.OK() && |img| == sb.size && b < sb.size
    ensures sb.BBlock(b) < |img|
    ensures UseBit(sb, img, b) ==>
      Unmarks(sb.bmapstart, img, img[sb.BBlock(b) := WithMapBit(img[sb.BBlock(b)], b % BPB, false)], b, true)
    ensures !UseBit(sb, img, b) ==> Unmarks(sb.bmapstart, img, img, b, false)
  {
    hide UseBit, BitSet, WithMapBit, MapBit;
    UseBitIs(sb, img, b);
    MarkWritten(sb, img, b, false, b);
    forall x: nat | x < sb.size
      ensures var r := img[sb.BBlock(b) := WithMapBit(img[sb.BBlock(b)], b % BPB, false)];
              BitSet(r, sb.bmapstart, x) == (x != b && BitSet(img, sb.bmapstart, x))
    {
      MarkWritten(sb, img, b, false, x);
    }
  }

  // ---- inodes ----

  /** Inode `i`, as it lies on the disk. */
  lemma InodeIs(sb: Superblock, img: Image, i: nat)
    requires sb.OK() && |img| == sb.size && i < sb.ninodes
    ensures sb.inodestart + i / 8 < |img| && sb.IBlock(i) == sb.inodestart + i / 8
    ensures var d := GetInode(img[sb.IBlock(i)], i % IPB);
            && d.typ == Field(img, sb.inodestart, i, 0, 2) && d.major == Field(img, sb.inodestart, i, 2, 2)
            && d.minor == Field(img, sb.inodestart, i, 4, 2) && d.nlink == Field(img, sb.inodestart, i, 6, 2)
            && d.size == Size(img, sb.inodestart, i)
            && forall j | 0 <= j < NADDRS :: d.addrs[j] == Field(img, sb.inodestart, i, 12 + 4 * j, 4)
  {
    InodeBlockIn(sb, i);
    SlotIs(img[sb.IBlock(i)], i % 8);
  }

  lemma InodeBlockIn(sb: Superblock, i: nat)
    requires sb.OK() && i < sb.ninodes
    ensures sb.IBlock(i) == sb.inodestart + i / 8 < sb.size
  {
    assert i / 8 <= sb.ninodes / 8;
  }

  lemma SlotIs(b: Block, k: nat)
    requires k < IPB
    ensures var d := GetInode(b, k);
            && d.typ == Le(b, k * 64, 2) && d.major == Le(b, k * 64 + 2, 2)
            && d.minor == Le(b, k * 64 + 4, 2) && d.nlink == Le(b, k * 64 + 6, 2) && d.size == Le(b, k * 64 + 8, 4)
            && forall j | 0 <= j < NADDRS :: d.addrs[j] == Le(b, k * 64 + (12 + 4 * j), 4)
  {
    hide Le, GetU32;
    WordIs(b, k * 16);
    WordIs(b, k * 16 + 1);
    WordIs(b, k * 16 + 2);
    forall j | 0 <= j < NADDRS
      ensures GetInode(b, k).addrs[j] == Le(b, k * 64 + (12 + 4 * j), 4)
    {
      WordIs(b, k * 16 + 3 + j);
    }
  }

  /** What iupdate and winode put on the disk. */
  lemma InodeWritten(sb: Superblock, img: Image, i: nat, d: Dinode)
    requires sb.OK() && |img| == sb.size && i < sb.ninodes
    ensures sb.IBlock(i) < |img| && sb.inodestart + i / 8 < |img|
    ensures var r := img[sb.IBlock(i) := PutInode(img[sb.IBlock(i)], i % IPB, d)];
            && Field(r, sb.inodestart, i, 0, 2) == d.typ && Field(r, sb.inodestart, i, 2, 2) == d.major
            && Field(r, sb.inodestart, i, 4, 2) == d.minor && Field(r, sb.inodestart, i, 6, 2) == d.nlink
            && Size(r, sb.inodestart, i) == d.size
            && forall j | 0 <= j < 13 :: Field(r, sb.inodestart, i, 12 + 4 * j, 4) == d.addrs[j]
  {
    hide GetInode, PutInode, Field;
    InodeBlockIn(sb, i);
    InodeRoundTrip(img[sb.IBlock(i)], i % IPB, d, i % IPB);
    InodeIs(sb, img[sb.IBlock(i) := PutInode(img[sb.IBlock(i)], i % IPB, d)], i);
  }

  // ---- files ----

  /** The blocks of a file whose inode on the disk is the current one. */
  lemma DataIs(v: View, i: nat, bn: nat)
    requires v.Sized() && i < v.sb.ninodes && bn < MAXFILE && v.Inode(i) == v.InodeOnDisk(i)
    ensures v.sb.inodestart + i / 8 < |v.blocks| && Data(v, i, bn) == Address(v.blocks, v.sb.inodestart, i, bn)
  {
    hide GetInode, GetU32, Field;
    InodeIs(v.sb, v.blocks, i);
    var d := v.InodeOnDisk(i);
    assert d.addrs[INDIRECT] == Field(v.blocks, v.sb.inodestart, i, 60, 4);
    if bn >= 12 && d.addrs[INDIRECT] < |v.blocks| {
      WordIs(v.blocks[d.addrs[INDIRECT]], bn - 12);
    } else if bn < 12 {
      assert d.addrs[bn] == Field(v.blocks, v.sb.inodestart, i, 12 + 4 * bn, 4);
    }
  }

  /** And its contents: those that the bytes of the disk spell. */
  lemma ContentsAre(v: View, i: nat, len: nat)
    requires v.Sized() && i < v.sb.ninodes && len <= MAXBYTES && v.Inode(i) == v.InodeOnDisk(i)
    ensures v.sb.inodestart + i / 8 < |v.blocks|
    ensures v.Inode(i).size == Size(v.blocks, v.sb.inodestart, i)
    ensures Contents(v, i, len) == FileBytes(v.blocks, v.sb.inodestart, i, len)
  {
    hide GetInode, GetU32, Field, Address, Data;
    InodeIs(v.sb, v.blocks, i);
    forall k | 0 <= k < len
      ensures Contents(v, i, len)[k] == FileBytes(v.blocks, v.sb.inodestart, i, len)[k]
    {
      DataIs(v, i, k / BSIZE);
    }
  }

  // ---- the log ----

  lemma HeaderIs(h: Block)
    ensures LogFormat.HeaderCount(h) == LoggedCount(h)
    ensures LogFormat.HeaderCount(h) < WORDS_PER_BLOCK ==> |LogFormat.HeaderBlocks(h)| == LoggedCount(h)
    ensures LogFormat.HeaderCount(h) < WORDS_PER_BLOCK ==>
        forall i | 0 <= i < LoggedCount(h) :: i < 127 && LogFormat.HeaderBlocks(h)[i] == LoggedBlock(h, i)
  {
    hide Le, GetU32;
    WordIs(h, 0);
    if LogFormat.HeaderCount(h) < WORDS_PER_BLOCK {
      forall i | 0 <= i < LoggedCount(h)
        ensures LogFormat.HeaderBlocks(h)[i] == LoggedBlock(h, i)
      {
        WordIs(h, i + 1);
      }
    }
  }

  lemma {:induction false} Installed(l: LogFormat.Layout, blocks: seq<nat>, img: Image, k: nat)
    requires LogFormat.Loggable(l, |img|, blocks) && Distinct(blocks) && k <= |blocks|
    ensures var r := Apply(img, LogFormat.InstallWrites(l, blocks, img)[..k]);
            && (forall i | 0 <= i < k :: r[blocks[i]] == img[l.start + 1 + i])
            && forall n | 0 <= n < |img| && (forall i | 0 <= i < k :: blocks[i] != n) :: r[n] == img[n]
  {
    if k > 0 {
      Installed(l, blocks, img, k - 1);
      LogFormat.InstallStep(l, blocks, img, img, k - 1);
    }
  }

  /** The header names block `b` as its `i`-th. */
  predicate Names(header: Block, i: nat, b: nat) {
    i < LoggedCount(header) && i < 127 && LoggedBlock(header, i) == b
  }

  /** Recovery, in bytes: each block that the header names gets the contents of its log block, the i-th of those behind
      the header; other home blocks stay; the header then names none. */
  lemma RecoveredIs(l: LogFormat.Layout, img: Image, b: nat)
    requires LogFormat.HeaderOK(l, img) && Distinct(LogFormat.HeaderBlocks(img[l.start])) && b < |img|
    ensures l.start + LoggedCount(img[l.start]) < |img|
    ensures LoggedCount(LogFormat.Recovered(l, img)[l.start]) == 0
    ensures forall i: nat | Names(img[l.start], i, b) :: LogFormat.Recovered(l, img)[b] == img[l.start + 1 + i]
    ensures LogFormat.Home(l, b) && (forall i: nat :: !Names(img[l.start], i, b)) ==> LogFormat.Recovered(l, img)[b] == img[b]
  {
    hide Le, GetU32, Apply, LogFormat.HeaderBlocks, LogFormat.InstallWrites, LoggedCount, LoggedBlock;
    var blocks := LogFormat.HeaderBlocks(img[l.start]);
    HeaderIs(img[l.start]);
    var r := LogFormat.Recovered(l, img);
    LogFormat.RecoveryClears(l, img);
    HeaderIs(r[l.start]);
    LogFormat.RecoveryPhases(l, img, []);
    Installed(l, blocks, img, |blocks|);
    forall i: nat | Names(img[l.start], i, b)
      ensures r[b] == img[l.start + 1 + i]
    {
      assert blocks[i] == b;
    }
    if LogFormat.Home(l, b) && forall i: nat :: !Names(img[l.start], i, b) {
      forall i | 0 <= i < |blocks|
        ensures blocks[i] != b
      {
        assert !Names(img[l.start], i, b);
      }
    }
  }
}
