/** The on-disk format of fs.c and fs.h: bitmap, inodes and block pointers, and who owns a block. */
module FsFormat {
  import opened Words
  import opened Bio

  const NDIRECT: nat := 12
  const NINDIRECT: nat := WORDS_PER_BLOCK
  const MAXFILE: nat := NDIRECT + NINDIRECT
  const BPB: nat := BSIZE * 8
  const INODE_WORDS: nat := 16
  const IPB: nat := WORDS_PER_BLOCK / INODE_WORDS

  // ---- bits ----

  /** `x & (1 << k)` is not 0. */
  predicate TestBit(x: nat, k: nat) {
    if k == 0 then x % 2 == 1 else TestBit(x / 2, k - 1)
  }

  /** `x | (1 << k)` if `v`, else `x & ~(1 << k)` */
  function WithBit(x: nat, k: nat, v: bool): nat {
    if k == 0 then x / 2 * 2 + (if v then 1 else 0) else x % 2 + 2 * WithBit(x / 2, k - 1, v)
  }

  lemma {:induction false} WithBitBits(x: nat, k: nat, v: bool, j: nat)
    ensures TestBit(WithBit(x, k, v), j) == if j == k then v else TestBit(x, j)
  {
    if k > 0 && j > 0 {
      WithBitBits(x / 2, k - 1, v, j - 1);
    }
  }

  /** Within a byte, the result is a byte. */
  lemma {:induction false} WithBitBound(x: nat, k: nat, v: bool, width: nat)
    requires x < Pow2(width) && k < width
    ensures WithBit(x, k, v) < Pow2(width)
  {
    if k > 0 {
      assert Pow2(width) == 2 * Pow2(width - 1);
      assert x / 2 < Pow2(width - 1);
      WithBitBound(x / 2, k - 1, v, width - 1);
    }
  }

  function ByteWithBit(x: byte, k: nat, v: bool): byte
    requires k < 8
  {
    WithBitBound(x, k, v, 8);
    WithBit(x, k, v)
  }

  lemma {:induction false} ZeroBits(k: nat)
    ensures !TestBit(0, k)
  {
    if k > 0 {
      ZeroBits(k - 1);
    }
  }

  /** Bit `i` of a bitmap block: `data[i/8] & (1 << (i%8))`. */
  predicate MapBit(b: Block, i: nat)
    requires i < BPB
  {
    TestBit(b[i / 8], i % 8)
  }

  function WithMapBit(b: Block, i: nat, v: bool): Block
    requires i < BPB
  {
    b[i / 8 := ByteWithBit(b[i / 8], i % 8, v)]
  }

  lemma MapBitUpdate(b: Block, i: nat, v: bool, j: nat)
    requires i < BPB && j < BPB
    ensures MapBit(WithMapBit(b, i, v), j) == if i == j then v else MapBit(b, j)
  {
    WithBitBits(b[i / 8], i % 8, v, j % 8);
  }

  // ---- inodes ----

  type uint16 = x: int | 0 <= x < 0x1_0000

  const NADDRS: nat := NDIRECT + 1

  type Addrs = s: seq<uint32> | |s| == NADDRS witness seq(NADDRS, _ => 0)

  /** struct dinode */
  datatype Dinode = Dinode(typ: uint16, major: uint16, minor: uint16, nlink: uint16, size: uint32, addrs: Addrs)

  /** The words of a dinode as it lies in its block. */
  function InodeWord(d: Dinode, j: nat): uint32
    requires j < INODE_WORDS
  {
    if j == 0 then d.typ + 0x1_0000 * d.major
    else if j == 1 then d.minor + 0x1_0000 * d.nlink
    else if j == 2 then d.size
    else d.addrs[j - 3]
  }

  /** Word `w` of slot `k` of an inode block. */
  function SlotWord(b: Block, k: nat, w: nat): uint32
    requires k < IPB && w < INODE_WORDS
  {
    GetU32(b, k * INODE_WORDS + w)
  }

  function SlotAddrs(b: Block, k: nat, n: nat): (r: seq<uint32>)
    requires k < IPB && n <= NADDRS
    ensures |r| == n && forall i | 0 <= i < n :: r[i] == SlotWord(b, k, 3 + i)
  {
    if n == 0 then [] else SlotAddrs(b, k, n - 1) + [SlotWord(b, k, 2 + n)]
  }

  /** The inode in slot `k` of an inode block. */
  function GetInode(b: Block, k: nat): Dinode
    requires k < IPB
  {
    var w0, w1 := SlotWord(b, k, 0), SlotWord(b, k, 1);
    Dinode(w0 % 0x1_0000, w0 / 0x1_0000, w1 % 0x1_0000, w1 / 0x1_0000, SlotWord(b, k, 2), SlotAddrs(b, k, NADDRS))
  }

  /** The block after the first `n` words of an inode were stored in slot `k`. */
  function PutWords(b: Block, k: nat, d: Dinode, n: nat): Block
    requires k < IPB && n <= INODE_WORDS
  {
    if n == 0 then b else PutU32(PutWords(b, k, d, n - 1), k * INODE_WORDS + n - 1, InodeWord(d, n - 1))
  }

  function PutInode(b: Block, k: nat, d: Dinode): Block
    requires k < IPB
  {
    PutWords(b, k, d, INODE_WORDS)
  }

  lemma {:induction false} PutWordsGet(b: Block, k: nat, d: Dinode, n: nat, j: nat)
    requires k < IPB && n <= INODE_WORDS && j < WORDS_PER_BLOCK
    ensures GetU32(PutWords(b, k, d, n), j) ==
            if k * INODE_WORDS <= j < k * INODE_WORDS + n then InodeWord(d, j - k * INODE_WORDS) else GetU32(b, j)
  {
    if n > 0 {
      PutWordsGet(b, k, d, n - 1, j);
      PutGetU32(PutWords(b, k, d, n - 1), k * INODE_WORDS + n - 1, InodeWord(d, n - 1), j);
    }
  }

  /** A stored inode reads back, and its neighbours do not change. */
  lemma InodeRoundTrip(b: Block, k: nat, d: Dinode, j: nat)
    requires k < IPB && j < IPB
    ensures GetInode(PutInode(b, k, d), j) == if j == k then d else GetInode(b, j)
  {
    var c := PutInode(b, k, d);
    forall w | 0 <= w < INODE_WORDS
      ensures SlotWord(c, j, w) == if j == k then InodeWord(d, w) else SlotWord(b, j, w)
    {
      PutWordsGet(b, k, d, INODE_WORDS, j * INODE_WORDS + w);
    }
    hide SlotWord, PutInode;
    SameWords(c, j, if j == k then d else GetInode(b, j));
  }

  /** An inode is what its words say. */
  lemma SameWords(c: Block, j: nat, d: Dinode)
    requires j < IPB && forall w | 0 <= w < INODE_WORDS :: SlotWord(c, j, w) == InodeWord(d, w)
    ensures GetInode(c, j) == d
  {
    hide SlotWord;
    assert SlotWord(c, j, 0) == InodeWord(d, 0) && SlotWord(c, j, 1) == InodeWord(d, 1);
    assert GetInode(c, j).addrs == d.addrs;
  }
}
