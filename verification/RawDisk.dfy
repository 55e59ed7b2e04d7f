/** The disk as fs.h lays it out, byte for byte. */
module RawDisk {
  import opened Words
  import opened Bio

  /** The little-endian number in `n` bytes from `at` on. */
  function Le(b: Block, at: nat, n: nat): nat
    requires at + n <= 512
    decreases n
  {
    if n == 0 then 0 else b[at] + 256 * Le(b, at + 1, n - 1)
  }

  /** A field of inode `i`: eight inodes of 64 bytes lie in a block. */
  function Field(img: Image, inodestart: nat, i: nat, at: nat, n: nat): nat
    requires inodestart + i / 8 < |img| && at + n <= 64
  {
    Le(img[inodestart + i / 8], i % 8 * 64 + at, n)
  }

  /** The size field of inode `i`. */
  function Size(img: Image, inodestart: nat, i: nat): nat
    requires inodestart + i / 8 < |img|
  {
    Field(img, inodestart, i, 8, 4)
  }

  /** The address of block `bn` of the file: twelve in the inode, the others in the block that its thirteenth address
      leads to; 0 if there is none. */
  function Address(img: Image, inodestart: nat, i: nat, bn: nat): nat
    requires inodestart + i / 8 < |img| && bn < 140
  {
    if bn < 12 then Field(img, inodestart, i, 12 + 4 * bn, 4)
    else
      var ind := Field(img, inodestart, i, 60, 4);
      if ind == 0 || ind >= |img| then 0 else Le(img[ind], 4 * (bn - 12), 4)
  }

  /** Byte `k` of the file; 0 in a hole. */
  function FileByte(img: Image, inodestart: nat, i: nat, k: nat): byte
    requires inodestart + i / 8 < |img| && k < 140 * 512
  {
    var a := Address(img, inodestart, i, k / 512);
    if 0 < a < |img| then img[a][k % 512] else 0
  }

  /** The first `len` bytes of the file. */
  function FileBytes(img: Image, inodestart: nat, i: nat, len: nat): (r: seq<byte>)
    requires inodestart + i / 8 < |img| && len <= 140 * 512
    ensures |r| == len && forall k | 0 <= k < len :: r[k] == FileByte(img, inodestart, i, k)
  {
    seq(len, k requires 0 <= k < len => FileByte(img, inodestart, i, k))
  }

  /** Block `b` is marked: with 4096 bits in a block of the bitmap, and eight in a byte, from the low end. */
  predicate BitSet(img: Image, bmapstart: nat, b: nat)
    requires bmapstart + b / 4096 < |img|
  {
    img[bmapstart + b / 4096][b % 4096 / 8] / Pow2(b % 4096 % 8) % 2 == 1
  }

  /** A block was taken, the first that was not marked: now it is, and no other mark changed, if it lies behind the
      bitmap; or all were. */
  ghost predicate MarksFirst(bmapstart: nat, a: Image, b: Image, r: Option<nat>) {
    && |a| == |b| && bmapstart + |a| / 4096 < |a|
    && (forall x: nat | x < |a| && (r.None? || x < r.value) :: BitSet(a, bmapstart, x))
    && (r.Some? ==> r.value < |a| && !BitSet(a, bmapstart, r.value))
    && (r.Some? && bmapstart + |a| / 4096 < r.value ==>
          forall x: nat | x < |a| :: BitSet(b, bmapstart, x) == (x == r.value || BitSet(a, bmapstart, x)))
  }

  /** A block was given back, if it was marked. */
  ghost predicate Unmarks(bmapstart: nat, a: Image, b: Image, n: nat, ok: bool) {
    && n < |a| == |b| && bmapstart + |a| / 4096 < |a| && ok == BitSet(a, bmapstart, n)
    && forall x: nat | x < |a| :: BitSet(b, bmapstart, x) == (x != n && BitSet(a, bmapstart, x))
  }

  /** The log's header block: how many blocks are logged, and which. */
  function LoggedCount(header: Block): nat {
    Le(header, 0, 4)
  }

  function LoggedBlock(header: Block, i: nat): nat
    requires i < 127
  {
    Le(header, 4 + 4 * i, 4)
  }
}
