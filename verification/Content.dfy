/** Files as flat byte strings. */
module Content {
  import opened Words
  import opened Bio
  import opened FsFormat
  import opened Ownership
  import opened Supply

  const MAXBYTES: nat := MAXFILE * BSIZE

  /** Byte `k` of file `i`. */
  function Byte(v: View, i: nat, k: nat): byte
    requires v.Sized() && i < v.sb.ninodes && k < MAXBYTES
  {
    var addr := Data(v, i, k / BSIZE);
    if 0 < addr < |v.blocks| then v.blocks[addr][k % BSIZE] else 0
  }

  function Contents(v: View, i: nat, len: nat): (r: seq<byte>)
    requires v.Sized() && i < v.sb.ninodes && len <= MAXBYTES
    ensures |r| == len && forall k | 0 <= k < len :: r[k] == Byte(v, i, k)
  {
    if len == 0 then [] else Contents(v, i, len - 1) + [Byte(v, i, len - 1)]
  }

  /** The current file reads the same, also behind its end and in its holes. */
  ghost predicate SameBytes(v: View, w: View) {
    && v.Sized() && w.Sized() && w.sb == v.sb && w.inum == v.inum
    && forall k | 0 <= k < MAXBYTES :: Byte(w, w.inum, k) == Byte(v, v.inum, k)
  }

  lemma SameContents(v: View, w: View, len: nat)
    requires SameBytes(v, w) && len <= MAXBYTES
    ensures Contents(w, w.inum, len) == Contents(v, v.inum, len)
  {
    hide Byte;
  }

  /** The current file has exactly the blocks that `len` bytes need: no holes, nothing beyond. */
  ghost predicate Present(v: View, len: nat)
    requires v.Sized()
  {
    && (forall bn | 0 <= bn < MAXFILE :: Data(v, v.inum, bn) != 0 <==> bn * BSIZE < len)
    && (v.Ptr(v.inum, INDIRECT) != 0 <==> len > NDIRECT * BSIZE)
  }

  /** No holes, and no block behind the end. */
  ghost predicate Whole(v: View) {
    v.Sized() && v.ino.size <= MAXBYTES && Present(v, v.ino.size)
  }

  lemma OthersContents(v: View, w: View, i: nat, len: nat)
    requires OthersKept(v, w) && v.PointersOK() && i < v.sb.ninodes && i != v.inum && len <= MAXBYTES
    ensures Contents(w, i, len) == Contents(v, i, len)
  {
    forall k | 0 <= k < len
      ensures Byte(w, i, k) == Byte(v, i, k)
    {
      assert v.IsSlot(i, DataSlot(k / BSIZE));
    }
  }

  lemma OKIsSized(v: View, extra: set<nat>)
    requires v.OK(extra)
    ensures v.Sized()
  {
  }

  /** memmove of `bytes` into a buffer at offset `o` */
  function WriteInto(d: Block, o: nat, bytes: seq<byte>): (r: Block)
    requires o + |bytes| <= BSIZE
    ensures forall x | 0 <= x < BSIZE :: r[x] == if o <= x < o + |bytes| then bytes[x - o] else d[x]
  {
    d[..o] + bytes + d[o + |bytes|..]
  }

  /** Overwriting a data block of the current file. */
  lemma OverwriteKeepsOK(v: View, bn: nat, data: Block)
    requires v.OK({}) && bn < MAXFILE && Data(v, v.inum, bn) != 0
    ensures v.sb.DataStart() <= Data(v, v.inum, bn) < |v.blocks|
    ensures var w := WithBlock(v, Data(v, v.inum, bn), data);
            && w.OK({}) && OthersKept(v, w) && SamePtrs(v, w) && w.InodeOnDisk(v.inum) == v.InodeOnDisk(v.inum)
            && forall m | 0 <= m < MAXFILE && m != bn && Data(v, v.inum, m) != 0 ::
               Data(v, v.inum, m) != Data(v, v.inum, bn)
  {
    hide MapBit, GetU32, GetInode;
    var s := DataSlot(bn);
    assert v.IsSlot(v.inum, s);
    var at := v.Ptr(v.inum, s);
    forall i: nat | v.IsSlot(i, INDIRECT)
      ensures v.Ptr(i, INDIRECT) != at
    {
      assert (i, INDIRECT) != (v.inum, s);
    }
    DataWrite(v, at, data);
    var w := WithBlock(v, at, data);
    SamePtrsKeepsOK(v, w, {}, {});
    forall i: nat | i < v.sb.ninodes
      ensures w.InodeOnDisk(i) == v.InodeOnDisk(i)
    {
      MetadataApart(v, i, 0);
    }
    forall i: nat, k: nat | v.IsSlot(i, k) && i != v.inum
      ensures v.Ptr(i, k) != at
    {
      assert (i, k) != (v.inum, s);
    }
    forall m: nat | m < MAXFILE && m != bn && Data(v, v.inum, m) != 0
      ensures Data(v, v.inum, m) != at
    {
      assert v.IsSlot(v.inum, DataSlot(m)) && (v.inum, DataSlot(m)) != (v.inum, s);
    }
  }

  function Max(a: nat, b: nat): nat {
    if a < b then b else a
  }

  /** After bmap, the bytes of the file are the same: where it had a hole, there are zeroes now. */
  lemma MappedBytes(v: View, u: View, bn: nat, addr: nat)
    requires Mapped(v, u, bn, addr)
    ensures SameBytes(v, u)
  {
    hide View.PointersOK, View.NoSharing, View.Conserved, View.Ptr, GetInode, OthersKept;
    MappedOthers(v, u, bn, addr);
    forall k: nat | k < MAXBYTES
      ensures Byte(u, u.inum, k) == Byte(v, v.inum, k)
    {
      assert SlotKept(v, u, DataSlot(k / BSIZE));
      DataRange(v, k / BSIZE);
    }
  }

  lemma DataRange(v: View, bn: nat)
    requires v.OK({}) && bn < MAXFILE
    ensures Data(v, v.inum, bn) == 0 || v.sb.DataStart() <= Data(v, v.inum, bn) < |v.blocks|
  {
    assert v.IsSlot(v.inum, DataSlot(bn));
  }

  /** One turn of writei's loop: from `v`, bmap leads to `u`, and the copy to the result. */
  lemma WriteTurn(v: View, u: View, addr: nat, off: nat, bytes: seq<byte>)
    requires off < MAXBYTES && Mapped(v, u, off / BSIZE, addr) && 0 < |bytes| <= BSIZE - off % BSIZE
    ensures var w := WithBlock(u, addr, WriteInto(u.blocks[addr], off % BSIZE, bytes));
            && w.OK({}) && OthersKept(v, w) && w.InodeOnDisk(v.inum) == v.InodeOnDisk(v.inum)
            && w.ino == u.ino && SamePtrs(u, w)
            && forall k | 0 <= k < MAXBYTES ::
                 Byte(w, w.inum, k) == if off <= k < off + |bytes| then bytes[k - off] else Byte(v, v.inum, k)
  {
    hide OthersKept, View.PointersOK, View.NoSharing, View.Conserved, View.Ptr, GetInode, SlotKept, SamePtrs;
    hide Byte, WriteInto, UseBit, View.InodeOnDisk;
    var d := WriteInto(u.blocks[addr], off % BSIZE, bytes);
    OverwriteKeepsOK(u, off / BSIZE, d);
    OthersKeptTrans(v, u, WithBlock(u, addr, d));
    WriteTurnBytes(v, u, addr, off, bytes);
  }

  lemma WriteTurnBytes(v: View, u: View, addr: nat, off: nat, bytes: seq<byte>)
    requires off < MAXBYTES && Mapped(v, u, off / BSIZE, addr) && 0 < |bytes| <= BSIZE - off % BSIZE
    ensures var w := WithBlock(u, addr, WriteInto(u.blocks[addr], off % BSIZE, bytes));
            && w.Sized() && w.inum == v.inum && w.sb == v.sb
            && forall k | 0 <= k < MAXBYTES ::
                 Byte(w, w.inum, k) == if off <= k < off + |bytes| then bytes[k - off] else Byte(v, v.inum, k)
  {
    hide OthersKept, View.PointersOK, View.NoSharing, View.Conserved, View.Ptr, MapBit, GetInode, SlotKept, SamePtrs;
    hide View.InodeOnDisk, UseBit, Byte, WriteInto;
    var d := WriteInto(u.blocks[addr], off % BSIZE, bytes);
    MappedBytes(v, u, off / BSIZE, addr);
    forall k: nat | k < MAXBYTES
      ensures var w := WithBlock(u, addr, d);
              w.Sized()
              && Byte(w, w.inum, k) == if off <= k < off + |bytes| then bytes[k - off] else Byte(v, v.inum, k)
    {
      OverwrittenByte(u, off / BSIZE, d, k);
      WrittenByte(u.blocks[addr], off, bytes, k);
      if k / BSIZE == off / BSIZE { OwnByte(u, k); }
    }
  }

  lemma OwnByte(u: View, k: nat)
    requires u.OK({}) && k < MAXBYTES && Data(u, u.inum, k / BSIZE) != 0
    ensures Data(u, u.inum, k / BSIZE) < |u.blocks|
    ensures Byte(u, u.inum, k) == u.blocks[Data(u, u.inum, k / BSIZE)][k % BSIZE]
  {
    hide View.NoSharing, View.Conserved, View.Ptr;
    DataRange(u, k / BSIZE);
  }

  /** A byte of the block after the copy. */
  lemma WrittenByte(d: Block, off: nat, bytes: seq<byte>, k: nat)
    requires |bytes| <= BSIZE - off % BSIZE
    ensures k / BSIZE == off / BSIZE ==>
              WriteInto(d, off % BSIZE, bytes)[k % BSIZE]
              == if off <= k < off + |bytes| then bytes[k - off] else d[k % BSIZE]
    ensures k / BSIZE != off / BSIZE ==> !(off <= k < off + |bytes|)
  {
    if k / BSIZE == off / BSIZE {
      assert k - off == k % BSIZE - off % BSIZE;
    }
  }

  lemma SamePresent(u: View, w: View, len: nat)
    requires u.Sized() && w.Sized() && w.sb == u.sb && w.inum == u.inum && SamePtrs(u, w)
    ensures Present(w, len) <==> Present(u, len)
  {
    hide View.Ptr;
    assert u.IsSlot(u.inum, INDIRECT) && forall m | 0 <= m < MAXFILE :: u.IsSlot(u.inum, DataSlot(m));
    assert forall m | 0 <= m < MAXFILE :: Data(w, w.inum, m) == Data(u, u.inum, m);
  }

  lemma OverwrittenByte(v: View, bn: nat, d: Block, k: nat)
    requires v.OK({}) && bn < MAXFILE && Data(v, v.inum, bn) != 0 && k < MAXBYTES
    ensures v.sb.DataStart() <= Data(v, v.inum, bn) < |v.blocks|
    ensures var w := WithBlock(v, Data(v, v.inum, bn), d);
            w.Sized() && Byte(w, w.inum, k) == if k / BSIZE == bn then d[k % BSIZE] else Byte(v, v.inum, k)
  {
    hide View.PointersOK, View.NoSharing, View.Conserved, View.Ptr, GetInode, UseBit;
    OverwriteKeepsOK(v, bn, d);
    assert v.IsSlot(v.inum, DataSlot(k / BSIZE));
  }

  // ---- the blocks behind bytes ----

  /** How many blocks the bytes from `off` to `off + n` touch. */
  function Touched(off: nat, n: nat): nat {
    if n == 0 then 0 else (off + n - 1) / BSIZE - off / BSIZE + 1
  }

  /** The slots that these bytes need, and the current inode lacks. */
  function Missing(v: View, off: nat, n: nat): set<nat>
    requires v.Sized()
  {
    Lacks(v, off / BSIZE, off / BSIZE + Touched(off, n))
  }

  /** From `v` to `w` exactly these were filled. */
  ghost predicate FilledFor(v: View, w: View, off: nat, n: nat) {
    Filled(v, w, off / BSIZE, off / BSIZE + Touched(off, n))
  }

  lemma TouchedMore(off: nat, n: nat, m: nat)
    ensures off / BSIZE <= (off + n) / BSIZE <= off / BSIZE + Touched(off, n)
    ensures m > 0 ==> off / BSIZE + Touched(off, n + m) == (off + n) / BSIZE + Touched(off + n, m)
    ensures m > 0 ==> (off + n) / BSIZE + 1 <= off / BSIZE + Touched(off, n + m)
    ensures off / BSIZE + Touched(off, n) <= off / BSIZE + Touched(off, n + m)
    ensures 0 < m <= BSIZE - (off + n) % BSIZE ==> Touched(off + n, m) == 1
  {
  }

  lemma FilledForMore(u: View, v: View, w: View, off: nat, n: nat, m: nat)
    requires FilledFor(u, v, off, n) && FilledFor(v, w, off + n, m)
    ensures FilledFor(u, w, off, n + m)
  {
    hide Filled, Touched;
    TouchedMore(off, n, m);
    if m > 0 {
      FilledTrans(u, v, w, off / BSIZE, off / BSIZE + Touched(off, n), (off + n) / BSIZE,
          off / BSIZE + Touched(off, n + m));
    } else {
      NothingFilled(u, v, w, off, n);
    }
  }

  lemma NothingFilled(u: View, v: View, w: View, off: nat, n: nat)
    requires FilledFor(u, v, off, n) && FilledFor(v, w, off + n, 0)
    ensures FilledFor(u, w, off, n)
  {
    hide View.Ptr;
    assert Touched(off + n, 0) == 0;
  }

  /** Nothing is missing before the end of what is present. */
  lemma PresentLacks(v: View, len: nat, off: nat, n: nat)
    requires v.Sized() && Present(v, len) && off + n <= len
    ensures Missing(v, off, n) == {}
  {
    hide View.Ptr;
    forall k: nat {:trigger v.Ptr(v.inum, k)} | k < NSLOTS && Needs(k, off / BSIZE, off / BSIZE + Touched(off, n))
      ensures v.Ptr(v.inum, k) != 0
    {
      if k != INDIRECT {
        var bn := if k < INDIRECT then k else k - 1;
        BlockTouched(off, n, bn);
        assert k == DataSlot(bn) && Data(v, v.inum, bn) != 0;
      } else {
        BlockTouched(off, n, NDIRECT);
      }
    }
  }

  lemma WholeLacks(v: View, off: nat, n: nat)
    requires Whole(v) && off + n <= v.ino.size
    ensures Missing(v, off, n) == {}
  {
    hide Present, Missing, View.Ptr;
    PresentLacks(v, v.ino.size, off, n);
  }

  lemma MissingBehind(v: View, off: nat, n: nat, k: nat)
    requires Whole(v) && k in Missing(v, off, n) && k != INDIRECT
    ensures (if k < INDIRECT then k else k - 1) * BSIZE >= v.ino.size
  {
    hide View.Ptr;
    var bn := if k < INDIRECT then k else k - 1;
    assert k == DataSlot(bn) && Data(v, v.inum, bn) == 0;
  }

  /** At most all blocks touched are missing, and the indirect block; in a file without holes, a first block
      that is only partly written is there already. */
  lemma MissingSize(v: View, off: nat, n: nat)
    requires v.Sized() && n > 0
    ensures |Missing(v, off, n)| <= Touched(off, n) + 1
    ensures Whole(v) && off <= v.ino.size && off % BSIZE != 0 ==> |Missing(v, off, n)| <= Touched(off, n)
  {
    var lo, hi := off / BSIZE, off / BSIZE + Touched(off, n);
    MissingSlots(v, off, n, lo);
    if Whole(v) && off <= v.ino.size && off % BSIZE != 0 {
      forall k | k in Missing(v, off, n) && k != INDIRECT
        ensures Needs(k, lo + 1, hi)
      {
        MissingBehind(v, off, n, k);
      }
      MissingSlots(v, off, n, lo + 1);
    }
  }

  lemma MissingSlots(v: View, off: nat, n: nat, from: nat)
    requires v.Sized() && from <= off / BSIZE + Touched(off, n)
    requires forall k | k in Missing(v, off, n) && k != INDIRECT :: Needs(k, from, off / BSIZE + Touched(off, n))
    ensures |Missing(v, off, n)| <= off / BSIZE + Touched(off, n) - from + 1
  {
    hide View.Ptr, Touched, Needs;
    var slots := Slots(from, off / BSIZE + Touched(off, n)) - {INDIRECT};
    SlotsSize(from, off / BSIZE + Touched(off, n));
    SubsetSize(Missing(v, off, n), slots + {INDIRECT});
  }

  /** writei on `v0` at `off0` has copied the first `tot` bytes of `src`. */
  ghost predicate Written(v0: View, v: View, off0: nat, src: seq<byte>, tot: nat) {
    && tot <= |src| && off0 + |src| <= MAXBYTES
    && v0.OK({}) && v.OK({}) && OthersKept(v0, v) && v.InodeOnDisk(v0.inum) == v0.InodeOnDisk(v0.inum)
    && v.ino == v0.ino.(addrs := v.ino.addrs)
    && off0 <= v0.ino.size <= MAXBYTES
    && (forall k | 0 <= k < MAXBYTES ::
          Byte(v, v.inum, k) == if off0 <= k < off0 + tot then src[k - off0] else Byte(v0, v0.inum, k))
    && FilledFor(v0, v, off0, tot)
  }

  lemma WrittenNothing(v: View, off: nat, src: seq<byte>)
    requires v.OK({}) && off <= v.ino.size <= MAXBYTES && off + |src| <= MAXBYTES
    ensures Written(v, v, off, src, 0)
  {
    hide View.Ptr, View.InodeOnDisk, Byte, Filled;
    FilledNothing(v, off / BSIZE);
  }

  lemma WrittenOK(v0: View, v: View, off: nat, src: seq<byte>, tot: nat)
    requires Written(v0, v, off, src, tot)
    ensures v.Sized() && v.OK({}) && off + |src| <= MAXBYTES
  {
  }

  lemma WrittenMore(v0: View, v: View, u: View, addr: nat, off0: nat, src: seq<byte>, tot: nat, m: nat)
    requires Written(v0, v, off0, src, tot) && 0 < m <= |src| - tot && m <= BSIZE - (off0 + tot) % BSIZE
    requires off0 + tot < MAXBYTES && Mapped(v, u, (off0 + tot) / BSIZE, addr)
    ensures Written(v0, WithBlock(u, addr, WriteInto(u.blocks[addr], (off0 + tot) % BSIZE, src[tot..tot + m])), off0,
        src, tot + m)
  {
    hide WriteInto, View.Ptr, View.OK, Data, GetInode, SlotKept, SamePtrs, OthersKept, View.InodeOnDisk, Byte, Filled,
        Touched, FilledFor;
    MappedOthers(v, u, (off0 + tot) / BSIZE, addr);
    var off, bytes := off0 + tot, src[tot..tot + m];
    var w := WithBlock(u, addr, WriteInto(u.blocks[addr], off % BSIZE, bytes));
    WriteTurn(v, u, addr, off, bytes);
    OthersKeptTrans(v0, v, w);
    TurnFilled(v0, v, u, w, addr, off0, tot, m);
    BytesMore(v0, v, w, off0, src, tot, m);
  }

  /** Its slots: those of one block more. */
  lemma TurnFilled(v0: View, v: View, u: View, w: View, addr: nat, off0: nat, tot: nat, m: nat)
    requires FilledFor(v0, v, off0, tot) && 0 < m <= BSIZE - (off0 + tot) % BSIZE
    requires u.Sized() && w.Sized() && w.sb == u.sb && w.inum == u.inum && SamePtrs(u, w)
    requires Mapped(v, u, (off0 + tot) / BSIZE, addr)
    ensures FilledFor(v0, w, off0, tot + m)
  {
    hide View.OK, View.Ptr, Filled, Touched, Data, SlotKept, SamePtrs, View.InodeOnDisk, OthersKept;
    MappedFills(v, u, (off0 + tot) / BSIZE, addr);
    FilledSame(v, u, w, (off0 + tot) / BSIZE, (off0 + tot) / BSIZE + 1);
    TouchedMore(off0, tot, m);
    FilledForMore(v0, v, w, off0, tot, m);
  }

  /** And its bytes. */
  lemma BytesMore(v0: View, v: View, w: View, off0: nat, src: seq<byte>, tot: nat, m: nat)
    requires tot + m <= |src| && v0.Sized() && v.Sized() && w.Sized()
    requires forall k | 0 <= k < MAXBYTES ::
               Byte(v, v.inum, k) == if off0 <= k < off0 + tot then src[k - off0] else Byte(v0, v0.inum, k)
    requires forall k | 0 <= k < MAXBYTES ::
               Byte(w, w.inum, k)
               == if off0 + tot <= k < off0 + tot + m then src[tot..tot + m][k - (off0 + tot)] else Byte(v, v.inum, k)
    ensures forall k | 0 <= k < MAXBYTES ::
              Byte(w, w.inum, k) == if off0 <= k < off0 + (tot + m) then src[k - off0] else Byte(v0, v0.inum, k)
  {
    hide Byte;
  }

  // ---- reading ----

  /** Nothing changed that a reader could tell; holes may have been given blocks. */
  ghost predicate Unchanged(v: View, w: View) {
    && SameBytes(v, w) && OthersKept(v, w) && w.OK({})
    && w.ino == v.ino.(addrs := w.ino.addrs) && w.InodeOnDisk(w.inum) == v.InodeOnDisk(v.inum)
  }

  lemma UnchangedItself(v: View)
    requires v.OK({})
    ensures Unchanged(v, v)
  {
    hide View.PointersOK, View.NoSharing, View.Conserved, View.Ptr, GetInode, Byte;
  }

  lemma UnchangedTrans(u: View, v: View, w: View)
    requires Unchanged(u, v) && Unchanged(v, w)
    ensures Unchanged(u, w)
  {
    hide View.OK, SameBytes, OthersKept, GetInode;
    SameBytesTrans(u, v, w);
    OthersKeptTrans(u, v, w);
    assert v.Sized() && w.Sized() by { UnchangedSized(u, v); UnchangedSized(v, w); }
  }

  lemma UnchangedSized(v: View, w: View)
    requires Unchanged(v, w)
    ensures v.Sized() && w.Sized() && w.OK({}) && OthersKept(v, w) && w.sb == v.sb
    ensures w.ino.size == v.ino.size && w.inum == v.inum
  {
  }

  lemma MappedUnchanged(v: View, u: View, bn: nat, addr: nat)
    requires Mapped(v, u, bn, addr)
    ensures Unchanged(v, u)
  {
    MappedBytes(v, u, bn, addr);
    hide View.PointersOK, View.NoSharing, View.Conserved, View.Ptr, GetInode, Byte, SameBytes, SlotKept;
  }

  /** `dst` are the `k` bytes from `off` on. */
  ghost predicate Reads(v: View, off: nat, dst: seq<byte>, k: nat) {
    && v.Sized() && |dst| == k && (k > 0 ==> off + k <= MAXBYTES)
    && forall y | off <= y < off + k :: dst[y - off] == Byte(v, v.inum, y)
  }

  lemma ReadsNothing(v: View, off: nat)
    requires v.Sized()
    ensures Reads(v, off, [], 0)
  {
  }

  lemma ReadsSame(v: View, u: View, off: nat, dst: seq<byte>, k: nat)
    requires Unchanged(v, u) && Reads(u, off, dst, k)
    ensures Reads(v, off, dst, k)
  {
    hide Byte, View.OK, OthersKept;
  }

  lemma ReadsMore(v: View, u: View, off: nat, dst: seq<byte>, k: nat, bytes: seq<byte>, m: nat)
    requires Reads(v, off, dst, k) && Unchanged(v, u) && Reads(u, off + k, bytes, m) && m > 0
    ensures Reads(v, off, dst + bytes, k + m)
  {
    hide Byte, View.OK, OthersKept;
    ReadsSame(v, u, off + k, bytes, m);
    forall y | off <= y < off + (k + m)
      ensures (dst + bytes)[y - off] == Byte(v, v.inum, y)
    {
      assert y >= off + k ==> bytes[y - (off + k)] == Byte(v, v.inum, y);
    }
  }

  lemma ReadsSlice(v: View, off: nat, dst: seq<byte>, k: nat)
    requires Reads(v, off, dst, k)
    ensures |dst| == k && (k > 0 ==> off + k <= MAXBYTES && dst == Contents(v, v.inum, off + k)[off..])
  {
    hide Byte;
  }

  lemma MappedSized(v: View, u: View, bn: nat, addr: nat)
    requires Mapped(v, u, bn, addr)
    ensures v.Sized() && u.Sized() && u.sb == v.sb && v.sb.inodestart < addr < |u.blocks|
  {
    hide View.PointersOK, View.NoSharing, View.Conserved, View.Ptr, View.InodeOnDisk, SlotKept;
  }

  /** A stretch of a file inside one block that exists lies in its data block. */
  lemma BlockReads(v: View, at: nat, k: nat)
    requires v.OK({}) && 0 < k <= BSIZE - at % BSIZE && at < MAXBYTES && Data(v, v.inum, at / BSIZE) != 0
    ensures Data(v, v.inum, at / BSIZE) < |v.blocks|
    ensures Reads(v, at, v.blocks[Data(v, v.inum, at / BSIZE)][at % BSIZE..at % BSIZE + k], k)
  {
    hide View.PointersOK, View.NoSharing, View.Conserved, View.Ptr, GetInode;
    DataRange(v, at / BSIZE);
    forall y: nat | at <= y < at + k
      ensures y < MAXBYTES && Byte(v, v.inum, y) == v.blocks[Data(v, v.inum, at / BSIZE)][at % BSIZE + (y - at)]
    {
      assert y / BSIZE == at / BSIZE && y % BSIZE == at % BSIZE + (y - at);
    }
  }

  lemma MappedIsData(v: View, u: View, bn: nat, addr: nat)
    requires Mapped(v, u, bn, addr)
    ensures v.Sized() && u.Sized() && u.OK({}) && bn < MAXFILE
    ensures addr == Data(u, u.inum, bn) != 0 && addr < |u.blocks|
    ensures Data(v, v.inum, bn) != 0 ==> u == v
  {
  }

  /** `src` put over the bytes of `c` from `off` on, which may reach beyond the end. */
  function Splice(c: seq<byte>, off: nat, src: seq<byte>): (r: seq<byte>)
    requires off <= |c|
    ensures |r| == if |c| < off + |src| then off + |src| else |c|
    ensures forall k {:trigger r[k]} | 0 <= k < |r| :: r[k] == if off <= k < off + |src| then src[k - off] else c[k]
  {
    c[..off] + src + if off + |src| < |c| then c[off + |src|..] else []
  }

  lemma WrittenIsSplice(v0: View, v: View, off: nat, src: seq<byte>)
    requires Written(v0, v, off, src, |src|)
    ensures Contents(v, v.inum, Max(v0.ino.size, off + |src|)) == Splice(Contents(v0, v0.inum, v0.ino.size), off, src)
  {
    hide View.OK, OthersKept, Present, Byte;
  }

  // ---- how many blocks a write logs ----

  /** How many blocks one call of writei logs at most: those it touches and a bitmap block for each that was
      missing, the indirect block, and the inode. */
  function MaxLogged(v: View, off: nat, n: nat): nat
    requires v.Sized()
  {
    if n == 0 then 0 else Touched(off, n) + |Missing(v, off, n)| + 2
  }

  /** What may be logged for these bytes. */
  ghost function MayLogFor(v: View, w: View, off: nat, n: nat): set<nat>
    requires v.Sized() && w.Sized()
  {
    MayLog(v, w, off / BSIZE, off / BSIZE + Touched(off, n))
  }

  lemma LoggedSize(v: View, w: View, off: nat, n: nat, logged0: set<nat>, logged: set<nat>, inode: nat)
    requires v.OK({}) && w.OK({}) && OthersKept(v, w) && FilledFor(v, w, off, n) && n > 0
    requires logged <= logged0 + MayLogFor(v, w, off, n) + {inode}
    ensures |logged - logged0| <= MaxLogged(v, off, n)
  {
    OKIsSized(v, {});
    OKIsSized(w, {});
    hide View.OK, OthersKept, Filled, Lacks, MayLog, Touched;
    MayLogSize(v, w, off / BSIZE, off / BSIZE + Touched(off, n));
    MoreSize(logged0, logged, MayLog(v, w, off / BSIZE, off / BSIZE + Touched(off, n)), inode);
  }

  lemma MoreSize(a: set<nat>, b: set<nat>, more: set<nat>, x: nat)
    requires b <= a + more + {x}
    ensures |b - a| <= |more| + 1
  {
    SubsetSize(b - a, more + {x});
    UnionSize(more, {x});
  }

  /** What writei promises: exactly a splice of the file, blocks only for the slots that were missing, and nothing
      else changes but the free map. The inode on disk is the one in memory if the file grew, else as it was. */
  ghost predicate Spliced(v: View, w: View, off: nat, src: seq<byte>) {
    && v.OK({}) && w.OK({}) && OthersKept(v, w)
    && off <= v.ino.size <= MAXBYTES && off + |src| <= MAXBYTES
    && w.ino == v.ino.(size := Max(v.ino.size, off + |src|), addrs := w.ino.addrs)
    && Contents(w, w.inum, w.ino.size) == Splice(Contents(v, v.inum, v.ino.size), off, src)
    && w.InodeOnDisk(w.inum) == (if off + |src| > v.ino.size then w.ino else v.InodeOnDisk(v.inum))
    && FilledFor(v, w, off, |src|)
  }

  /** The inode in memory changes if and only if one of its own pointers was missing. */
  lemma AddrsFilled(v: View, w: View, off: nat, n: nat)
    requires FilledFor(v, w, off, n)
    ensures w.ino.addrs == v.ino.addrs <==> forall k <- Missing(v, off, n) :: k >= NADDRS
  {
    hide Needs;
    assert forall k: nat | k < NADDRS :: v.Ptr(v.inum, k) == v.ino.addrs[k] && w.Ptr(w.inum, k) == w.ino.addrs[k];
    if forall k <- Missing(v, off, n) :: k >= NADDRS {
      forall k: nat | k < NADDRS
        ensures w.ino.addrs[k] == v.ino.addrs[k]
      {
        assert k !in Missing(v, off, n);
      }
    } else {
      var k :| k in Missing(v, off, n) && k < NADDRS;
      assert w.ino.addrs[k] != v.ino.addrs[k];
    }
  }

  /** The inode on disk falls behind if and only if the file does not grow, but the inode was missing a pointer
      that the bytes need. In a file without holes that cannot be. */
  lemma StaysOnDisk(v: View, w: View, off: nat, src: seq<byte>)
    requires Spliced(v, w, off, src) && v.InodeOnDisk(v.inum) == v.ino
    ensures w.InodeOnDisk(w.inum) == w.ino
        <==> off + |src| > v.ino.size || forall k <- Missing(v, off, |src|) :: k >= NADDRS
    ensures Whole(v) ==> w.InodeOnDisk(w.inum) == w.ino
  {
    hide View.PointersOK, View.NoSharing, View.Conserved, View.Ptr, Contents, GetInode, OthersKept, Missing, FilledFor,
        Whole;
    AddrsFilled(v, w, off, |src|);
    if Whole(v) && off + |src| <= v.ino.size { WholeLacks(v, off, |src|); }
  }

  /** And it stays without holes. */
  lemma FilledPresent(v: View, w: View, off: nat, n: nat)
    requires Whole(v) && off <= v.ino.size && FilledFor(v, w, off, n) && off + n <= MAXBYTES
    ensures Present(w, Max(v.ino.size, off + n))
  {
    hide View.Ptr;
    forall bn: nat | bn < MAXFILE
      ensures Data(w, w.inum, bn) != 0 <==> bn * BSIZE < Max(v.ino.size, off + n)
    {
      assert Data(v, v.inum, bn) != 0 <==> bn * BSIZE < v.ino.size;
      BlockTouched(off, n, bn);
    }
    BlockTouched(off, n, NDIRECT);
  }

  lemma BlockTouched(off: nat, n: nat, bn: nat)
    ensures off / BSIZE <= bn < off / BSIZE + Touched(off, n)
      <==> n > 0 && bn * BSIZE < off + n && off < (bn + 1) * BSIZE
    ensures bn < off / BSIZE + Touched(off, n) && n > 0 <==> n > 0 && bn * BSIZE < off + n
  {
  }

  lemma SplicedInside(v: View, w: View, off: nat, src: seq<byte>)
    requires Written(v, w, off, src, |src|) && off + |src| <= v.ino.size
    ensures Spliced(v, w, off, src)
  {
    WrittenIsSplice(v, w, off, src);
    hide View.PointersOK, View.NoSharing, View.Conserved, View.Ptr, Contents, GetInode, Byte, OthersKept;
    hide View.InodeOnDisk, Splice, FilledFor;
    assert Max(v.ino.size, off + |src|) == v.ino.size;
    assert w.ino == v.ino.(size := v.ino.size, addrs := w.ino.addrs);
  }

  /** With the same pointers and the same data blocks, the file is the same. */
  lemma SameFile(u: View, x: View, size: nat)
    requires u.Sized() && x.Sized() && x.sb == u.sb && x.inum == u.inum && u.PointersOK() && SamePtrs(u, x)
    requires forall b | u.sb.DataStart() <= b < |u.blocks| :: x.blocks[b] == u.blocks[b]
    ensures SameBytes(u, x) && (Present(x, size) <==> Present(u, size))
  {
    SamePresent(u, x, size);
    forall m: nat | m < MAXFILE
      ensures Data(x, x.inum, m) == Data(u, u.inum, m)
      ensures Data(u, u.inum, m) != 0 ==> x.blocks[Data(u, u.inum, m)] == u.blocks[Data(u, u.inum, m)]
    {
      assert u.IsSlot(u.inum, DataSlot(m));
    }
    hide View.Ptr, View.PointersOK, SamePtrs, Data, Present;
    forall k | 0 <= k < MAXBYTES
      ensures Byte(x, x.inum, k) == Byte(u, u.inum, k)
    {
    }
  }

  /** The size field does not matter to pointers and contents. */
  lemma ResizeKeeps(u: View, size: uint32)
    requires u.OK({})
    ensures var x := u.(ino := u.ino.(size := size));
            && x.OK({}) && OthersKept(u, x) && SameBytes(u, x) && (Present(x, size) <==> Present(u, size))
            && x.InodeOnDisk(x.inum) == u.InodeOnDisk(u.inum) && SamePtrs(u, x)
  {
    var x := u.(ino := u.ino.(size := size));
    assert SamePtrs(u, x);
    SamePtrsKeepsOK(u, x, {}, {});
    SameFile(u, x, size);
    hide View.PointersOK, View.NoSharing, View.Conserved, View.Ptr, Present, SameBytes, GetInode;
  }

  /** The disk after iupdate of the in-memory inode. */
  function Iupdated(x: View): View
    requires x.Sized() && x.sb.IBlock(x.inum) < |x.blocks|
  {
    WithBlock(x, x.sb.IBlock(x.inum), PutInode(x.blocks[x.sb.IBlock(x.inum)], x.inum % IPB, x.ino))
  }

  /** iupdate leaves all pointers and contents alone. */
  lemma IupdateKeeps(x: View, size: nat)
    requires x.OK({})
    ensures x.sb.IBlock(x.inum) < |x.blocks|
    ensures Iupdated(x).OK({}) && OthersKept(x, Iupdated(x)) && Iupdated(x).InodeOnDisk(x.inum) == x.ino
    ensures SameBytes(x, Iupdated(x)) && (Present(Iupdated(x), size) <==> Present(x, size)) && SamePtrs(x, Iupdated(x))
  {
    InodeWrite(x);
    MetadataApart(x, x.inum, 0);
    var w := Iupdated(x);
    assert forall b | x.sb.DataStart() <= b < |x.blocks| :: w.blocks[b] == x.blocks[b];
    assert w.sb == x.sb && w.inum == x.inum && w.ino == x.ino;
    assert SamePtrs(x, w);
    SamePtrsKeepsOK(x, w, {}, {});
    SameFile(x, w, size);
    OthersByPtrs(x, w);
  }

  lemma OthersByPtrs(x: View, w: View)
    requires x.OK({}) && w.Sized() && w.sb == x.sb && w.inum == x.inum && SamePtrs(x, w)
    requires forall b | x.sb.DataStart() <= b < |x.blocks| :: w.blocks[b] == x.blocks[b]
    requires forall i: nat | i < x.sb.ninodes && i != x.inum :: w.InodeOnDisk(i) == x.InodeOnDisk(i)
    ensures OthersKept(x, w)
  {
    hide GetInode;
  }

  /** The file grew: size is set, and the inode written back. */
  lemma SplicedBeyond(v: View, u: View, off: nat, src: seq<byte>)
    requires Written(v, u, off, src, |src|) && off + |src| > v.ino.size
    ensures var x := u.(ino := u.ino.(size := off + |src|));
            && x.Sized() && x.sb.IBlock(x.inum) < |x.blocks| && Spliced(v, Iupdated(x), off, src)
            && SameBytes(u, Iupdated(x))
  {
    hide View.PointersOK, View.NoSharing, View.Conserved, View.Ptr, Present, Contents, GetInode, OthersKept,
        PutInode, Byte, Data, Iupdated, Spliced, View.InodeOnDisk, SameBytes;
    var x := u.(ino := u.ino.(size := off + |src|));
    WrittenIsSplice(v, u, off, src);
    ResizeKeeps(u, off + |src|);
    IupdateKeeps(x, off + |src|);
    SameBytesTrans(u, x, Iupdated(x));
    SameContents(u, Iupdated(x), off + |src|);
    OthersKeptTrans(v, u, x);
    OthersKeptTrans(v, x, Iupdated(x));
    SamePtrsTrans(u, x, Iupdated(x));
    SplicedBy(v, u, x, off, src);
  }

  lemma SamePtrsTrans(u: View, v: View, w: View)
    requires u.Sized() && v.Sized() && w.Sized() && u.sb == v.sb == w.sb && SamePtrs(u, v) && SamePtrs(v, w)
    ensures SamePtrs(u, w)
  {
    hide View.Ptr;
    assert forall i: nat, k: nat | u.IsSlot(i, k) :: v.IsSlot(i, k);
  }

  lemma SameBytesTrans(u: View, v: View, w: View)
    requires SameBytes(u, v) && SameBytes(v, w)
    ensures SameBytes(u, w)
  {
    hide Byte;
  }

  lemma SplicedBy(v: View, u: View, x: View, off: nat, src: seq<byte>)
    requires Written(v, u, off, src, |src|) && off + |src| > v.ino.size && x == u.(ino := u.ino.(size := off + |src|))
    requires x.Sized() && x.sb.IBlock(x.inum) < |x.blocks|
    requires Iupdated(x).OK({}) && OthersKept(v, Iupdated(x)) && Iupdated(x).InodeOnDisk(x.inum) == x.ino
    requires SamePtrs(u, Iupdated(x))
    requires Contents(Iupdated(x), x.inum, off + |src|) == Splice(Contents(v, v.inum, v.ino.size), off, src)
    ensures Spliced(v, Iupdated(x), off, src)
  {
    hide View.PointersOK, View.NoSharing, View.Conserved, View.Ptr, Present, Contents, GetInode, OthersKept, PutInode;
    hide Byte, View.InodeOnDisk, Splice, Filled, SamePtrs;
    assert Max(v.ino.size, off + |src|) == off + |src|;
    FilledSame(v, u, Iupdated(x), off / BSIZE, off / BSIZE + Touched(off, |src|));
  }

  // ---- the loops of readi and writei ----

  lemma NothingMissing(v: View, off: nat)
    requires v.Sized()
    ensures Missing(v, off, 0) == {} && FilledFor(v, v, off, 0) && |Missing(v, off, 0)| <= |FreeOf(v)|
  {
    FilledNothing(v, off / BSIZE);
  }

  /** What the next `k` bytes are missing is part of what is missing in all. */
  lemma MissingMore(v: View, u: View, off: nat, tot: nat, k: nat)
    requires v.Sized() && u.Sized() && FilledFor(v, u, off, tot) && k > 0
    ensures Missing(v, off, tot + k) == Missing(v, off, tot) + Missing(u, off + tot, k)
  {
    hide View.Ptr, Lacks, Filled, Touched;
    TouchedMore(off, tot, k);
    LacksMore(v, u, off / BSIZE, off / BSIZE + Touched(off, tot), (off + tot) / BSIZE,
        off / BSIZE + Touched(off, tot + k));
  }

  /** So with too few free blocks for these, there were too few for all `m` bytes. */
  lemma MissingNext(v: View, u: View, off: nat, tot: nat, k: nat, m: nat)
    requires v.OK({}) && u.OK({}) && OthersKept(v, u) && FilledFor(v, u, off, tot) && 0 < k && tot + k <= m
    ensures |Missing(u, off + tot, k)| > |FreeOf(u)| ==> |Missing(v, off, m)| > |FreeOf(v)|
    ensures Missing(v, off, tot + k) == {} ==> Missing(v, off, tot) == {} && Missing(u, off + tot, k) == {}
  {
    hide View.OK, View.Ptr, OthersKept, FreeOf, Lacks, Filled, Touched;
    OKIsSized(v, {});
    OKIsSized(u, {});
    MissingMore(v, u, off, tot, k);
    if |Missing(u, off + tot, k)| > |FreeOf(u)| {
      TouchedMore(off, tot, k);
      TouchedMore(off, tot + k, m - tot - k);
      NotEnough(v, u, off / BSIZE, off / BSIZE + Touched(off, tot), (off + tot) / BSIZE,
          (off + tot) / BSIZE + Touched(off + tot, k), off / BSIZE + Touched(off, m));
    }
  }

  lemma InRangeNext(at: nat, k: nat)
    requires at < MAXBYTES && k <= BSIZE - at % BSIZE
    ensures at + k <= MAXBYTES
  {
  }

  /** The bits tell whether something was missing. */
  lemma UnchangedTakes(v: View, w: View, off: nat, m: nat)
    requires v.OK({}) && Unchanged(v, w) && FilledFor(v, w, off, m)
    ensures |Missing(v, off, m)| <= |FreeOf(v)|
    ensures w.blocks == v.blocks ==> Missing(v, off, m) == {}
  {
    hide View.OK, View.Ptr, OthersKept, Lacks, Filled, SameBytes, View.InodeOnDisk;
    UnchangedSized(v, w);
    FilledTakes(v, w, off / BSIZE, off / BSIZE + Touched(off, m));
    if w.blocks == v.blocks { assert FreeOf(w) == FreeOf(v); }
  }

  /** After bmap and the copy. */
  lemma TurnFills(v: View, u: View, off: nat, addr: nat, bytes: seq<byte>)
    requires off < MAXBYTES && Mapped(v, u, off / BSIZE, addr) && 0 < |bytes| <= BSIZE - off % BSIZE
    ensures var w := WithBlock(u, addr, WriteInto(u.blocks[addr], off % BSIZE, bytes));
            && w.Sized() && FilledFor(v, w, off, |bytes|) && OthersKept(v, w)
            && addr in MayLog(v, w, off / BSIZE, off / BSIZE + 1)
            && MayLog(v, w, off / BSIZE, off / BSIZE + 1) == MayLog(v, u, off / BSIZE, off / BSIZE + 1)
  {
    hide View.PointersOK, View.NoSharing, View.Conserved, View.Ptr, OthersKept, Touched, WriteInto, SamePtrs, Filled,
        UseBit, SlotKept, MayLog, View.InodeOnDisk, Byte;
    var w := WithBlock(u, addr, WriteInto(u.blocks[addr], off % BSIZE, bytes));
    MappedOthers(v, u, off / BSIZE, addr);
    WriteTurn(v, u, addr, off, bytes);
    MappedFills(v, u, off / BSIZE, addr);
    FilledSame(v, u, w, off / BSIZE, off / BSIZE + 1);
    TouchedMore(off, 0, |bytes|);
    SameMayLog(v, u, w, off / BSIZE);
  }

  lemma WrittenFills(v0: View, v: View, off: nat, src: seq<byte>, tot: nat)
    requires Written(v0, v, off, src, tot)
    ensures v0.OK({}) && v.OK({}) && v0.Sized() && v.Sized() && OthersKept(v0, v) && FilledFor(v0, v, off, tot)
    ensures off + |src| <= MAXBYTES
  {
  }

  lemma WrittenTakes(v0: View, v: View, off: nat, src: seq<byte>, tot: nat)
    requires Written(v0, v, off, src, tot)
    ensures v0.Sized() && |Missing(v0, off, tot)| <= |FreeOf(v0)|
  {
    hide View.OK, View.Ptr, OthersKept, Filled, Lacks, FreeOf, Byte;
    WrittenFills(v0, v, off, src, tot);
    FilledTakes(v0, v, off / BSIZE, off / BSIZE + Touched(off, tot));
  }

  /** What writei has logged so far, out of the blocks for `tot` bytes. */
  ghost predicate LoggedSoFar(v0: View, v: View, off: nat, tot: nat, logged0: set<nat>, logged: set<nat>)
    requires v0.Sized() && v.Sized()
  {
    && logged <= logged0 + MayLogFor(v0, v, off, tot)
    && (tot == 0 ==> logged == logged0)
  }

  lemma LoggedNothing(v: View, off: nat, logged: set<nat>)
    requires v.Sized()
    ensures LoggedSoFar(v, v, off, 0, logged, logged)
  {
  }

  lemma LoggedNext(v0: View, v: View, w: View, off: nat, tot: nat, m: nat, logged0: set<nat>, before: set<nat>,
                   logged: set<nat>)
    requires v0.OK({}) && v.OK({}) && w.OK({}) && OthersKept(v0, v) && OthersKept(v, w) && m > 0
    requires FilledFor(v0, v, off, tot) && FilledFor(v, w, off + tot, m)
    requires LoggedSoFar(v0, v, off, tot, logged0, before)
    requires logged <= before + MayLogFor(v, w, off + tot, m)
    ensures LoggedSoFar(v0, w, off, tot + m, logged0, logged)
  {
    hide View.OK, View.Ptr, OthersKept, Filled, FreeOf, MayLog, Touched;
    var lo, mid, from, hi := off / BSIZE, off / BSIZE + Touched(off, tot), (off + tot) / BSIZE,
        off / BSIZE + Touched(off, tot + m);
    TouchedMore(off, tot, m);
    FilledTakes(v0, v, lo, mid);
    FilledTakes(v, w, from, hi);
    MayLogMore(v0, v, w, lo, mid, from, hi);
  }

  lemma LoggedAtEnd(v0: View, v: View, off: nat, src: seq<byte>, logged0: set<nat>, logged: set<nat>, inode: nat)
    requires Written(v0, v, off, src, |src|) && v0.Sized() && v.Sized()
    requires LoggedSoFar(v0, v, off, |src|, logged0, logged)
    ensures |logged - logged0| <= MaxLogged(v0, off, |src|)
    ensures src != [] ==> |logged + {inode} - logged0| <= MaxLogged(v0, off, |src|)
  {
    hide View.OK, View.Ptr, OthersKept, Filled, MayLog, Touched, Written, MaxLogged;
    WrittenFills(v0, v, off, src, |src|);
    if src != [] {
      LoggedSize(v0, v, off, |src|, logged0, logged, inode);
      LoggedSize(v0, v, off, |src|, logged0, logged + {inode}, inode);
    } else {
      assert logged - logged0 == {};
      NoneLogged(v0, off);
    }
  }

  lemma NoneLogged(v: View, off: nat)
    requires v.Sized()
    ensures MaxLogged(v, off, 0) == 0
  {
  }
}
