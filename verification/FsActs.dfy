/** The methods of `Fs` in the terms of `SideBySide`: what one operation does that works on one inode. */
module FsActs {
  import opened Words
  import opened Bio
  import opened FsFormat
  import opened Ownership
  import opened SideBySide

  /** The name of that operation. */
  const OP: OpId := 0

  /** The system as view `v` shows it: its operation has inode and blocks in hand, and the others are on disk. */
  ghost function SysOf(v: View, pend: map<nat, Pending>, gone: set<(nat, nat)>): Sys
    requires v.Sized()
  {
    Sys(v.sb, v.blocks, seq(v.sb.ninodes, i requires 0 <= i < v.sb.ninodes => v.Inode(i)), map[v.inum := OP], pend,
        gone)
  }

  /** With nothing in hand. */
  ghost function Shows(v: View): Sys
    requires v.Sized()
  {
    SysOf(v, map[], {})
  }

  ghost function InHand(v: View, b: nat): Sys
    requires v.Sized()
  {
    SysOf(v, map[b := Pending(OP, true)], {})
  }

  lemma SysPtr(v: View, pend: map<nat, Pending>, i: nat, k: nat)
    requires v.Sized() && v.IsSlot(i, k)
    ensures SysOf(v, pend, {}).Ptr(i, k) == v.Ptr(i, k)
  {
  }

  lemma SysOK(v: View, pend: map<nat, Pending>)
    requires v.OK(pend.Keys) && forall b <- pend :: pend[b].zeroed ==> v.blocks[b] == ZeroBlock()
    ensures SysOf(v, pend, {}).OK()
  {
    hide GetInode, UseBit, View.Ptr, Sys.Ptr;
    var s := SysOf(v, pend, {});
    forall i: nat, k: nat | v.IsSlot(i, k)
      ensures s.Ptr(i, k) == v.Ptr(i, k)
    {
      SysPtr(v, pend, i, k);
    }
    assert forall i, k :: s.IsSlot(i, k) <==> v.IsSlot(i, k);
    assert forall x :: s.Owned(x) <==> v.Owned(x);
    assert forall x: nat | x < v.sb.size :: s.InUse(x) == v.InUse(x);
  }

  lemma ShowsOK(v: View)
    requires v.OK({})
    ensures Shows(v).OK()
  {
    var none: map<nat, Pending> := map[];
    assert none.Keys == {};
    SysOK(v, none);
  }

  // ---- the log_writes so far ----

  /** The log_writes lead from `s0` to `s`, each as an action of the operation. */
  ghost predicate Acted(s0: Sys, trace: seq<Write>, s: Sys) {
    if trace == [] then s == s0
    else
      var n := |trace| - 1;
      exists u :: Acted(s0, trace[..n], u) && Act(u, OP, trace[n].blockno, trace[n].data, s)
  }

  /** And a block may have been put into the inode since. */
  ghost predicate Reached(s0: Sys, trace: seq<Write>, s: Sys) {
    exists u, x :: Acted(s0, trace, u) && MayLink(u, OP, x) && s == WithLink(u, OP, x)
  }

  lemma ReachedAct(s0: Sys, trace: seq<Write>, s: Sys, a: Action)
    requires Reached(s0, trace, s) && May(s, OP, a)
    ensures Acted(s0, trace + [Write(BlockOf(s, OP, a), DataOf(s, OP, a))], Do(s, OP, a))
  {
    hide May, MayLink, BlockOf, DataOf, Do, WithLink;
    var u, x :| Acted(s0, trace, u) && MayLink(u, OP, x) && s == WithLink(u, OP, x);
    var w := Write(BlockOf(s, OP, a), DataOf(s, OP, a));
    assert (trace + [w])[..|trace|] == trace;
    assert ActBy(u, OP, x, a, w.blockno, w.data, Do(s, OP, a));
  }

  lemma ActedReached(s0: Sys, trace: seq<Write>, s: Sys)
    requires Acted(s0, trace, s) && s.OK()
    ensures Reached(s0, trace, s)
  {
    hide Sys.OK, Acted;
    assert MayLink(s, OP, NoLink) && s == WithLink(s, OP, NoLink);
  }

  lemma ActedLink(s0: Sys, trace: seq<Write>, s: Sys, x: Link)
    requires Acted(s0, trace, s) && MayLink(s, OP, x)
    ensures Reached(s0, trace, WithLink(s, OP, x))
  {
    hide MayLink, Acted, WithLink;
  }

  // ---- the actions of fs.c ----

  /** A block written behind the inodes. */
  lemma SameInodes(v: View, at: nat, data: Block, pend: map<nat, Pending>, gone: set<(nat, nat)>)
    requires v.Sized() && v.sb.bmapstart <= at < |v.blocks|
    ensures SysOf(WithBlock(v, at, data), pend, gone) == SysOf(v, pend, gone).(blocks := v.blocks[at := data])
  {
    hide GetInode;
    var w := WithBlock(v, at, data);
    forall i: nat | i < v.sb.ninodes
      ensures w.Inode(i) == v.Inode(i)
    {
      InodeBlock(v.sb, i);
    }
    assert SysOf(w, pend, gone).inos == SysOf(v, pend, gone).inos;
  }

  /** balloc's mark. */
  lemma MarkActs(s0: Sys, trace: seq<Write>, v: View, b: nat)
    requires v.OK({}) && Reached(s0, trace, Shows(v)) && b < v.sb.size && !v.InUse(b)
    ensures v.sb.BBlock(b) < |v.blocks|
    ensures var w := WithBlock(v, v.sb.BBlock(b), WithMapBit(v.blocks[v.sb.BBlock(b)], b % BPB, true));
            && w.Sized()
            && SysOf(w, map[b := Pending(OP, false)], {}).OK()
            && Acted(s0, trace + [Write(v.sb.BBlock(b), WithMapBit(v.blocks[v.sb.BBlock(b)], b % BPB, true))],
                     SysOf(w, map[b := Pending(OP, false)], {}))
  {
    hide View.OK, Reached, Acted, UseBit, WithMapBit, Sys.OK, Sys.Ptr, GetInode;
    ShowsOK(v);
    assert v.Sized() by { OKSized(v); }
    MapBlock(v.sb, b);
    var s, at := Shows(v), v.sb.BBlock(b);
    ReachedAct(s0, trace, s, Mark(b));
    DoKeeps(s, OP, Mark(b));
    SameInodes(v, at, WithMapBit(v.blocks[at], b % BPB, true), map[b := Pending(OP, false)], {});
    assert Do(s, OP, Mark(b)).pend == map[b := Pending(OP, false)];
  }

  lemma OKSized(v: View)
    requires v.OK({})
    ensures v.Sized()
  {
  }

  /** balloc */
  lemma BallocActs(s0: Sys, trace: seq<Write>, v: View, b: nat)
    requires v.OK({}) && Reached(s0, trace, Shows(v)) && b < v.sb.size && !v.InUse(b)
    ensures v.sb.BBlock(b) < |v.blocks| && Alloc(v, b).Sized()
    ensures Acted(s0, trace + [Write(v.sb.BBlock(b), WithMapBit(v.blocks[v.sb.BBlock(b)], b % BPB, true)),
                               Write(b, ZeroBlock())], InHand(Alloc(v, b), b))
  {
    hide View.PointersOK, View.NoSharing, View.Conserved, Reached, Acted, UseBit, WithMapBit, Sys.OK, Sys.Ptr, GetInode;
    MarkActs(s0, trace, v, b);
    AllocKeepsOK(v, b);
    var at := v.sb.BBlock(b);
    var w := Write(at, WithMapBit(v.blocks[at], b % BPB, true));
    var u := WithBlock(v, at, w.data);
    var t := SysOf(u, map[b := Pending(OP, false)], {});
    ActedReached(s0, trace + [w], t);
    ReachedAct(s0, trace + [w], t, Zero(b));
    BlockInRange(t, OP, Zero(b));
    assert trace + [w] + [Write(b, ZeroBlock())] == trace + [w, Write(b, ZeroBlock())];
    MapBlock(v.sb, b);
    SameInodes(u, b, ZeroBlock(), map[b := Pending(OP, true)], {});
    assert Do(t, OP, Zero(b)).pend == map[b := Pending(OP, true)];
  }

  lemma HandOK(v: View, b: nat)
    requires v.OK({b}) && v.blocks[b] == ZeroBlock()
    ensures v.Sized() && InHand(v, b).OK()
  {
    assert (map[b := Pending(OP, true)]).Keys == {b};
    SysOK(v, map[b := Pending(OP, true)]);
  }

  /** The block goes into the inode in memory. */
  lemma LinkActs(s0: Sys, trace: seq<Write>, v: View, k: nat, b: nat)
    requires v.OK({b}) && v.blocks[b] == ZeroBlock() && Acted(s0, trace, InHand(v, b))
    requires k < NADDRS && v.ino.addrs[k] == 0 && b < TWO32
    ensures var w := v.(ino := v.ino.(addrs := v.ino.addrs[k := b])); w.Sized() && Reached(s0, trace, Shows(w))
  {
    hide View.PointersOK, View.NoSharing, View.Conserved, Acted, Reached, UseBit, Sys.OK, Sys.Ptr, GetInode;
    var s, x := InHand(v, b), Link(v.inum, k, b);
    var w := v.(ino := v.ino.(addrs := v.ino.addrs[k := b]));
    HandOK(v, b);
    ActedLink(s0, trace, s, x);
    assert WithLink(s, OP, x).inos == Shows(w).inos;
    assert WithLink(s, OP, x).pend == map[] && s.busy[v.inum := OP] == s.busy;
  }

  /** Or into the indirect block. */
  lemma EntryActs(s0: Sys, trace: seq<Write>, v: View, j: nat, b: uint32)
    requires v.OK({b}) && v.blocks[b] == ZeroBlock() && Acted(s0, trace, InHand(v, b))
    requires j < NINDIRECT && v.ino.addrs[INDIRECT] != 0 && v.Ptr(v.inum, NADDRS + j) == 0
    ensures v.ino.addrs[INDIRECT] < |v.blocks|
    ensures var at := v.ino.addrs[INDIRECT];
            var w := WithBlock(v, at, PutU32(v.blocks[at], j, b));
            w.Sized() && Acted(s0, trace + [Write(at, PutU32(v.blocks[at], j, b))], Shows(w))
  {
    hide View.OK, Acted, Reached, UseBit, Sys.OK, Sys.Ptr, GetInode, View.Ptr;
    HandOK(v, b);
    var s, a := InHand(v, b), Entry(v.inum, NADDRS + j, b);
    ActedReached(s0, trace, s);
    SysPtr(v, map[b := Pending(OP, true)], v.inum, NADDRS + j);
    ReachedAct(s0, trace, s, a);
    BlockInRange(s, OP, a);
    MapBlock(v.sb, 0);
    SameInodes(v, v.ino.addrs[INDIRECT], PutU32(v.blocks[v.ino.addrs[INDIRECT]], j, b), map[], {});
    assert Do(s, OP, a).pend == map[] && s.busy[v.inum := OP] == s.busy;
  }

  /** writei's block */
  lemma DataActs(s0: Sys, trace: seq<Write>, v: View, k: nat, data: Block)
    requires v.OK({}) && Reached(s0, trace, Shows(v)) && k < NSLOTS && k != INDIRECT && v.Ptr(v.inum, k) != 0
    ensures v.Ptr(v.inum, k) < |v.blocks|
    ensures var w := WithBlock(v, v.Ptr(v.inum, k), data);
            w.Sized() && Acted(s0, trace + [Write(v.Ptr(v.inum, k), data)], Shows(w))
  {
    hide View.NoSharing, View.Conserved, Acted, Reached, UseBit, Sys.OK, Sys.Ptr, GetInode, View.Ptr;
    var s, a := Shows(v), Data(v.inum, k, data);
    ShowsOK(v);
    SysPtr(v, map[], v.inum, k);
    ReachedAct(s0, trace, s, a);
    BlockInRange(s, OP, a);
    MapBlock(v.sb, 0);
    SameInodes(v, v.Ptr(v.inum, k), data, map[], {});
    assert s.busy[v.inum := OP] == s.busy;
  }

  /** iupdate; `d` is the inode before its fields changed. */
  lemma IupdateActs(s0: Sys, trace: seq<Write>, v: View, d: Dinode)
    requires v.Sized() && Reached(s0, trace, Shows(v.(ino := d))) && v.ino.addrs == d.addrs
    ensures v.sb.IBlock(v.inum) < |v.blocks|
    ensures var at := v.sb.IBlock(v.inum);
            var w := WithBlock(v, at, PutInode(v.blocks[at], v.inum % IPB, v.ino));
            w.Sized() && Acted(s0, trace + [Write(at, PutInode(v.blocks[at], v.inum % IPB, v.ino))], Shows(w))
  {
    hide View.OK, Acted, Reached, UseBit, Sys.OK, Sys.Ptr, GetInode, PutInode, View.Ptr;
    var s, a := Shows(v.(ino := d)), Iupdate(v.inum, v.ino);
    ReachedOK(s0, trace, s);
    ReachedAct(s0, trace, s, a);
    InodeBlock(v.sb, v.inum);
    InodeWriteInodes(v);
    var at := v.sb.IBlock(v.inum);
    var w := WithBlock(v, at, PutInode(v.blocks[at], v.inum % IPB, v.ino));
    assert Do(s, OP, a).inos == Shows(w).inos && s.busy[v.inum := OP] == s.busy;
  }

  lemma ReachedOK(s0: Sys, trace: seq<Write>, s: Sys)
    requires Reached(s0, trace, s)
    ensures s.OK()
  {
    hide Sys.OK, Acted, WithLink;
    var u, x :| Acted(s0, trace, u) && MayLink(u, OP, x) && s == WithLink(u, OP, x);
    LinkKeeps(u, OP, x);
  }

  /** itrunc frees one block: that of slot `k`. */
  lemma FreeActs(s0: Sys, trace: seq<Write>, v: View, gone: set<(nat, nat)>, k: nat)
    requires v.Sized() && Reached(s0, trace, SysOf(v, map[], gone)) && k < NSLOTS
    requires SysOf(v, map[], gone).Ptr(v.inum, k) != 0
    requires k == INDIRECT ==>
      && (forall l | NADDRS <= l < NSLOTS :: SysOf(v, map[], gone).Ptr(v.inum, l) == 0)
      && forall x <- gone :: x.0 == v.inum
    ensures var b := SysOf(v, map[], gone).Ptr(v.inum, k);
            && b < v.sb.size && v.sb.BBlock(b) < |v.blocks|
            && var at := v.sb.BBlock(b);
               var data := WithMapBit(v.blocks[at], b % BPB, false);
               var w := WithBlock(v, at, data);
               && w.Sized()
               && Acted(s0, trace + [Write(at, data)],
                        if k >= NADDRS then SysOf(w, map[], gone + {(v.inum, k)})
                        else SysOf(w.(ino := w.ino.(addrs := w.ino.addrs[k := 0])), map[],
                                   if k == INDIRECT then {} else gone))
  {
    hide Acted, Reached, UseBit, Sys.OK, Sys.Ptr, GetInode, WithMapBit;
    var s, a := SysOf(v, map[], gone), Free(v.inum, k);
    ReachedOK(s0, trace, s);
    ReachedAct(s0, trace, s, a);
    BlockInRange(s, OP, a);
    var b := s.Ptr(v.inum, k);
    MapBlock(v.sb, b);
    var at := v.sb.BBlock(b);
    var data := WithMapBit(v.blocks[at], b % BPB, false);
    SameInodes(v, at, data, map[], gone);
    var w := WithBlock(v, at, data);
    assert s.busy[v.inum := OP] == s.busy;
    if k < NADDRS {
      assert Do(s, OP, a).inos == SysOf(w.(ino := w.ino.(addrs := w.ino.addrs[k := 0])), map[], gone).inos;
      if k == INDIRECT { assert (set x | x in gone && x.0 != v.inum) == {}; }
    } else {
      assert Do(s, OP, a).inos == SysOf(w, map[], gone + {(v.inum, k)}).inos;
    }
  }

  // ---- for the methods of `Fs` ----

  /** The log_writes of the operation lead from view `first` to view `v`. */
  ghost predicate ActsOn(first: View, trace: seq<Write>, v: View) {
    first.Sized() && v.Sized() && Reached(Shows(first), trace, Shows(v))
  }

  lemma ActsNone(v: View)
    requires v.OK({})
    ensures ActsOn(v, [], v)
  {
    hide View.OK, Sys.OK, Reached;
    OKSized(v);
    ShowsOK(v);
    ActedReached(Shows(v), [], Shows(v));
  }

  /** The log_writes of balloc. */
  function BallocWrites(sb: Superblock, blocks: Image, b: nat): seq<Write>
    requires sb.BBlock(b) < |blocks|
  {
    [Write(sb.BBlock(b), WithMapBit(blocks[sb.BBlock(b)], b % BPB, true)), Write(b, ZeroBlock())]
  }

  lemma BothWrites(trace: seq<Write>, sb: Superblock, blocks: Image, b: nat)
    requires sb.BBlock(b) < |blocks|
    ensures trace + [Write(sb.BBlock(b), WithMapBit(blocks[sb.BBlock(b)], b % BPB, true))] + [Write(b, ZeroBlock())]
        == trace + BallocWrites(sb, blocks, b)
  {
    hide WithMapBit;
  }

  /** bmap gives the inode a new block. */
  lemma GrowActs(first: View, trace: seq<Write>, v: View, w: View, k: nat, b: nat)
    requires v.OK({}) && b < v.sb.size && !v.InUse(b) && k < NADDRS && v.ino.addrs[k] == 0
    requires v.sb.BBlock(b) < |v.blocks| && b < TWO32
    requires w == Alloc(v, b).(ino := v.ino.(addrs := v.ino.addrs[k := b]))
    ensures ActsOn(first, trace, v) ==> ActsOn(first, trace + BallocWrites(v.sb, v.blocks, b), w)
  {
    hide View.OK, Acted, Reached, UseBit, WithMapBit, Shows, InHand;
    if ActsOn(first, trace, v) {
      AllocKeepsOK(v, b);
      BallocActs(Shows(first), trace, v, b);
      LinkActs(Shows(first), trace + BallocWrites(v.sb, v.blocks, b), Alloc(v, b), k, b);
    }
  }

  /** Or its indirect block. */
  lemma GrowEntryActs(first: View, trace: seq<Write>, v: View, j: nat, b: uint32)
    requires v.OK({}) && b < v.sb.size && !v.InUse(b) && v.sb.BBlock(b) < |v.blocks|
    requires j < NINDIRECT && v.ino.addrs[INDIRECT] != 0 && v.Ptr(v.inum, NADDRS + j) == 0
    ensures v.ino.addrs[INDIRECT] < |v.blocks|
    ensures var at := v.ino.addrs[INDIRECT];
            var data := PutU32(v.blocks[at], j, b);
            ActsOn(first, trace, v) ==>
              ActsOn(first, trace + BallocWrites(v.sb, v.blocks, b) + [Write(at, data)],
                     WithBlock(Alloc(v, b), at, data))
  {
    hide View.OK, Acted, Reached, UseBit, WithMapBit, Shows, InHand, View.Ptr;
    IndirectRange(v, b);
    if ActsOn(first, trace, v) {
      AllocKeepsOK(v, b);
      var u := Alloc(v, b);
      BallocActs(Shows(first), trace, v, b);
      assert v.IsSlot(v.inum, NADDRS + j);
      EntryActs(Shows(first), trace + BallocWrites(v.sb, v.blocks, b), u, j, b);
      var at := v.ino.addrs[INDIRECT];
      DoneActs(first, trace + BallocWrites(v.sb, v.blocks, b) + [Write(at, PutU32(v.blocks[at], j, b))],
          WithBlock(u, at, PutU32(v.blocks[at], j, b)));
    }
  }

  lemma IndirectRange(v: View, b: nat)
    requires v.OK({}) && v.ino.addrs[INDIRECT] != 0 && b < v.sb.size && !v.InUse(b) && v.sb.BBlock(b) < |v.blocks|
    ensures v.sb.DataStart() <= v.ino.addrs[INDIRECT] < |v.blocks| && v.ino.addrs[INDIRECT] != b
    ensures Alloc(v, b).blocks[v.ino.addrs[INDIRECT]] == v.blocks[v.ino.addrs[INDIRECT]]
  {
    hide UseBit, GetInode;
    assert v.IsSlot(v.inum, INDIRECT) && v.Ptr(v.inum, INDIRECT) == v.ino.addrs[INDIRECT];
    MapBlock(v.sb, b);
  }

  lemma DoneActs(first: View, trace: seq<Write>, v: View)
    requires first.Sized() && v.Sized() && Acted(Shows(first), trace, Shows(v)) && trace != []
    ensures ActsOn(first, trace, v)
  {
    hide Sys.OK, Shows;
    var n := |trace| - 1;
    var u :| Acted(Shows(first), trace[..n], u) && Act(u, OP, trace[n].blockno, trace[n].data, Shows(v));
    ActKeeps(u, OP, trace[n].blockno, trace[n].data, Shows(v));
    ActedReached(Shows(first), trace, Shows(v));
  }

  /** writei */
  lemma WriteActs(first: View, trace: seq<Write>, v: View, k: nat, data: Block)
    requires v.OK({}) && k < NSLOTS && k != INDIRECT && v.Ptr(v.inum, k) != 0
    ensures v.Ptr(v.inum, k) < |v.blocks|
    ensures ActsOn(first, trace, v) ==>
      ActsOn(first, trace + [Write(v.Ptr(v.inum, k), data)], WithBlock(v, v.Ptr(v.inum, k), data))
  {
    hide View.NoSharing, View.Conserved, Acted, Reached, UseBit, Shows, View.Ptr;
    assert v.IsSlot(v.inum, k);
    if ActsOn(first, trace, v) {
      DataActs(Shows(first), trace, v, k, data);
      DoneActs(first, trace + [Write(v.Ptr(v.inum, k), data)], WithBlock(v, v.Ptr(v.inum, k), data));
    }
  }

  /** iupdate */
  lemma UpdateActs(first: View, trace: seq<Write>, v: View, d: Dinode)
    requires v.Sized() && v.ino.addrs == d.addrs
    ensures v.sb.IBlock(v.inum) < |v.blocks|
    ensures var at := v.sb.IBlock(v.inum);
            var data := PutInode(v.blocks[at], v.inum % IPB, v.ino);
            ActsOn(first, trace, v.(ino := d)) ==> ActsOn(first, trace + [Write(at, data)], WithBlock(v, at, data))
  {
    hide View.OK, Acted, Reached, UseBit, Shows, PutInode;
    InodeBlock(v.sb, v.inum);
    if ActsOn(first, trace, v.(ino := d)) {
      IupdateActs(Shows(first), trace, v, d);
      var at := v.sb.IBlock(v.inum);
      var data := PutInode(v.blocks[at], v.inum % IPB, v.ino);
      DoneActs(first, trace + [Write(at, data)], WithBlock(v, at, data));
    }
  }

  /** The log_write of bfree. */
  function BfreeWrite(sb: Superblock, blocks: Image, b: nat): Write
    requires sb.BBlock(b) < |blocks|
  {
    Write(sb.BBlock(b), WithMapBit(blocks[sb.BBlock(b)], b % BPB, false))
  }

  /** The view after bfree. */
  function Freeing(v: View, b: nat): View
    requires v.sb.BBlock(b) < |v.blocks|
  {
    WithBlock(v, v.sb.BBlock(b), BfreeWrite(v.sb, v.blocks, b).data)
  }

  /** itrunc frees a direct block. */
  lemma DirectActs(first: View, trace: seq<Write>, v: View, k: nat)
    requires v.Sized() && k < NDIRECT && v.ino.addrs[k] != 0
    requires v.ino.addrs[k] < v.sb.size && v.sb.BBlock(v.ino.addrs[k]) < |v.blocks|
    ensures var b := v.ino.addrs[k];
            var u := Freeing(v, b);
            ActsOn(first, trace, v) ==>
              ActsOn(first, trace + [BfreeWrite(v.sb, v.blocks, b)], u.(ino := u.ino.(addrs := u.ino.addrs[k := 0])))
  {
    hide Acted, Reached, UseBit, WithMapBit;
    if ActsOn(first, trace, v) {
      var b := v.ino.addrs[k];
      var u := Freeing(v, b);
      SysPtr(v, map[], v.inum, k);
      FreeActs(Shows(first), trace, v, {}, k);
      DoneActs(first, trace + [BfreeWrite(v.sb, v.blocks, b)], u.(ino := u.ino.(addrs := u.ino.addrs[k := 0])));
    }
  }

  /** The entries of the indirect block that are gone, when itrunc has come to entry `j`. */
  function Dropped(inum: nat, a: Block, j: nat): (r: set<(nat, nat)>)
    requires j <= NINDIRECT
    ensures forall x <- r :: x.0 == inum
    ensures forall l: nat | l < NINDIRECT :: (inum, NADDRS + l) in r <==> l < j && GetU32(a, l) != 0
  {
    if j == 0 then {} else Dropped(inum, a, j - 1) + if GetU32(a, j - 1) != 0 then {(inum, NADDRS + j - 1)} else {}
  }

  ghost predicate DropsOn(first: View, trace: seq<Write>, v: View, a: Block, j: nat)
    requires j <= NINDIRECT
  {
    first.Sized() && v.Sized() && Reached(Shows(first), trace, SysOf(v, map[], Dropped(v.inum, a, j)))
  }

  lemma DropsNone(first: View, trace: seq<Write>, v: View, a: Block)
    ensures ActsOn(first, trace, v) <==> DropsOn(first, trace, v, a, 0)
  {
  }

  /** itrunc has read entry `j`: there is no block. */
  lemma DropSkips(first: View, trace: seq<Write>, v: View, a: Block, j: nat)
    requires j < NINDIRECT && GetU32(a, j) == 0
    ensures DropsOn(first, trace, v, a, j) ==> DropsOn(first, trace, v, a, j + 1)
  {
    assert Dropped(v.inum, a, j + 1) == Dropped(v.inum, a, j);
  }

  /** There is one, and it is freed. */
  lemma DropActs(first: View, trace: seq<Write>, v: View, a: Block, j: nat)
    requires v.Sized() && j < NINDIRECT && v.ino.addrs[INDIRECT] != 0
    requires v.ino.addrs[INDIRECT] < |v.blocks| && v.blocks[v.ino.addrs[INDIRECT]] == a
    requires GetU32(a, j) != 0 && GetU32(a, j) < v.sb.size && v.sb.BBlock(GetU32(a, j)) < |v.blocks|
    ensures var b := GetU32(a, j);
            DropsOn(first, trace, v, a, j) ==>
              DropsOn(first, trace + [BfreeWrite(v.sb, v.blocks, b)], Freeing(v, b), a, j + 1)
  {
    hide Acted, Reached, UseBit, WithMapBit;
    if DropsOn(first, trace, v, a, j) {
      var gone, b := Dropped(v.inum, a, j), GetU32(a, j);
      assert SysOf(v, map[], gone).Ptr(v.inum, NADDRS + j) == b;
      FreeActs(Shows(first), trace, v, gone, NADDRS + j);
      DoneDrops(first, trace + [BfreeWrite(v.sb, v.blocks, b)], Freeing(v, b), a, j + 1);
    }
  }

  lemma DoneDrops(first: View, trace: seq<Write>, v: View, a: Block, j: nat)
    requires first.Sized() && v.Sized() && trace != [] && j <= NINDIRECT
    requires Acted(Shows(first), trace, SysOf(v, map[], Dropped(v.inum, a, j)))
    ensures DropsOn(first, trace, v, a, j)
  {
    hide Sys.OK, Shows, SysOf, Dropped;
    var n, s := |trace| - 1, SysOf(v, map[], Dropped(v.inum, a, j));
    var u :| Acted(Shows(first), trace[..n], u) && Act(u, OP, trace[n].blockno, trace[n].data, s);
    ActKeeps(u, OP, trace[n].blockno, trace[n].data, s);
    ActedReached(Shows(first), trace, s);
  }

  /** And the indirect block itself, when all its entries are gone. */
  lemma IndirectActs(first: View, trace: seq<Write>, v: View, a: Block)
    requires v.Sized() && v.ino.addrs[INDIRECT] != 0
    requires v.ino.addrs[INDIRECT] < v.sb.size && v.blocks[v.ino.addrs[INDIRECT]] == a
    requires v.sb.BBlock(v.ino.addrs[INDIRECT]) < |v.blocks|
    ensures var b := v.ino.addrs[INDIRECT];
            var u := Freeing(v, b);
            DropsOn(first, trace, v, a, NINDIRECT) ==>
              ActsOn(first, trace + [BfreeWrite(v.sb, v.blocks, b)],
                     u.(ino := u.ino.(addrs := u.ino.addrs[INDIRECT := 0])))
  {
    hide Acted, Reached, UseBit, WithMapBit;
    if DropsOn(first, trace, v, a, NINDIRECT) {
      var b := v.ino.addrs[INDIRECT];
      var u := Freeing(v, b);
      var gone := Dropped(v.inum, a, NINDIRECT);
      forall l | NADDRS <= l < NSLOTS
        ensures SysOf(v, map[], gone).Ptr(v.inum, l) == 0
      {
        assert (v.inum, NADDRS + (l - NADDRS)) in gone <==> GetU32(a, l - NADDRS) != 0;
      }
      FreeActs(Shows(first), trace, v, gone, INDIRECT);
      DoneActs(first, trace + [BfreeWrite(v.sb, v.blocks, b)],
          u.(ino := u.ino.(addrs := u.ino.addrs[INDIRECT := 0])));
    }
  }

  /** The operation may end if and only if the inode is on disk as it is in memory. */
  lemma MayEnd(v: View)
    requires v.OK({})
    ensures v.Sized() && (Done(Shows(v), OP) <==> v.InodeOnDisk(v.inum) == v.ino)
  {
    hide View.PointersOK, View.NoSharing, View.Conserved, Sys.Ptr, GetInode;
    ShowsOK(v);
    assert v.inum in Shows(v).busy;
  }
}
