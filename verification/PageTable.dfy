/** Two-level page tables (vm.c) as frames, and what they map. */
module PageTable {
  import opened Words
  import opened Kalloc

  const NPT: nat := 1024
  /** The page number of KERNBASE. */
  const KERNPAGE: nat := 0x8_0000
  const NPAGES: nat := 0x10_0000
  const PTE_P: nat := 1
  const PTE_W: nat := 2
  const PTE_U: nat := 4

  /** A page table entry that is present: the frame, and the flags with PTE_P among them. */
  datatype Entry = Entry(frame: nat, flags: nat) {
    predicate OK() {
      frame < NFRAMES && flags < 4096 && flags % 2 == 1
    }

    function Word(): uint32
      requires OK()
    {
      frame * 4096 + flags
    }
  }

  predicate Present(w: uint32) {
    w % 2 == 1
  }

  /** PTE_ADDR, as a frame number, and PTE_FLAGS. */
  function Decode(w: uint32): (e: Entry)
    ensures Present(w) ==> e.OK() && e.Word() == w
  {
    Entry(w / 4096, w % 4096)
  }

  lemma WordDecodes(e: Entry)
    requires e.OK()
    ensures Present(e.Word()) && Decode(e.Word()) == e
  {
  }

  /** `perm | PTE_P` */
  function WithP(perm: nat): nat {
    if perm % 2 == 1 then perm else perm + 1
  }

  /** An address space: the page directory's frame, its page tables by directory index, and what each
      mapped page number maps to. */
  datatype Space = Space(dir: nat, tables: map<nat, nat>, entries: map<nat, Entry>) {
    predicate Sized() {
      && dir < NFRAMES
      && (forall i <- tables :: i < NPT && tables[i] < NFRAMES)
      && (forall v <- entries :: v < NPAGES && v / NPT in tables && entries[v].OK())
    }

    /** The pages of user memory. */
    predicate User(v: nat) {
      v in entries && v < KERNPAGE
    }

    function UserFrames(): set<nat> {
      set v | v in entries && v < KERNPAGE :: entries[v].frame
    }

    function Owned(): set<nat> {
      {dir} + tables.Values + UserFrames()
    }

    /** No frame is owned twice. */
    predicate Once() {
      && dir !in tables.Values && dir !in UserFrames() && tables.Values !! UserFrames()
      && (forall i <- tables, j <- tables | i != j :: tables[i] != tables[j])
      && (forall v <- entries, w <- entries | v < KERNPAGE && w < KERNPAGE && v != w ::
         entries[v].frame != entries[w].frame)
    }
  }

  function TableWord(t: nat): uint32
    requires t < NFRAMES
  {
    Entry(t, PTE_P + PTE_W + PTE_U).Word()
  }

  /** The word of page `v` in its page table. */
  function PteWord(sp: Space, v: nat): uint32
    requires sp.Sized()
  {
    if v in sp.entries then sp.entries[v].Word() else 0
  }

  predicate DirOK(pages: seq<Page>, sp: Space)
    requires sp.Sized()
  {
    sp.dir < |pages| && forall i: nat | i < NPT ::
        pages[sp.dir][i] == if i in sp.tables then TableWord(sp.tables[i]) else 0
  }

  /** The page that entry `j` of page table `i` is for. */
  function PageAt(i: nat, j: nat): (v: nat)
    requires j < NPT
    ensures v / NPT == i && v % NPT == j
  {
    i * NPT + j
  }

  predicate TableOK(pages: seq<Page>, sp: Space, i: nat)
    requires sp.Sized() && i in sp.tables
  {
    sp.tables[i] < |pages| && forall j: nat | j < NPT :: pages[sp.tables[i]][j] == PteWord(sp, PageAt(i, j))
  }

  /** The frames hold this address space. */
  predicate Rep(pages: seq<Page>, sp: Space) {
    sp.Sized() && DirOK(pages, sp) && forall i <- sp.tables :: TableOK(pages, sp, i)
  }

  /** Frames that hold something else may change. */
  lemma RepKept(pages: seq<Page>, pages': seq<Page>, sp: Space)
    requires Rep(pages, sp) && |pages'| == |pages|
    requires forall f <- {sp.dir} + sp.tables.Values :: f < |pages| && pages'[f] == pages[f]
    ensures Rep(pages', sp)
  {
    forall i <- sp.tables
      ensures TableOK(pages', sp, i)
    {
      assert TableOK(pages, sp, i) && sp.tables[i] in sp.tables.Values;
    }
  }

  /** A new, empty page table. */
  function WithTable(sp: Space, i: nat, t: nat): Space {
    sp.(tables := sp.tables[i := t])
  }

  lemma RepNewTable(pages: seq<Page>, sp: Space, i: nat, t: nat)
    requires Rep(pages, sp) && i < NPT && i !in sp.tables && t < |pages| && t < NFRAMES
    requires t != sp.dir && t !in sp.tables.Values && sp.dir !in sp.tables.Values
    ensures Rep(pages[t := Filled(0)][sp.dir := pages[sp.dir][i := TableWord(t)]], WithTable(sp, i, t))
  {
    var u := pages[t := Filled(0)][sp.dir := pages[sp.dir][i := TableWord(t)]];
    var w := WithTable(sp, i, t);
    forall k <- w.tables
      ensures TableOK(u, w, k)
    {
      if k == i {
        forall j: nat | j < NPT
          ensures PteWord(w, PageAt(i, j)) == 0
        {
        }
      } else {
        assert TableOK(pages, sp, k) && sp.tables[k] in sp.tables.Values;
        assert forall v: nat :: PteWord(w, v) == PteWord(sp, v);
      }
    }
  }

  function WithEntry(sp: Space, v: nat, e: Entry): Space {
    sp.(entries := sp.entries[v := e])
  }

  function WithoutEntry(sp: Space, v: nat): Space {
    sp.(entries := sp.entries - {v})
  }

  lemma SamePage(v: nat, i: nat, j: nat)
    requires j < NPT && i == v / NPT && j == v % NPT
    ensures PageAt(i, j) == v
  {
  }

  /** Setting or clearing one page table entry. */
  lemma RepPte(pages: seq<Page>, sp: Space, w: Space, v: nat)
    requires Rep(pages, sp) && v < NPAGES && v / NPT in sp.tables && sp.Once()
    requires w.Sized() && w.dir == sp.dir && w.tables == sp.tables && forall x: nat | x != v ::
        PteWord(w, x) == PteWord(sp, x)
    ensures sp.tables[v / NPT] < |pages|
    ensures var t := sp.tables[v / NPT]; Rep(pages[t := pages[t][v % NPT := PteWord(w, v)]], w)
  {
    assert TableOK(pages, sp, v / NPT);
    var t := sp.tables[v / NPT];
    var u := pages[t := pages[t][v % NPT := PteWord(w, v)]];
    forall k <- w.tables
      ensures TableOK(u, w, k)
    {
      assert TableOK(pages, sp, k) && sp.tables[k] in sp.tables.Values;
      forall j: nat | j < NPT
        ensures u[w.tables[k]][j] == PteWord(w, PageAt(k, j))
      {
        if PageAt(k, j) == v {
          assert k == v / NPT && j == v % NPT;
        } else if k == v / NPT {
          if j == v % NPT { SamePage(v, k, j); }
        }
      }
    }
  }

  // ---- ownership ----

  /** The frames that this part of the kernel has to account for are each in one place: on the free list, in
      the address space, or held by the code. */
  ghost predicate Apart(free: seq<nat>, sp: Space, held: set<nat>) {
    Distinct(free) && sp.Once() && Elements(free) !! sp.Owned() && Elements(free) !! held && sp.Owned() !! held
  }

  /** All of them. */
  function Total(free: seq<nat>, sp: Space, held: set<nat>): set<nat> {
    Elements(free) + sp.Owned() + held
  }

  predicate Range(lo: nat, n: nat, total: set<nat>) {
    forall f <- total :: lo <= f < n
  }

  /** Frames of pages that two address spaces map alike. */
  lemma FramesFrom(sp: Space, w: Space, but: set<nat>)
    requires forall x <- sp.entries | x !in but :: x in w.entries && w.entries[x] == sp.entries[x]
    ensures forall x <- sp.entries | x !in but && x < KERNPAGE :: sp.entries[x].frame in w.UserFrames()
  {
    forall x <- sp.entries | x !in but && x < KERNPAGE
      ensures sp.entries[x].frame in w.UserFrames()
    {
      assert x in w.entries && w.entries[x].frame == sp.entries[x].frame;
    }
  }

  lemma HeadApart(f: nat, free: seq<nat>, sp: Space, held: set<nat>)
    requires Apart([f] + free, sp, held)
    ensures Apart(free, sp, held + {f}) && Total(free, sp, held + {f}) == Total([f] + free, sp, held)
  {
    ElementsCons(f, free);
    DistinctTail(f, free);
  }

  lemma DistinctTail(f: nat, free: seq<nat>)
    requires Distinct([f] + free)
    ensures Distinct(free) && f !in Elements(free)
  {
    forall i, j | 0 <= i < j < |free|
      ensures free[i] != free[j]
    {
      assert ([f] + free)[i + 1] == free[i] && ([f] + free)[j + 1] == free[j];
    }
    forall i | 0 <= i < |free|
      ensures free[i] != f
    {
      assert ([f] + free)[0] == f && ([f] + free)[i + 1] == free[i];
    }
  }

  lemma DistinctCons(f: nat, free: seq<nat>)
    requires Distinct(free) && f !in Elements(free)
    ensures Distinct([f] + free)
  {
    forall i | 0 <= i < |free|
      ensures free[i] != f
    {
      assert free[i] in Elements(free);
    }
  }

  lemma GiveBack(f: nat, free: seq<nat>, sp: Space, held: set<nat>)
    requires Apart(free, sp, held) && f in held
    ensures Apart([f] + free, sp, held - {f}) && Total([f] + free, sp, held - {f}) == Total(free, sp, held)
  {
    ElementsCons(f, free);
    DistinctCons(f, free);
  }

  /** A held frame becomes a page table. */
  lemma TableApart(f: nat, free: seq<nat>, sp: Space, held: set<nat>, i: nat)
    requires Apart(free, sp, held) && f in held && i !in sp.tables
    ensures var w := WithTable(sp, i, f);
            Apart(free, w, held - {f}) && Total(free, w, held - {f}) == Total(free, sp, held)
  {
    var w := WithTable(sp, i, f);
    assert w.tables[i] == f && forall k <- sp.tables :: w.tables[k] == sp.tables[k];
    forall x
      ensures x in w.tables.Values <==> x in sp.tables.Values || x == f
    {
      if x in sp.tables.Values {
        var k :| k in sp.tables && sp.tables[k] == x;
        assert w.tables[k] == x;
      }
    }
    assert w.Owned() == sp.Owned() + {f};
  }

  /** A held frame becomes a page of user memory. */
  lemma UserApart(free: seq<nat>, sp: Space, held: set<nat>, v: nat, e: Entry)
    requires Apart(free, sp, held) && e.frame in held && v !in sp.entries && v < KERNPAGE
    ensures var w := WithEntry(sp, v, e);
            Apart(free, w, held - {e.frame}) && Total(free, w, held - {e.frame}) == Total(free, sp, held)
  {
    var w := WithEntry(sp, v, e);
    FramesFrom(sp, w, {v});
    assert w.entries[v] == e;
    assert w.UserFrames() == sp.UserFrames() + {e.frame};
    assert w.Owned() == sp.Owned() + {e.frame};
  }

  /** A mapping of the kernel's part owns nothing. */
  lemma KernelApart(free: seq<nat>, sp: Space, held: set<nat>, v: nat, e: Entry)
    requires Apart(free, sp, held) && v >= KERNPAGE
    ensures var w := WithEntry(sp, v, e); Apart(free, w, held) && Total(free, w, held) == Total(free, sp, held)
  {
    var w := WithEntry(sp, v, e);
    FramesFrom(sp, w, {v});
    FramesFrom(w, sp, {v});
    assert w.UserFrames() == sp.UserFrames();
  }

  /** A page of user memory is unmapped, and its frame held. */
  lemma UnmapApart(free: seq<nat>, sp: Space, held: set<nat>, v: nat)
    requires Apart(free, sp, held) && sp.User(v)
    ensures var w, f := WithoutEntry(sp, v), sp.entries[v].frame;
            Apart(free, w, held + {f}) && Total(free, w, held + {f}) == Total(free, sp, held)
  {
    var w, f := WithoutEntry(sp, v), sp.entries[v].frame;
    FramesFrom(sp, w, {v});
    FramesFrom(w, sp, {v});
    assert w.UserFrames() == sp.UserFrames() - {f};
    assert w.Owned() == sp.Owned() - {f};
  }
}
